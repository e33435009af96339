/** The life of a request: flag words, three reference counts and the chain of writes.
 *
 * `completion_ref` is held by whatever keeps the upper layers waiting, `done_ref` by
 * what the peers still have to confirm, `oos_send_ref` by what still has to be sent.
 * Each count holds one reference on the next one, and each data write holds one on
 * the next write, so that writes are done, and leave the transfer log, in order.
 */
module Requests {
  import opened Wrappers

  datatype Net =
    | NetPending | NetPendingOos | NetQueued | NetReady | NetSent | NetDone | NetOk | NetSis
    | ExpReceiveAck | ExpWriteAck | ExpBarrAck

  const NET_MASK: set<Net> := {NetPending, NetPendingOos, NetQueued, NetReady, NetSent, NetDone, NetOk, NetSis}

  datatype Local = LocalPending | LocalCompleted | LocalOk | LocalAborted | Postponed | CompletionSusp

  const LOCAL_MASK: set<Local> := {LocalPending, LocalCompleted, LocalOk, LocalAborted}

  datatype Kind = Read | ReadAhead | DataWrite | Flush

  // What became of the bio of the upper layers.
  datatype Master = Held | HandedUp(ok: bool)

  datatype Req = Req(
    kind: Kind,
    local: set<Local>,
    net: seq<set<Net>>,       // per peer
    completionRef: int,
    doneRef: int,
    oosSendRef: int,
    master: Master,
    next: Option<nat>,        // next_write
    prev: Option<nat>,        // the write whose next_write this is
    intervalDone: bool,
    done: bool,               // drbd_req_done() has been called
    oosSent: bool,            // off the transfer log
    submitting: bool,         // the submitter still holds its reference
    restarting: bool)         // queued for retry

  function IsWrite(r: Req): bool {
    r.kind.DataWrite? || r.kind.Flush?
  }

  // ---- who holds references ----

  function One(b: bool): nat {
    if b then 1 else 0
  }

  predicate NeedsMasterBio(n: set<Net>) {
    NetQueued in n && NetDone !in n
  }

  function CompletionShare(n: set<Net>): nat {
    One(NetPending in n) + One(NeedsMasterBio(n))
  }

  function LocalShare(local: set<Local>): nat {
    One(LocalPending in local && LocalAborted !in local) + One(CompletionSusp in local)
  }

  function DoneShare(n: set<Net>): nat {
    One(ExpBarrAck in n && NetDone !in n)
  }

  function OosShare(n: set<Net>): nat {
    One(NetQueued in n)
  }

  function Sum(net: seq<set<Net>>, share: set<Net> -> nat): nat {
    if |net| == 0 then 0 else Sum(net[..|net| - 1], share) + share(net[|net| - 1])
  }

  lemma {:induction false} SumUpdate(net: seq<set<Net>>, c: nat, n: set<Net>, share: set<Net> -> nat)
    requires c < |net|
    ensures Sum(net[c := n], share) == Sum(net, share) - share(net[c]) + share(n)
  {
    if c == |net| - 1 {
      assert net[c := n][..|net| - 1] == net[..|net| - 1];
    } else {
      SumUpdate(net[..|net| - 1], c, n, share);
      assert net[c := n][..|net| - 1] == net[..|net| - 1][c := n];
    }
  }

  lemma {:induction false} SumAtLeast(net: seq<set<Net>>, c: nat, share: set<Net> -> nat)
    requires c < |net|
    ensures Sum(net, share) >= share(net[c])
  {
    if c < |net| - 1 { SumAtLeast(net[..|net| - 1], c, share); }
  }

  lemma {:induction false} SumZero(net: seq<set<Net>>, share: set<Net> -> nat)
    requires forall c | 0 <= c < |net| :: share(net[c]) == 0
    ensures Sum(net, share) == 0
  {
    if |net| > 0 { SumZero(net[..|net| - 1], share); }
  }

  lemma {:induction false} SumSame(net: seq<set<Net>>, net': seq<set<Net>>, share: set<Net> -> nat)
    requires |net| == |net'| && forall c | 0 <= c < |net| :: share(net[c]) == share(net'[c])
    ensures Sum(net, share) == Sum(net', share)
  {
    if |net| > 0 { SumSame(net[..|net| - 1], net'[..|net| - 1], share); }
  }

  function CompletionHolders(r: Req): nat {
    One(r.submitting) + LocalShare(r.local) + Sum(r.net, CompletionShare)
  }

  // The reference on done_ref "as long as completion_ref > 0".
  predicate Base(r: Req) {
    if r.restarting then true
    else if LocalAborted in r.local then LocalPending in r.local
    else r.completionRef > 0
  }

  function DoneHolders(reqs: seq<Req>, i: nat): nat
    requires i < |reqs|
  {
    var r := reqs[i];
    One(Base(r)) + Sum(r.net, DoneShare) + One(r.prev.Some? && r.prev.value < |reqs| && !reqs[r.prev.value].done)
  }

  function OosHolders(reqs: seq<Req>, i: nat): nat
    requires i < |reqs|
  {
    var r := reqs[i];
    One(!r.done) + Sum(r.net, OosShare) + One(r.prev.Some? && r.prev.value < |reqs| && !reqs[r.prev.value].oosSent)
  }

  // Request `i` has `c` more completion references than there are holders.
  ghost predicate Completing(r: Req, c: int) {
    && r.completionRef == CompletionHolders(r) + c
    && (r.completionRef > 0 ==> r.master == Held && !r.restarting)
    && (r.restarting ==> r.master == Held && LocalAborted !in r.local)
  }

  // Request `i` has `x` more done and `y` more out-of-sync references than there are
  // holders; at zero, it is done, or off the log.
  ghost predicate Accounted(reqs: seq<Req>, i: nat, x: nat, y: nat) {
    && i < |reqs|
    && reqs[i].doneRef == DoneHolders(reqs, i) + x
    && reqs[i].oosSendRef == OosHolders(reqs, i) + y
    && (reqs[i].done <==> reqs[i].doneRef == 0)
    && (reqs[i].oosSent <==> reqs[i].oosSendRef == 0)
    && (!reqs[i].oosSent ==> (reqs[i].intervalDone <==> reqs[i].done))
  }

  function At(i: nat, k: nat, x: nat): nat {
    if i == k then x else 0
  }

  // All is accounted for, except for references of request `k` and request `cur`, which
  // are about to be put.
  ghost predicate Balanced(reqs: seq<Req>, k: nat, x: nat, y: nat, cur: nat, d: nat, o: nat) {
    forall i: nat | i < |reqs| :: Accounted(reqs, i, At(i, k, x) + At(i, cur, d), At(i, k, y) + At(i, cur, o))
  }

  ghost predicate Paired(reqs: seq<Req>) {
    forall p, i | 0 <= p < |reqs| && 0 <= i < |reqs| :: reqs[p].next == Some(i) <==> reqs[i].prev == Some(p)
  }

  ghost predicate Forward(reqs: seq<Req>) {
    && (forall i | 0 <= i < |reqs| && reqs[i].prev.Some? :: reqs[i].prev.value < i)
    && (forall i | 0 <= i < |reqs| && reqs[i].next.Some? :: i < reqs[i].next.value < |reqs|)
  }

  // A data write is linked to the next one, unless it was off the log by then.
  ghost predicate Following(reqs: seq<Req>) {
    forall i: nat, j: nat | NextWrite(reqs, i, j) :: reqs[i].next == Some(j) || reqs[i].oosSent
  }

  ghost predicate Links(reqs: seq<Req>) {
    Paired(reqs) && Forward(reqs) && Following(reqs)
  }

  // tl_previous_write is the last data write, unless that is off the log.
  ghost predicate Tail(reqs: seq<Req>, previousWrite: Option<nat>) {
    match previousWrite
    case Some(p) =>
      && p < |reqs| && reqs[p].kind.DataWrite? && reqs[p].next.None? && !reqs[p].oosSent
      && forall i | p < i < |reqs| :: !reqs[i].kind.DataWrite?
    case None => forall i | 0 <= i < |reqs| && reqs[i].kind.DataWrite? :: reqs[i].oosSent
  }

  // `j` is the first data write after the data write `i`.
  ghost predicate NextWrite(reqs: seq<Req>, i: nat, j: nat) {
    && i < j < |reqs| && reqs[i].kind.DataWrite? && reqs[j].kind.DataWrite?
    && forall m | i < m < j :: !reqs[m].kind.DataWrite?
  }

  /** Data writes are done, and leave the transfer log, in the order of the log. */
  lemma {:induction false} InOrder(reqs: seq<Req>, k: nat, x: nat, y: nat, cur: nat, d: nat, o: nat, i: nat, j: nat)
    requires Links(reqs) && Balanced(reqs, k, x, y, cur, d, o)
    requires i < j < |reqs| && reqs[i].kind.DataWrite? && reqs[j].kind.DataWrite?
    ensures reqs[j].done ==> reqs[i].done
    ensures reqs[j].oosSent ==> reqs[i].oosSent && reqs[j].done
    decreases j
  {
    var m := LastWriteBefore(reqs, i, j);
    if m > i { InOrder(reqs, k, x, y, cur, d, o, i, m); }
    assert NextWrite(reqs, m, j);
    assert Accounted(reqs, m, At(m, k, x) + At(m, cur, d), At(m, k, y) + At(m, cur, o));
    assert Accounted(reqs, j, At(j, k, x) + At(j, cur, d), At(j, k, y) + At(j, cur, o));
  }

  lemma LastWriteBefore(reqs: seq<Req>, i: nat, j: nat) returns (m: nat)
    requires i < j < |reqs| && reqs[i].kind.DataWrite? && reqs[j].kind.DataWrite?
    ensures i <= m && NextWrite(reqs, m, j)
  {
    m := j - 1;
    while !reqs[m].kind.DataWrite?
      invariant i <= m < j && forall l | m < l < j :: !reqs[l].kind.DataWrite?
      decreases m
    {
      m := m - 1;
    }
  }

  // ---- putting references ----

  predicate NewlyDone(r: Req, d: nat) {
    d > 0 && r.doneRef == d
  }

  function OosPut(r: Req, d: nat, o: nat): nat {
    o + One(NewlyDone(r, d))
  }

  predicate NewlySent(r: Req, d: nat, o: nat) {
    OosPut(r, d, o) > 0 && r.oosSendRef == OosPut(r, d, o)
  }

  // One round of drbd_put_ref_tl_walk(); `net` is what drbd_req_done() leaves.
  function Walked(r: Req, d: nat, o: nat, net: seq<set<Net>>): Req {
    r.(doneRef := r.doneRef - d,
       done := r.done || NewlyDone(r, d),
       net := net,
       oosSendRef := r.oosSendRef - OosPut(r, d, o),
       oosSent := r.oosSent || NewlySent(r, d, o),
       intervalDone := r.intervalDone || (NewlyDone(r, d) && !NewlySent(r, d, o)))
  }

  // The flags that count stay as they are.
  ghost predicate SameShares(net: seq<set<Net>>, net': seq<set<Net>>) {
    && |net| == |net'|
    && forall c | 0 <= c < |net| ::
         CompletionShare(net'[c]) == CompletionShare(net[c]) && DoneShare(net'[c]) == DoneShare(net[c])
         && OosShare(net'[c]) == OosShare(net[c])
  }

  lemma SameSums(net: seq<set<Net>>, net': seq<set<Net>>)
    requires SameShares(net, net')
    ensures Sum(net', CompletionShare) == Sum(net, CompletionShare) && Sum(net', DoneShare) == Sum(net, DoneShare)
    ensures Sum(net', OosShare) == Sum(net, OosShare)
  {
    SumSame(net, net', CompletionShare);
    SumSame(net, net', DoneShare);
    SumSame(net, net', OosShare);
  }

  lemma WalkedHere(reqs: seq<Req>, cur: nat, x: nat, y: nat, d: nat, o: nat, net: seq<set<Net>>)
    requires Accounted(reqs, cur, x + d, y + o) && reqs[cur].prev != Some(cur) && SameShares(reqs[cur].net, net)
    ensures Accounted(reqs[cur := Walked(reqs[cur], d, o, net)], cur, x, y)
  {
    SameSums(reqs[cur].net, net);
  }

  lemma WalkedNext(reqs: seq<Req>, cur: nat, i: nat, x: nat, y: nat, d: nat, o: nat, net: seq<set<Net>>)
    requires cur < |reqs| && Accounted(reqs, i, x, y) && i != cur && reqs[i].prev == Some(cur)
    requires NewlyDone(reqs[cur], d) ==> !reqs[cur].done
    requires NewlySent(reqs[cur], d, o) ==> !reqs[cur].oosSent
    ensures Accounted(reqs[cur := Walked(reqs[cur], d, o, net)], i,
                      x + One(NewlyDone(reqs[cur], d)), y + One(NewlySent(reqs[cur], d, o)))
  {
  }

  lemma WalkedOther(reqs: seq<Req>, cur: nat, i: nat, x: nat, y: nat, r: Req)
    requires cur < |reqs| && Accounted(reqs, i, x, y) && i != cur
    requires reqs[i].prev != Some(cur) || (r.done == reqs[cur].done && r.oosSent == reqs[cur].oosSent)
    ensures Accounted(reqs[cur := r], i, x, y)
  {
  }

  lemma PrevIs(reqs: seq<Req>, cur: nat, i: nat)
    requires Links(reqs) && cur < |reqs| && i < |reqs|
    ensures reqs[i].prev == Some(cur) <==> reqs[cur].next == Some(i)
    ensures reqs[cur].prev != Some(cur)
  {
  }

  // What is put on one write is owed to the next one.
  lemma WalkStep(reqs: seq<Req>, k: nat, x: nat, y: nat, cur: nat, d: nat, o: nat, net: seq<set<Net>>, nxt: nat)
    requires Links(reqs) && Balanced(reqs, k, x, y, cur, d, o) && cur < |reqs|
    requires SameShares(reqs[cur].net, net)
    requires if reqs[cur].next.Some? then nxt == reqs[cur].next.value else nxt == |reqs|
    ensures Balanced(reqs[cur := Walked(reqs[cur], d, o, net)], k, x, y, nxt,
                     One(NewlyDone(reqs[cur], d)), One(NewlySent(reqs[cur], d, o)))
  {
    hide Accounted, Walked, SameShares, NewlyDone, NewlySent, Links, At;
    var d', o' := One(NewlyDone(reqs[cur], d)), One(NewlySent(reqs[cur], d, o));
    var reqs' := reqs[cur := Walked(reqs[cur], d, o, net)];
    forall i: nat | i < |reqs'|
      ensures Accounted(reqs', i, At(i, k, x) + At(i, nxt, d'), At(i, k, y) + At(i, nxt, o'))
    {
      WalkStepAt(reqs, k, x, y, cur, d, o, net, nxt, i);
    }
  }

  lemma WalkStepAt(reqs: seq<Req>, k: nat, x: nat, y: nat, cur: nat, d: nat, o: nat, net: seq<set<Net>>, nxt: nat, i: nat)
    requires Links(reqs) && cur < |reqs| && i < |reqs| && SameShares(reqs[cur].net, net)
    requires Accounted(reqs, cur, At(cur, k, x) + At(cur, cur, d), At(cur, k, y) + At(cur, cur, o))
    requires Accounted(reqs, i, At(i, k, x) + At(i, cur, d), At(i, k, y) + At(i, cur, o))
    requires if reqs[cur].next.Some? then nxt == reqs[cur].next.value else nxt == |reqs|
    ensures Accounted(reqs[cur := Walked(reqs[cur], d, o, net)], i,
                      At(i, k, x) + At(i, nxt, One(NewlyDone(reqs[cur], d))),
                      At(i, k, y) + At(i, nxt, One(NewlySent(reqs[cur], d, o))))
  {
    hide Accounted, Walked, SameShares, NewlyDone, NewlySent, Links;
    PrevIs(reqs, cur, i);
    if i == cur {
      WalkedHere(reqs, cur, At(cur, k, x), At(cur, k, y), d, o, net);
      assert nxt != cur by { PrevIs(reqs, cur, cur); }
    } else if i == nxt {
      NotBefore(reqs, cur, At(cur, k, x) + d, At(cur, k, y) + o, d, o);
      WalkedNext(reqs, cur, i, At(i, k, x), At(i, k, y), d, o, net);
    } else {
      WalkedOther(reqs, cur, i, At(i, k, x), At(i, k, y), Walked(reqs[cur], d, o, net));
    }
  }

  lemma NotBefore(reqs: seq<Req>, cur: nat, x: nat, y: nat, d: nat, o: nat)
    requires Accounted(reqs, cur, x, y)
    ensures NewlyDone(reqs[cur], d) ==> !reqs[cur].done
    ensures NewlySent(reqs[cur], d, o) ==> !reqs[cur].oosSent
  {
  }

  lemma SameLinks(reqs: seq<Req>, cur: nat, r: Req)
    requires Links(reqs) && cur < |reqs|
    requires r.kind == reqs[cur].kind && r.next == reqs[cur].next && r.prev == reqs[cur].prev
    requires reqs[cur].oosSent ==> r.oosSent
    ensures Links(reqs[cur := r])
  {
    var reqs' := reqs[cur := r];
    forall i: nat, j: nat | NextWrite(reqs', i, j) ensures reqs'[i].next == Some(j) || reqs'[i].oosSent {
      assert NextWrite(reqs, i, j) by {
        forall m | i < m < j ensures !reqs[m].kind.DataWrite? { assert !reqs'[m].kind.DataWrite?; }
      }
    }
  }

  // With the last write all writes are off the log.
  lemma TailSent(reqs: seq<Req>, p: nat, k: nat, x: nat, y: nat, cur: nat, d: nat, o: nat)
    requires Links(reqs) && Balanced(reqs, k, x, y, cur, d, o)
    requires p < |reqs| && reqs[p].kind.DataWrite? && reqs[p].oosSent
    requires forall i | p < i < |reqs| :: !reqs[i].kind.DataWrite?
    ensures Tail(reqs, None)
  {
    forall i | 0 <= i < |reqs| && reqs[i].kind.DataWrite? ensures reqs[i].oosSent {
      if i < p { InOrder(reqs, k, x, y, cur, d, o, i, p); }
    }
  }

  // ---- completion ----

  predicate AnyOk(r: Req) {
    LocalOk in r.local || exists c :: 0 <= c < |r.net| && NetOk in r.net[c]
  }

  // A peer that still keeps the completion from being reported.
  predicate StillBusy(n: set<Net>) {
    n * NET_MASK != {} && NetPendingOos !in n && (NetPending in n || NetQueued in n)
  }

  predicate Reportable(r: Req) {
    && (forall c | 0 <= c < |r.net| :: !StillBusy(r.net[c]))
    && r.completionRef == 0 && (LocalPending !in r.local || LocalAborted in r.local) && r.master.Held?
  }

  // drbd_req_complete()
  function Completed(r: Req, errIo: bool, quorum: bool): Req {
    if !Reportable(r) then r
    else
      var ok := AnyOk(r) && !errIo;
      var local :=
        if errIo then r.local - {Postponed}
        else if !ok && r.kind.Read? && !r.oosSent then r.local + {Postponed}
        else r.local;
      if Postponed in local then r.(local := local)
      else r.(local := local, master := HandedUp(ok && quorum))
  }

  // drbd_req_put_completion_ref(), up to putting the reference on done_ref
  function PutCompletion(r: Req, put: nat, errIo: bool, quorum: bool): Req {
    var r' := r.(completionRef := r.completionRef - put);
    if put == 0 || r'.completionRef != 0 then r'
    else
      var r'' := Completed(r', errIo, quorum);
      r''.(restarting := LocalAborted !in r''.local && Postponed in r''.local)
  }

  predicate DropsBase(r: Req, put: nat, errIo: bool, quorum: bool) {
    put > 0 && r.completionRef == put &&
    var r' := Completed(r.(completionRef := 0), errIo, quorum);
    LocalAborted !in r'.local && Postponed !in r'.local
  }

  lemma CompletedKeeps(r: Req, errIo: bool, quorum: bool)
    ensures var r' := Completed(r, errIo, quorum);
            r' == r.(local := r'.local, master := r'.master) && r'.local - {Postponed} == r.local - {Postponed}
    ensures Completed(r, errIo, quorum).master == r.master || r.master.Held?
    ensures Postponed in Completed(r, errIo, quorum).local ==> Completed(r, errIo, quorum).master == r.master
    ensures forall f | f != Postponed :: f in Completed(r, errIo, quorum).local <==> f in r.local
  {
    hide AnyOk, StillBusy;
  }

  lemma PutCompletionKeeps(reqs: seq<Req>, k: nat, put: nat, x: nat, y: nat, errIo: bool, quorum: bool)
    requires Accounted(reqs, k, x, y) && Completing(reqs[k], put) && reqs[k].prev != Some(k)
    ensures var r := PutCompletion(reqs[k], put, errIo, quorum);
            && Completing(r, 0)
            && Accounted(reqs[k := r], k, x + One(DropsBase(reqs[k], put, errIo, quorum)), y)
  {
    hide Sum, Completed;
    var r := reqs[k];
    CompletedKeeps(r.(completionRef := r.completionRef - put), errIo, quorum);
    assert LocalShare(PutCompletion(r, put, errIo, quorum).local) == LocalShare(r.local);
    assert r.completionRef > 0 && r.completionRef == put ==> LocalShare(r.local) == 0;
  }

  // ---- changing flags ----

  datatype Change = Change(clearLocal: set<Local>, setLocal: set<Local>, peer: Option<nat>, clear: set<Net>, set_: set<Net>)

  function NewLocal(r: Req, ch: Change): set<Local> {
    r.local - ch.clearLocal + ch.setLocal
  }

  function OldNet(r: Req, ch: Change): set<Net> {
    if ch.peer.Some? && ch.peer.value < |r.net| then r.net[ch.peer.value] else {}
  }

  function NewNet(r: Req, ch: Change): set<Net> {
    if ch.peer.Some? then OldNet(r, ch) - ch.clear + ch.set_ else {}
  }

  function LocalGets(local: set<Local>, local': set<Local>): nat {
    One(LocalPending !in local && LocalPending in local') + One(CompletionSusp !in local && CompletionSusp in local')
  }

  function LocalPuts(local: set<Local>, local': set<Local>): nat {
    One(CompletionSusp in local && CompletionSusp !in local')
    + One(LocalAborted !in local && LocalAborted in local')
    + One(LocalPending in local && LocalPending !in local' && LocalAborted !in local')
  }

  function NetGets(old_: set<Net>, new_: set<Net>): nat {
    One(NetPending !in old_ && NetPending in new_) + One(!NeedsMasterBio(old_) && NeedsMasterBio(new_))
  }

  function NetPuts(old_: set<Net>, new_: set<Net>): nat {
    One(NetPending in old_ && NetPending !in new_) + One(NeedsMasterBio(old_) && !NeedsMasterBio(new_))
  }

  // The flags, and the references that are taken.
  function Flagged(r: Req, ch: Change): Req {
    var old_, new_ := OldNet(r, ch), NewNet(r, ch);
    r.(local := NewLocal(r, ch),
       net := if ch.peer.Some? && ch.peer.value < |r.net| then r.net[ch.peer.value := new_] else r.net,
       completionRef := r.completionRef + LocalGets(r.local, NewLocal(r, ch)) + NetGets(old_, new_),
       doneRef := r.doneRef + One(ExpBarrAck !in old_ && ExpBarrAck in new_),
       oosSendRef := r.oosSendRef + One(NetQueued !in old_ && NetQueued in new_))
  }

  // The references that are put.
  function CPut(r: Req, ch: Change): nat {
    LocalPuts(r.local, NewLocal(r, ch)) + NetPuts(OldNet(r, ch), NewNet(r, ch))
  }

  function DPut(r: Req, ch: Change): nat {
    BasePut(r.local, NewLocal(r, ch)) + DoneNetPut(OldNet(r, ch), NewNet(r, ch))
  }

  function BasePut(local: set<Local>, local': set<Local>): nat {
    One(LocalPending in local && LocalPending !in local' && LocalAborted in local')
  }

  function DoneNetPut(old_: set<Net>, new_: set<Net>): nat {
    One(NetDone !in old_ && NetDone in new_ && ExpBarrAck in old_)
  }

  function OPut(r: Req, ch: Change): nat {
    One(NetQueued in OldNet(r, ch) && NetQueued !in NewNet(r, ch))
  }

  ghost predicate PermittedLocal(r: Req, local': set<Local>) {
    && (Postponed in r.local <==> Postponed in local')
    && (LocalAborted in r.local ==> LocalAborted in local')
    && (LocalPending !in r.local && LocalPending in local' ==> r.submitting && LocalAborted !in local')
    && (LocalAborted !in r.local && LocalAborted in local' ==> LocalPending in r.local && LocalPending in local')
  }

  ghost predicate PermittedNet(r: Req, old_: set<Net>, new_: set<Net>) {
    && (NetDone in old_ ==> NetDone in new_) && (ExpBarrAck in old_ ==> ExpBarrAck in new_)
    && (NetPending !in old_ && NetPending in new_ ==> r.submitting)
    && (NetQueued !in old_ && NetQueued in new_ ==>
          (r.submitting && LocalAborted !in r.local) || (NetPending in old_ && !r.oosSent))
    && (ExpBarrAck !in old_ && ExpBarrAck in new_ ==>
          r.submitting && LocalAborted !in r.local && NetDone !in new_)
  }

  /** When flags may change: references are taken only from something that holds one. */
  ghost predicate Permitted(r: Req, ch: Change) {
    && (ch.peer.Some? ==> ch.peer.value < |r.net|)
    && PermittedLocal(r, NewLocal(r, ch)) && PermittedNet(r, OldNet(r, ch), NewNet(r, ch))
    && (CompletionSusp !in r.local && CompletionSusp in NewLocal(r, ch) ==> NetPending in OldNet(r, ch))
  }

  lemma NetShares(old_: set<Net>, new_: set<Net>)
    ensures CompletionShare(new_) + NetPuts(old_, new_) == CompletionShare(old_) + NetGets(old_, new_)
  {
  }

  lemma LocalShares(r: Req, local': set<Local>)
    requires PermittedLocal(r, local')
    ensures LocalShare(local') + LocalPuts(r.local, local') == LocalShare(r.local) + LocalGets(r.local, local')
  {
  }

  lemma FlaggedCompletion(r: Req, ch: Change)
    requires Completing(r, 0) && Permitted(r, ch)
    ensures Completing(Flagged(r, ch), CPut(r, ch))
    ensures r.completionRef == 0 ==> Flagged(r, ch).completionRef == 0
  {
    hide Sum, NeedsMasterBio, One, CompletionShare, LocalShare, LocalGets, LocalPuts, NetGets, NetPuts;
    NetShares(OldNet(r, ch), NewNet(r, ch));
    LocalShares(r, NewLocal(r, ch));
    if ch.peer.Some? {
      SumUpdate(r.net, ch.peer.value, NewNet(r, ch), CompletionShare);
    }
    var r' := Flagged(r, ch);
    assert r'.completionRef == CompletionHolders(r') + CPut(r, ch);
    NothingFromZero(r, ch);
  }

  lemma NothingFromZero(r: Req, ch: Change)
    requires Completing(r, 0) && Permitted(r, ch)
    ensures r.completionRef == 0 ==> Flagged(r, ch).completionRef == 0
    ensures r.completionRef >= 0 && Flagged(r, ch).completionRef >= r.completionRef
    ensures r.restarting && LocalAborted !in r.local ==> LocalAborted !in NewLocal(r, ch)
  {
    hide Sum;
    if ch.peer.Some? { SumAtLeast(r.net, ch.peer.value, CompletionShare); }
  }

  lemma DoneShares(r: Req, old_: set<Net>, new_: set<Net>)
    requires PermittedNet(r, old_, new_)
    ensures DoneShare(new_) + DoneNetPut(old_, new_) == DoneShare(old_) + One(ExpBarrAck !in old_ && ExpBarrAck in new_)
    ensures OosShare(new_) + One(NetQueued in old_ && NetQueued !in new_)
         == OosShare(old_) + One(NetQueued !in old_ && NetQueued in new_)
  {
  }

  lemma BaseShares(r: Req, ch: Change)
    requires Completing(r, 0) && Permitted(r, ch)
    ensures One(Base(Flagged(r, ch))) + BasePut(r.local, NewLocal(r, ch)) == One(Base(r))
  {
    hide Sum, NetGets, LocalGets;
    NothingFromZero(r, ch);
    assert LocalShare(r.local) <= r.completionRef;
  }

  lemma FlaggedRefs(reqs: seq<Req>, k: nat, ch: Change)
    requires Accounted(reqs, k, 0, 0) && Completing(reqs[k], 0) && Permitted(reqs[k], ch) && reqs[k].prev != Some(k)
    ensures Accounted(reqs[k := Flagged(reqs[k], ch)], k, DPut(reqs[k], ch), OPut(reqs[k], ch))
  {
    hide Sum, DoneShare, OosShare, DoneNetPut, BasePut, Base;
    var r := reqs[k];
    DoneShares(r, OldNet(r, ch), NewNet(r, ch));
    BaseShares(r, ch);
    if ch.peer.Some? {
      SumUpdate(r.net, ch.peer.value, NewNet(r, ch), DoneShare);
      SumUpdate(r.net, ch.peer.value, NewNet(r, ch), OosShare);
    }
    StillHeld(r, ch);
  }

  // Whoever takes a reference finds one.
  lemma StillHeld(r: Req, ch: Change)
    requires Completing(r, 0) && Permitted(r, ch)
    ensures ExpBarrAck !in OldNet(r, ch) && ExpBarrAck in NewNet(r, ch) ==> Base(r)
    ensures NetQueued !in OldNet(r, ch) && NetQueued in NewNet(r, ch) ==> Base(r) || !r.oosSent
  {
    hide Sum;
  }

  lemma ReplaceOne(reqs: seq<Req>, k: nat, x: nat, y: nat, d: nat, o: nat, r: Req, x': nat, y': nat, d': nat, o': nat)
    requires Balanced(reqs, k, x, y, k, d, o) && k < |reqs|
    requires r.done == reqs[k].done && r.oosSent == reqs[k].oosSent
    requires Accounted(reqs[k := r], k, x' + d', y' + o')
    ensures Balanced(reqs[k := r], k, x', y', k, d', o')
  {
    hide Accounted;
    var reqs' := reqs[k := r];
    forall i: nat | i < |reqs'|
      ensures Accounted(reqs', i, At(i, k, x') + At(i, k, d'), At(i, k, y') + At(i, k, o'))
    {
      assert Accounted(reqs, i, At(i, k, x) + At(i, k, d), At(i, k, y) + At(i, k, o));
      if i != k { WalkedOther(reqs, k, i, 0, 0, r); }
    }
  }

  // Debts are the same wherever they are noted.
  lemma MoveDebt(reqs: seq<Req>, k: nat, x: nat, y: nat, cur: nat, x': nat, y': nat, cur': nat, d': nat, o': nat)
    requires Balanced(reqs, k, x, y, cur, 0, 0)
    requires (x == x' + d' && y == y' + o' && cur' == k) || (x == x' && y == y' && d' == o' == 0)
    ensures Balanced(reqs, k, x', y', cur', d', o')
  {
    hide Accounted;
    forall i: nat | i < |reqs|
      ensures Accounted(reqs, i, At(i, k, x') + At(i, cur', d'), At(i, k, y') + At(i, cur', o'))
    {
      assert Accounted(reqs, i, At(i, k, x) + At(i, cur, 0), At(i, k, y) + At(i, cur, 0));
    }
  }

  // ---- runs ----

  /** What never comes back: what is done stays done, what is off the log stays off, and what
   *  the upper layers were told stays told; a completion count that is zero stays zero.
   */
  ghost predicate Onward(before: seq<Req>, after: seq<Req>) {
    && |before| <= |after|
    && forall i | 0 <= i < |before| ::
         && after[i].kind == before[i].kind
         && (before[i].done ==> after[i].done) && (before[i].oosSent ==> after[i].oosSent)
         && (before[i].master.HandedUp? ==> after[i].master == before[i].master)
         && (before[i].completionRef == 0 ==> after[i].completionRef == 0)
  }

  // What drbd_req_done() checks before it does anything.
  predicate Quiet(r: Req) {
    && (forall c | 0 <= c < |r.net| :: r.net[c] * NET_MASK == {} || NetDone in r.net[c])
    && (r.master.HandedUp? || Postponed in r.local) && r.completionRef == 0 && LocalPending !in r.local
  }

  ghost predicate NetSettled(n: set<Net>, n': set<Net>) {
    n' == n || (NetPendingOos in n && n' - {NetPendingOos, NetReady} == n - {NetPendingOos, NetReady} && NetReady in n')
  }

  // Where a request gets done, its out-of-sync announcements may be released; no other
  // flag changes, and nothing is reported.
  ghost predicate Settled(r: Req, r': Req) {
    && r'.kind == r.kind && r'.local == r.local && r'.submitting == r.submitting && r'.master == r.master && r'.restarting == r.restarting
    && r'.next == r.next && r'.prev == r.prev && r'.completionRef == r.completionRef
    && (r'.done == r.done ==> r'.net == r.net)
    && (r.done ==> r'.done)
    && |r'.net| == |r.net| && forall c | 0 <= c < |r.net| :: NetSettled(r.net[c], r'.net[c])
  }

  ghost predicate Settles(before: seq<Req>, after: seq<Req>) {
    |before| == |after| && forall i | 0 <= i < |before| :: Settled(before[i], after[i])
  }

  lemma SettledTwice(r: Req, r': Req, r'': Req)
    requires Settled(r, r') && Settled(r', r'')
    ensures Settled(r, r'')
  {
    forall c | 0 <= c < |r.net| ensures NetSettled(r.net[c], r''.net[c]) {
      assert NetSettled(r.net[c], r'.net[c]) && NetSettled(r'.net[c], r''.net[c]);
    }
  }

  lemma SettlesTwice(a: seq<Req>, b: seq<Req>, c: seq<Req>)
    requires Settles(a, b) && Settles(b, c)
    ensures Settles(a, c)
  {
    hide Settled;
    forall i | 0 <= i < |a| ensures Settled(a[i], c[i]) { SettledTwice(a[i], b[i], c[i]); }
  }

  predicate Announces(r: Req) {
    Quiet(r) && IsWrite(r) && Postponed !in r.local
  }

  function Announced(n: set<Net>, bit: bool): set<Net> {
    if NetPendingOos !in n then n
    else if bit then n + {NetReady}
    else n - {NetPendingOos} + {NetReady}
  }

  ghost predicate AllCompleting(reqs: seq<Req>, peers: nat, k: nat, put: int) {
    forall i | 0 <= i < |reqs| :: |reqs[i].net| == peers && Completing(reqs[i], if i == k then put else 0)
  }

  lemma WalkedOn(before: seq<Req>, last: Option<nat>, after: seq<Req>, last': Option<nat>, peers: nat,
                 k: nat, x: nat, y: nat, cur: nat, d: nat, o: nat, nxt: nat)
    requires Links(before) && Tail(before, last) && Balanced(before, k, x, y, cur, d, o) && AllCompleting(before, peers, 0, 0)
    requires cur < |before| == |after| && SameShares(before[cur].net, after[cur].net)
    requires after == before[cur := Walked(before[cur], d, o, after[cur].net)]
    requires last' == if NewlySent(before[cur], d, o) && last == Some(cur) then None else last
    requires if before[cur].next.Some? then nxt == before[cur].next.value else nxt == |before|
    ensures Links(after) && Tail(after, last') && AllCompleting(after, peers, 0, 0) && Onward(before, after)
    ensures Balanced(after, k, x, y, nxt, One(NewlyDone(before[cur], d)), One(NewlySent(before[cur], d, o)))
    ensures before[cur].next.None? ==> Balanced(after, k, x, y, k, 0, 0)
  {
    hide Balanced, Tail, Links, SameShares, NewlyDone, NewlySent, AllCompleting;
    var d', o' := One(NewlyDone(before[cur], d)), One(NewlySent(before[cur], d, o));
    WalkStep(before, k, x, y, cur, d, o, after[cur].net, nxt);
    SameLinks(before, cur, after[cur]);
    WalkedTail(before, last, after, last', k, x, y, cur, d, o, nxt, d', o');
    WalkedCompletions(before, after, peers, cur);
    if before[cur].next.None? { Dropped(after, k, x, y, d', o'); }
  }

  lemma WalkedTail(before: seq<Req>, last: Option<nat>, after: seq<Req>, last': Option<nat>,
                   k: nat, x: nat, y: nat, cur: nat, d: nat, o: nat, nxt: nat, d': nat, o': nat)
    requires Tail(before, last) && cur < |before| && Links(after) && Balanced(after, k, x, y, nxt, d', o')
    requires |after| == |before| && after == before[cur := after[cur]]
    requires after[cur].kind == before[cur].kind && after[cur].next == before[cur].next
    requires after[cur].oosSent <==> before[cur].oosSent || NewlySent(before[cur], d, o)
    requires last' == if NewlySent(before[cur], d, o) && last == Some(cur) then None else last
    ensures Tail(after, last')
  {
    hide Balanced, Links, NewlySent;
    assert forall i | 0 <= i < |after| :: after[i].kind == before[i].kind;
    if last == Some(cur) && NewlySent(before[cur], d, o) {
      TailSent(after, cur, k, x, y, nxt, d', o');
    }
  }

  lemma WalkedCompletions(before: seq<Req>, after: seq<Req>, peers: nat, cur: nat)
    requires AllCompleting(before, peers, 0, 0) && cur < |before| == |after| && after == before[cur := after[cur]]
    requires var r := before[cur];
             after[cur] == r.(net := after[cur].net, doneRef := after[cur].doneRef, oosSendRef := after[cur].oosSendRef,
                              done := after[cur].done, oosSent := after[cur].oosSent, intervalDone := after[cur].intervalDone)
    requires SameShares(before[cur].net, after[cur].net)
    ensures AllCompleting(after, peers, 0, 0)
  {
    hide Sum, LocalShare;
    SameSums(before[cur].net, after[cur].net);
  }

  ghost predicate AllSettled(net: seq<set<Net>>, net': seq<set<Net>>) {
    |net| == |net'| && forall c | 0 <= c < |net| :: NetSettled(net[c], net'[c])
  }

  lemma WalkedSettles(before: seq<Req>, after: seq<Req>, cur: nat, d: nat, o: nat)
    requires cur < |before| == |after| && after == before[cur := Walked(before[cur], d, o, after[cur].net)]
    requires NewlyDone(before[cur], d) ==> !before[cur].done
    requires !NewlyDone(before[cur], d) ==> after[cur].net == before[cur].net
    requires AllSettled(before[cur].net, after[cur].net)
    ensures Settles(before, after)
  {
  }

  lemma Reflexive(net: seq<set<Net>>)
    ensures SameShares(net, net) && AllSettled(net, net)
  {
  }

  lemma Dropped(reqs: seq<Req>, k: nat, x: nat, y: nat, d: nat, o: nat)
    requires Balanced(reqs, k, x, y, |reqs|, d, o)
    ensures Balanced(reqs, k, x, y, k, 0, 0)
  {
    hide Accounted;
    forall i: nat | i < |reqs| ensures Accounted(reqs, i, At(i, k, x) + At(i, k, 0), At(i, k, y) + At(i, k, 0)) {
      assert Accounted(reqs, i, At(i, k, x) + At(i, |reqs|, d), At(i, k, y) + At(i, |reqs|, o));
    }
  }

  // ---- events ----

  datatype Protocol = A | B | C

  datatype Event =
    | ToBeSubmitted | CompletedOk | CompletedWithError | AbortDiskIo | CompletionResumed
    | NewNetRead(c: nat) | NewNetWrite(c: nat, protocol: Protocol) | NewNetOos(c: nat)
    | ReadyForNet(c: nat) | SkipOos(c: nat)
    | OosHandedToNetwork(c: nat)      // also SEND_CANCELED and SEND_FAILED
    | HandedOverToNetwork(c: nat)
    | ConnectionLost(c: nat) | ConnectionLostWhileSuspended(c: nat) | CancelSuspendedIo(c: nat)
    | WriteAcked(c: nat, sis: bool) | RecvAcked(c: nat) | NegAcked(c: nat) | DataReceived(c: nat)
    | Resend(c: nat)                  // of a request without NET_OK
    | BarrierAckedLate(c: nat)        // the part of BARRIER_ACKED for a request still pending
    | BarrierAckedDone(c: nat) | BarrierSent(c: nat)

  function OfLocal(clear: set<Local>, set_: set<Local>): Change {
    Change(clear, set_, None, {}, {})
  }

  function OfNet(c: nat, clear: set<Net>, set_: set<Net>): Change {
    Change({}, {}, Some(c), clear, set_)
  }

  predicate ForPeer(r: Req, c: nat) {
    c < |r.net| && r.net[c] * NET_MASK != {} && NetDone !in r.net[c]
  }

  /** The flags that an event changes. */
  function ChangeOf(r: Req, e: Event): Change
    requires !e.ToBeSubmitted? && !e.CompletedOk? && !e.CompletedWithError? && !e.AbortDiskIo? && !e.CompletionResumed? ==> e.c < |r.net|
  {
    match e
    case ToBeSubmitted => OfLocal({}, {LocalPending})
    case CompletedOk => OfLocal({LocalPending}, {LocalCompleted, LocalOk})
    case CompletedWithError => OfLocal({LocalPending}, {LocalCompleted})
    case AbortDiskIo => OfLocal({}, {LocalAborted})
    case CompletionResumed => OfLocal({CompletionSusp}, {})
    case NewNetRead(c) => OfNet(c, {}, {NetPending, NetQueued})
    case NewNetWrite(c, protocol) =>
      OfNet(c, {}, {NetPending, NetQueued, ExpBarrAck} +
                   (match protocol case A => {} case B => {ExpReceiveAck} case C => {ExpWriteAck}))
    case NewNetOos(c) => OfNet(c, {}, {NetPendingOos, NetQueued, NetDone})
    case ReadyForNet(c) => OfNet(c, {}, {NetReady})
    case SkipOos(c) => OfNet(c, {NetPendingOos}, {NetReady})
    case OosHandedToNetwork(c) => OfNet(c, {NetPendingOos, NetQueued}, {})
    case HandedOverToNetwork(c) =>
      // protocol A takes the write for done as soon as it is sent
      if IsWrite(r) && r.net[c] * {NetPending, ExpWriteAck, ExpReceiveAck} == {NetPending}
      then OfNet(c, {NetQueued, NetPending}, {NetSent, NetOk})
      else OfNet(c, {NetQueued}, {NetSent})
    case ConnectionLost(c) => if ForPeer(r, c) then OfNet(c, {NetPending, NetOk}, {NetDone}) else OfNet(c, {}, {})
    case ConnectionLostWhileSuspended(c) =>
      if !ForPeer(r, c) then OfNet(c, {}, {})
      else if ExpReceiveAck !in r.net[c] && ExpWriteAck !in r.net[c] then OfNet(c, {NetPending, NetOk}, {NetDone})
      else if NetPending in r.net[c] then Change({}, {CompletionSusp}, Some(c), {}, {})
      else OfNet(c, {}, {})
    case CancelSuspendedIo(c) => if ForPeer(r, c) then OfNet(c, {NetPending, NetOk}, {NetDone}) else OfNet(c, {}, {})
    case WriteAcked(c, sis) => OfNet(c, {NetPending}, {NetOk} + if sis then {NetSis} else {})
    case RecvAcked(c) => OfNet(c, {NetPending}, {NetOk})
    case NegAcked(c) => OfNet(c, {NetOk, NetPending}, if IsWrite(r) then {} else {NetDone})
    case DataReceived(c) => OfNet(c, {NetPending}, {NetOk, NetDone})
    case Resend(c) => if NetPending in r.net[c] then OfNet(c, {NetSent}, {NetQueued}) else OfNet(c, {}, {})
    case BarrierAckedLate(c) =>
      if IsWrite(r) && NetPending in r.net[c] then OfNet(c, {NetPending}, {NetOk}) else OfNet(c, {}, {})
    case BarrierAckedDone(c) =>
      if IsWrite(r) && r.net[c] * NET_MASK != {} then OfNet(c, {}, {NetDone}) else OfNet(c, {}, {})
    case BarrierSent(c) => OfNet(c, {}, {NetOk, NetDone})
  }

  /** What callers see to: events of submission come during submission, only requests that
   *  wait for the disk are aborted, and only requests on the log are sent again.
   */
  ghost predicate Expected(r: Req, e: Event) {
    match e
    case ToBeSubmitted => r.submitting && r.local * LOCAL_MASK == {}
    case CompletedOk => true
    case CompletedWithError => true
    case AbortDiskIo => LocalPending in r.local
    case CompletionResumed => true
    case NewNetRead(c) => c < |r.net| && r.submitting && r.local * LOCAL_MASK == {} && r.net[c] == {}
    case NewNetWrite(c, _) => c < |r.net| && r.submitting && r.local * LOCAL_MASK == {} && r.net[c] == {}
    case NewNetOos(c) => c < |r.net| && r.submitting && r.local * LOCAL_MASK == {} && r.net[c] == {}
    case Resend(c) => c < |r.net| && !r.oosSent
    case _ => e.c < |r.net|
  }

  datatype Target = Nothing | Remote(protocol: Protocol) | OutOfSync

  // The flags towards a peer after submission.
  function Wanted(t: Target, ready: bool): set<Net> {
    match t
    case Nothing => {}
    case OutOfSync => {NetPendingOos, NetQueued, NetDone}
    case Remote(protocol) =>
      {NetPending, NetQueued, ExpBarrAck}
      + (match protocol case A => {} case B => {ExpReceiveAck} case C => {ExpWriteAck})
      + if ready then {NetReady} else {}
  }

  function Fresh(kind: Kind, peers: nat): Req {
    Req(kind, {}, seq(peers, _ => {}), 1, 1, 1, Held, None, None, false, false, false, true, false)
  }

  function Appended(reqs: seq<Req>, last: Option<nat>, kind: Kind, peers: nat): seq<Req> {
    if kind.DataWrite? && last.Some? && last.value < |reqs| then
      var p := last.value;
      var r := Fresh(kind, peers);
      reqs[p := reqs[p].(next := Some(|reqs|))]
      + [r.(doneRef := r.doneRef + One(!reqs[p].intervalDone), oosSendRef := r.oosSendRef + 1, prev := Some(p))]
    else reqs + [Fresh(kind, peers)]
  }

  lemma TailInside(reqs: seq<Req>, last: Option<nat>)
    requires Tail(reqs, last)
    ensures last.Some? ==> last.value < |reqs|
  {
  }

  lemma LastFresh(reqs: seq<Req>, last: Option<nat>, kind: Kind, peers: nat)
    ensures var reqs' := Appended(reqs, last, kind, peers);
            && |reqs'| == |reqs| + 1
            && var r := reqs'[|reqs|];
               r.kind == kind && r.local == {} && r.submitting && r.master == Held && r.net == seq(peers, _ => {})
  {
  }

  lemma AppendedOnward(reqs: seq<Req>, last: Option<nat>, kind: Kind, peers: nat)
    ensures Onward(reqs, Appended(reqs, last, kind, peers))
  {
  }

  predicate SubmitEvent(r: Req, e: Event) {
    e.NewNetWrite? || e.NewNetOos? || e.NewNetRead? || e.ReadyForNet? || (e.BarrierSent? && e.c < |r.net| && r.net[e.c] == {})
  }

  lemma NewNetTakes(r: Req, e: Event)
    requires Expected(r, e) && SubmitEvent(r, e)
    ensures PutsNothing(r, e)
    ensures Flagged(r, ChangeOf(r, e)).net == r.net[e.c := r.net[e.c] + ChangeOf(r, e).set_]
    ensures Flagged(r, ChangeOf(r, e)).local == r.local && Flagged(r, ChangeOf(r, e)).submitting == r.submitting
    ensures Flagged(r, ChangeOf(r, e)).kind == r.kind && Flagged(r, ChangeOf(r, e)).master == r.master
  {
    var ch := ChangeOf(r, e);
    assert ch.clear == {} && OldNet(r, ch) - {} + ch.set_ == r.net[e.c] + ch.set_;
    assert r.local - {} + {} == r.local;
  }

  lemma AppendedKeeps(reqs: seq<Req>, last: Option<nat>, kind: Kind, peers: nat)
    requires Links(reqs) && Tail(reqs, last) && Balanced(reqs, 0, 0, 0, 0, 0, 0) && AllCompleting(reqs, peers, 0, 0)
    ensures var reqs' := Appended(reqs, last, kind, peers);
            && Links(reqs') && Tail(reqs', if kind.DataWrite? then Some(|reqs|) else last)
            && Balanced(reqs', 0, 0, 0, 0, 0, 0) && AllCompleting(reqs', peers, 0, 0)
  {
    hide Balanced, Accounted, Appended, Links, Tail, AllCompleting;
    var reqs' := Appended(reqs, last, kind, peers);
    AppendedLinks(reqs, last, kind, peers);
    AppendedCompleting(reqs, last, kind, peers);
    forall i: nat | i < |reqs'| ensures Accounted(reqs', i, 0, 0) {
      AppendedAccounted(reqs, last, kind, peers, i);
    }
    AllAccounted(reqs');
  }

  lemma AppendedLinks(reqs: seq<Req>, last: Option<nat>, kind: Kind, peers: nat)
    requires Links(reqs) && Tail(reqs, last)
    ensures var reqs' := Appended(reqs, last, kind, peers);
            && |reqs'| == |reqs| + 1
            && Links(reqs') && Tail(reqs', if kind.DataWrite? then Some(|reqs|) else last)
  {
    hide Fresh, Links, Tail;
    FreshUnlinked(kind, peers);
    var k, reqs' := |reqs|, Appended(reqs, last, kind, peers);
    if kind.DataWrite? && last.Some? {
      TailInside(reqs, last);
      ChainedLinks(reqs, reqs', last.value);
    } else {
      AddedLinks(reqs, last, reqs[..] + [Fresh(kind, peers)]);
    }
  }

  lemma ChainedLinks(reqs: seq<Req>, reqs': seq<Req>, p: nat)
    requires Links(reqs) && Tail(reqs, Some(p)) && p < |reqs| && |reqs'| == |reqs| + 1
    requires reqs'[..|reqs|] == reqs[p := reqs[p].(next := Some(|reqs|))]
    requires var r := reqs'[|reqs|]; r.kind.DataWrite? && r.next.None? && r.prev == Some(p) && !r.oosSent
    ensures Links(reqs') && Tail(reqs', Some(|reqs|))
  {
    hide Following, Paired;
    var k := |reqs|;
    forall m | 0 <= m < k ensures reqs'[m] == if m == p then reqs[p].(next := Some(k)) else reqs[m] {
      assert reqs'[m] == reqs'[..k][m];
    }
    assert Forward(reqs');
    assert Paired(reqs') by { ChainedPaired(reqs, reqs', p); }
    assert Following(reqs') by { ChainedFollowing(reqs, reqs', p); }
  }

  lemma ChainedPaired(reqs: seq<Req>, reqs': seq<Req>, p: nat)
    requires Paired(reqs) && Forward(reqs) && p < |reqs| && |reqs'| == |reqs| + 1 && reqs[p].next.None?
    requires forall m | 0 <= m < |reqs| :: reqs'[m].prev == reqs[m].prev
    requires forall m | 0 <= m < |reqs| && m != p :: reqs'[m].next == reqs[m].next
    requires reqs'[p].next == Some(|reqs|) && reqs'[|reqs|].next.None? && reqs'[|reqs|].prev == Some(p)
    ensures Paired(reqs')
  {
    var k := |reqs|;
    forall a, i | 0 <= a < |reqs'| && 0 <= i < |reqs'| ensures reqs'[a].next == Some(i) <==> reqs'[i].prev == Some(a) {
      if a < k && i < k { assert reqs[a].next == Some(i) <==> reqs[i].prev == Some(a); }
    }
  }

  lemma ChainedFollowing(reqs: seq<Req>, reqs': seq<Req>, p: nat)
    requires Following(reqs) && p < |reqs| && |reqs'| == |reqs| + 1 && reqs'[p].next == Some(|reqs|)
    requires reqs[p].kind.DataWrite? && forall m | p < m < |reqs| :: !reqs[m].kind.DataWrite?
    requires forall m | 0 <= m < |reqs| :: reqs'[m].kind == reqs[m].kind && reqs'[m].oosSent == reqs[m].oosSent
    requires forall m | 0 <= m < |reqs| && m != p :: reqs'[m].next == reqs[m].next
    ensures Following(reqs')
  {
    forall i: nat, j: nat | NextWrite(reqs', i, j) ensures reqs'[i].next == Some(j) || reqs'[i].oosSent {
      SameNextWrite(reqs, reqs', i, j, p);
      assert i == p ==> j >= |reqs| by { if j < |reqs| { assert NextWrite(reqs, i, j); } }
    }
  }

  // Only the last data write gets a new successor.
  lemma SameNextWrite(reqs: seq<Req>, reqs': seq<Req>, i: nat, j: nat, p: nat)
    requires |reqs'| == |reqs| + 1 && forall m | 0 <= m < |reqs| :: reqs'[m].kind == reqs[m].kind
    requires NextWrite(reqs', i, j) && p < |reqs| && reqs[p].kind.DataWrite?
    requires forall m | p < m < |reqs| :: !reqs[m].kind.DataWrite?
    ensures if j < |reqs| then NextWrite(reqs, i, j) else i == p
  {
    assert reqs'[p].kind.DataWrite?;
  }

  lemma AddedLinks(reqs: seq<Req>, last: Option<nat>, reqs': seq<Req>)
    requires Links(reqs) && Tail(reqs, last) && |reqs'| == |reqs| + 1 && reqs'[..|reqs|] == reqs
    requires var r := reqs'[|reqs|]; r.next.None? && r.prev.None? && !r.oosSent && (r.kind.DataWrite? ==> last.None?)
    ensures Links(reqs') && Tail(reqs', if reqs'[|reqs|].kind.DataWrite? then Some(|reqs|) else last)
  {
    hide Following, Paired;
    var k := |reqs|;
    forall m | 0 <= m < k ensures reqs'[m] == reqs[m] { assert reqs'[m] == reqs'[..k][m]; }
    assert Forward(reqs');
    assert Paired(reqs') by { AddedPaired(reqs, reqs'); }
    assert Following(reqs') by { AddedFollowing(reqs, reqs'); }
  }

  lemma AddedPaired(reqs: seq<Req>, reqs': seq<Req>)
    requires Paired(reqs) && Forward(reqs) && |reqs'| == |reqs| + 1 && forall m | 0 <= m < |reqs| :: reqs'[m] == reqs[m]
    requires reqs'[|reqs|].next.None? && reqs'[|reqs|].prev.None?
    ensures Paired(reqs')
  {
    forall a, i | 0 <= a < |reqs'| && 0 <= i < |reqs'| ensures reqs'[a].next == Some(i) <==> reqs'[i].prev == Some(a) {
      if a < |reqs| && i < |reqs| { assert reqs[a].next == Some(i) <==> reqs[i].prev == Some(a); }
    }
  }

  lemma AddedFollowing(reqs: seq<Req>, reqs': seq<Req>)
    requires Following(reqs) && |reqs'| == |reqs| + 1 && forall m | 0 <= m < |reqs| :: reqs'[m] == reqs[m]
    requires reqs'[|reqs|].kind.DataWrite? ==> forall m | 0 <= m < |reqs| && reqs[m].kind.DataWrite? :: reqs[m].oosSent
    ensures Following(reqs')
  {
    forall i: nat, j: nat | NextWrite(reqs', i, j) ensures reqs'[i].next == Some(j) || reqs'[i].oosSent {
      if j < |reqs| { assert NextWrite(reqs, i, j); }
    }
  }

  lemma FreshUnlinked(kind: Kind, peers: nat)
    ensures var r := Fresh(kind, peers); r.kind == kind && r.next.None? && r.prev.None? && !r.oosSent && !r.done
  {
  }

  lemma AppendedCompleting(reqs: seq<Req>, last: Option<nat>, kind: Kind, peers: nat)
    requires AllCompleting(reqs, peers, 0, 0)
    ensures AllCompleting(Appended(reqs, last, kind, peers), peers, 0, 0)
  {
    hide Sum;
    FreshSums(peers);
    assert Fresh(kind, peers).net == Fresh(DataWrite, peers).net;
  }

  lemma AppendedAccounted(reqs: seq<Req>, last: Option<nat>, kind: Kind, peers: nat, i: nat)
    requires Links(reqs) && Tail(reqs, last) && Balanced(reqs, 0, 0, 0, 0, 0, 0) && i <= |reqs|
    ensures Accounted(Appended(reqs, last, kind, peers), i, 0, 0)
  {
    hide Sum, Balanced;
    FreshSums(peers);
    assert Fresh(kind, peers).net == Fresh(DataWrite, peers).net;
    if i < |reqs| {
      AccountedAt(reqs, 0, 0, 0, 0, 0, 0, i);
      if reqs[i].prev.Some? { PrevIs(reqs, i, i); }
    } else if kind.DataWrite? && last.Some? {
      AccountedAt(reqs, 0, 0, 0, 0, 0, 0, last.value);
    }
  }

  lemma AllAccounted(reqs: seq<Req>)
    requires forall i: nat | i < |reqs| :: Accounted(reqs, i, 0, 0)
    ensures Balanced(reqs, 0, 0, 0, 0, 0, 0)
  {
  }

  lemma FreshSums(peers: nat)
    ensures var net := Fresh(DataWrite, peers).net;
            Sum(net, CompletionShare) == 0 && Sum(net, DoneShare) == 0 && Sum(net, OosShare) == 0
  {
    var net := Fresh(DataWrite, peers).net;
    SumZero(net, CompletionShare);
    SumZero(net, DoneShare);
    SumZero(net, OosShare);
  }

  function AfterEvent(r: Req, e: Event, errIo: bool, quorum: bool): Req
    requires Expected(r, e)
  {
    PutCompletion(Flagged(r, ChangeOf(r, e)), CPut(r, ChangeOf(r, e)), errIo, quorum)
  }

  predicate PutsNothing(r: Req, e: Event)
    requires Expected(r, e)
  {
    var ch := ChangeOf(r, e);
    CPut(r, ch) + DPut(r, ch) + OPut(r, ch) == 0
  }

  lemma AfterFlags(r: Req, e: Event, errIo: bool, quorum: bool)
    requires Expected(r, e)
    ensures AfterEvent(r, e, errIo, quorum).net == Flagged(r, ChangeOf(r, e)).net
    ensures AfterEvent(r, e, errIo, quorum).kind == r.kind
  {
    hide Completed, ChangeOf;
    var r1 := Flagged(r, ChangeOf(r, e));
    CompletedKeeps(r1.(completionRef := r1.completionRef - CPut(r, ChangeOf(r, e))), errIo, quorum);
  }

  lemma SettledFlags(n: set<Net>, n': set<Net>)
    requires NetSettled(n, n')
    ensures (NetPending in n' <==> NetPending in n) && (NetDone in n' <==> NetDone in n)
    ensures n * NET_MASK != {} ==> n' * NET_MASK != {}
  {
    assert n' - {NetPendingOos, NetReady} == n - {NetPendingOos, NetReady};
    assert NetPending in n' - {NetPendingOos, NetReady} <==> NetPending in n - {NetPendingOos, NetReady};
    assert NetDone in n' - {NetPendingOos, NetReady} <==> NetDone in n - {NetPendingOos, NetReady};
    if n' != n { assert NetReady in n' * NET_MASK; }
  }

  lemma LateFlags(r: Req, r': Req, c: nat, errIo: bool, quorum: bool)
    requires c < |r.net| && Settled(AfterEvent(r, BarrierAckedLate(c), errIo, quorum), r')
    ensures |r'.net| == |r.net| && r'.kind == r.kind
    ensures IsWrite(r) ==> NetPending !in r'.net[c]
    ensures r.net[c] * NET_MASK != {} ==> r'.net[c] * NET_MASK != {}
  {
    hide AfterEvent;
    AfterFlags(r, BarrierAckedLate(c), errIo, quorum);
    var n := NewNet(r, ChangeOf(r, BarrierAckedLate(c)));
    SettledFlags(n, r'.net[c]);
    if IsWrite(r) && NetPending in r.net[c] {
      assert NetOk in n * NET_MASK;
    } else {
      assert n == r.net[c];
    }
  }

  lemma DoneFlags(r: Req, r': Req, c: nat, errIo: bool, quorum: bool)
    requires c < |r.net| && Settled(AfterEvent(r, BarrierAckedDone(c), errIo, quorum), r')
    ensures |r'.net| == |r.net|
    ensures NetPending !in r.net[c] ==> NetPending !in r'.net[c]
    ensures IsWrite(r) && r.net[c] * NET_MASK != {} ==> NetDone in r'.net[c]
  {
    hide AfterEvent;
    AfterFlags(r, BarrierAckedDone(c), errIo, quorum);
    SettledFlags(NewNet(r, ChangeOf(r, BarrierAckedDone(c))), r'.net[c]);
  }

  lemma OnwardSame(reqs: seq<Req>)
    ensures Onward(reqs, reqs)
  {
  }

  lemma OnwardTwice(a: seq<Req>, b: seq<Req>, c: seq<Req>)
    requires Onward(a, b) && Onward(b, c)
    ensures Onward(a, c)
  {
  }

  // Without the submitter there is one completion reference too many.
  lemma Released(reqs: seq<Req>, last: Option<nat>, peers: nat, k: nat)
    requires k < |reqs| && Links(reqs) && Tail(reqs, last) && Balanced(reqs, 0, 0, 0, 0, 0, 0) && AllCompleting(reqs, peers, 0, 0)
    requires reqs[k].submitting
    ensures var reqs' := reqs[k := reqs[k].(submitting := false)];
            && Links(reqs') && Tail(reqs', last) && AllCompleting(reqs', peers, k, 1) && Onward(reqs, reqs')
            && Balanced(reqs', k, 0, 0, k, 0, 0)
  {
    hide Balanced, Links, Tail, Sum;
    var r' := reqs[k].(submitting := false);
    assert Accounted(reqs, k, 0, 0) by { AccountedAt(reqs, 0, 0, 0, 0, 0, 0, k); }
    PrevIs(reqs, k, k);
    SameLinks(reqs, k, r');
    SameTail(reqs, last, k, r');
    Anywhere(reqs, k);
    ReplaceOne(reqs, k, 0, 0, 0, 0, r', 0, 0, 0, 0);
  }

  lemma Restarted(reqs: seq<Req>, last: Option<nat>, peers: nat, k: nat)
    requires k < |reqs| && Links(reqs) && Tail(reqs, last) && Balanced(reqs, 0, 0, 0, 0, 0, 0) && AllCompleting(reqs, peers, 0, 0)
    requires reqs[k].restarting
    ensures var reqs' := reqs[k := reqs[k].(restarting := false)];
            && Links(reqs') && Tail(reqs', last) && AllCompleting(reqs', peers, 0, 0) && Onward(reqs, reqs')
            && Balanced(reqs', k, 0, 0, k, 1, 0)
  {
    hide Balanced, Links, Tail, Sum;
    var r' := reqs[k].(restarting := false);
    assert Completing(reqs[k], 0);
    assert Accounted(reqs, k, 0, 0) by { AccountedAt(reqs, 0, 0, 0, 0, 0, 0, k); }
    PrevIs(reqs, k, k);
    SameLinks(reqs, k, r');
    SameTail(reqs, last, k, r');
    Anywhere(reqs, k);
    ReplaceOne(reqs, k, 0, 0, 0, 0, r', 0, 0, 1, 0);
  }

  /** No event of the table takes a reference where nobody holds one. */
  lemma TablePermitted(r: Req, e: Event)
    requires Expected(r, e)
    ensures Permitted(r, ChangeOf(r, e))
  {
  }

  // Flags change and references move; what remains to be put is known.
  lemma FlagStep(reqs: seq<Req>, last: Option<nat>, peers: nat, k: nat, ch: Change)
    requires k < |reqs| && Links(reqs) && Tail(reqs, last) && Balanced(reqs, 0, 0, 0, 0, 0, 0) && AllCompleting(reqs, peers, 0, 0)
    requires Permitted(reqs[k], ch)
    ensures var reqs' := reqs[k := Flagged(reqs[k], ch)];
            && Links(reqs') && Tail(reqs', last) && AllCompleting(reqs', peers, k, CPut(reqs[k], ch)) && Onward(reqs, reqs')
            && Balanced(reqs', k, DPut(reqs[k], ch), OPut(reqs[k], ch), k, 0, 0)
  {
    hide Balanced, Accounted, Links, Tail, Completing, Permitted;
    var r := reqs[k];
    var r' := Flagged(r, ch);
    assert Completing(r, 0);
    assert Accounted(reqs, k, 0, 0) by { AccountedAt(reqs, 0, 0, 0, 0, 0, 0, k); }
    PrevIs(reqs, k, k);
    FlaggedRefs(reqs, k, ch);
    FlaggedCompletion(r, ch);
    SameLinks(reqs, k, r');
    SameTail(reqs, last, k, r');
    Anywhere(reqs, k);
    ReplaceOne(reqs, k, 0, 0, 0, 0, r', DPut(r, ch), OPut(r, ch), 0, 0);
  }

  lemma Anywhere(reqs: seq<Req>, k: nat)
    requires Balanced(reqs, 0, 0, 0, 0, 0, 0)
    ensures Balanced(reqs, k, 0, 0, k, 0, 0)
  {
    hide Accounted;
    forall i: nat | i < |reqs| ensures Accounted(reqs, i, At(i, k, 0) + At(i, k, 0), At(i, k, 0) + At(i, k, 0)) {
      assert Accounted(reqs, i, At(i, 0, 0) + At(i, 0, 0), At(i, 0, 0) + At(i, 0, 0));
    }
  }

  lemma Nowhere(reqs: seq<Req>, k: nat)
    requires Balanced(reqs, k, 0, 0, k, 0, 0)
    ensures Balanced(reqs, 0, 0, 0, 0, 0, 0)
  {
    hide Accounted;
    forall i: nat | i < |reqs| ensures Accounted(reqs, i, At(i, 0, 0) + At(i, 0, 0), At(i, 0, 0) + At(i, 0, 0)) {
      assert Accounted(reqs, i, At(i, k, 0) + At(i, k, 0), At(i, k, 0) + At(i, k, 0));
    }
  }

  lemma PutNone(r: Req, errIo: bool, quorum: bool)
    ensures PutCompletion(r, 0, errIo, quorum) == r && !DropsBase(r, 0, errIo, quorum)
  {
  }

  // Taking off completion references, and what then is to be put on done_ref.
  lemma PutStep(reqs: seq<Req>, last: Option<nat>, peers: nat, k: nat, put: nat, x: nat, y: nat, errIo: bool, quorum: bool)
    requires k < |reqs| && Links(reqs) && Tail(reqs, last) && Balanced(reqs, k, x, y, k, 0, 0) && AllCompleting(reqs, peers, k, put)
    ensures var reqs' := reqs[k := PutCompletion(reqs[k], put, errIo, quorum)];
            && Links(reqs') && Tail(reqs', last) && AllCompleting(reqs', peers, 0, 0) && Onward(reqs, reqs')
            && Balanced(reqs', k, x, y, k, One(DropsBase(reqs[k], put, errIo, quorum)), 0)
  {
    hide Balanced, Accounted, Links, Tail, Completing;
    var r := PutCompletion(reqs[k], put, errIo, quorum);
    assert Accounted(reqs, k, x, y) by { AccountedAt(reqs, k, x, y, k, 0, 0, k); }
    assert Completing(reqs[k], put);
    PrevIs(reqs, k, k);
    PutCompletionKeeps(reqs, k, put, x, y, errIo, quorum);
    CompletedKeeps(reqs[k].(completionRef := reqs[k].completionRef - put), errIo, quorum);
    ReplaceOne(reqs, k, x, y, 0, 0, r, x, y, One(DropsBase(reqs[k], put, errIo, quorum)), 0);
    SameLinks(reqs, k, r);
    SameTail(reqs, last, k, r);
    PutOnward(reqs, k, put, errIo, quorum);
    forall i | 0 <= i < |reqs| && i != k ensures Completing(reqs[i], 0) { assert Completing(reqs[i], if i == k then put else 0); }
  }

  lemma AccountedAt(reqs: seq<Req>, k: nat, x: nat, y: nat, cur: nat, d: nat, o: nat, i: nat)
    requires Balanced(reqs, k, x, y, cur, d, o) && i < |reqs|
    ensures Accounted(reqs, i, At(i, k, x) + At(i, cur, d), At(i, k, y) + At(i, cur, o))
  {
  }

  lemma SameTail(reqs: seq<Req>, last: Option<nat>, k: nat, r: Req)
    requires Tail(reqs, last) && k < |reqs| && r.kind == reqs[k].kind && r.next == reqs[k].next && r.oosSent == reqs[k].oosSent
    ensures Tail(reqs[k := r], last)
  {
  }

  lemma PutOnward(reqs: seq<Req>, k: nat, put: nat, errIo: bool, quorum: bool)
    requires k < |reqs| && Completing(reqs[k], put)
    ensures Onward(reqs, reqs[k := PutCompletion(reqs[k], put, errIo, quorum)])
  {
    hide Sum, Completed;
    CompletedKeeps(reqs[k].(completionRef := reqs[k].completionRef - put), errIo, quorum);
  }

  lemma SettlesSame(reqs: seq<Req>)
    ensures Settles(reqs, reqs)
  {
  }

  lemma NotDoneBefore(reqs: seq<Req>, k: nat, x: nat, y: nat, cur: nat, d: nat, o: nat)
    requires Balanced(reqs, k, x, y, cur, d, o) && cur < |reqs|
    ensures NewlyDone(reqs[cur], d) ==> !reqs[cur].done
  {
    assert Accounted(reqs, cur, At(cur, k, x) + At(cur, cur, d), At(cur, k, y) + At(cur, cur, o));
  }

  lemma SameNext(r: Req, d: nat, o: nat, net: seq<set<Net>>)
    ensures Walked(r, d, o, net).next == r.next
  {
  }

  lemma NextInside(reqs: seq<Req>, i: nat)
    requires Links(reqs) && i < |reqs| && reqs[i].next.Some?
    ensures i < reqs[i].next.value < |reqs|
  {
  }

  // ---- what follows ----

  /** Completion accounting, the three counts of every request and the order of writes, in
   *  every state that the methods of the transfer log reach.
   */
  lemma Accounting(reqs: seq<Req>, last: Option<nat>, peers: nat, i: nat)
    requires Links(reqs) && Tail(reqs, last) && Balanced(reqs, 0, 0, 0, 0, 0, 0) && AllCompleting(reqs, peers, 0, 0)
    requires i < |reqs|
    ensures reqs[i].completionRef == CompletionHolders(reqs[i])
    ensures reqs[i].doneRef == DoneHolders(reqs, i) && reqs[i].oosSendRef == OosHolders(reqs, i)
    ensures reqs[i].done <==> DoneHolders(reqs, i) == 0
    ensures reqs[i].oosSent <==> OosHolders(reqs, i) == 0
    ensures reqs[i].master.HandedUp? ==> reqs[i].completionRef == 0
    ensures reqs[i].done && LocalAborted !in reqs[i].local ==> reqs[i].completionRef == 0
    ensures reqs[i].oosSent ==> reqs[i].done
    ensures forall j | i < j < |reqs| && reqs[i].kind.DataWrite? && reqs[j].kind.DataWrite? ::
              (reqs[j].done ==> reqs[i].done) && (reqs[j].oosSent ==> reqs[i].oosSent)
  {
    hide Sum;
    AccountedAt(reqs, 0, 0, 0, 0, 0, 0, i);
    assert Completing(reqs[i], 0);
    forall j: nat | i < j < |reqs| && reqs[i].kind.DataWrite? && reqs[j].kind.DataWrite?
      ensures (reqs[j].done ==> reqs[i].done) && (reqs[j].oosSent ==> reqs[i].oosSent)
    {
      InOrder(reqs, 0, 0, 0, 0, 0, 0, i, j);
    }
  }

  // Nothing is on the sender's queue any more, except for out-of-sync information.
  predicate OffQueue(r: Req) {
    forall c | 0 <= c < |r.net| && NetQueued in r.net[c] :: NetPendingOos in r.net[c]
  }

  predicate ToRetry(r: Req, errIo: bool) {
    !errIo && (Postponed in r.local || (!AnyOk(r) && r.kind.Read? && !r.oosSent))
  }

  /** When the last completion reference is put: the upper layers hear of it, with success
   *  if any copy is good, exactly if no peer's queue holds the request and it is not to be
   *  retried; and it is retried unless the disk still owes an answer.
   */
  lemma Reported(r: Req, put: nat, errIo: bool, quorum: bool)
    requires Completing(r, put) && put > 0 && r.completionRef == put
    ensures var r' := PutCompletion(r, put, errIo, quorum);
            && r'.master == (if OffQueue(r) && !ToRetry(r, errIo) then HandedUp(AnyOk(r) && !errIo && quorum) else Held)
            && (r'.restarting <==> LocalAborted !in r.local && if OffQueue(r) then ToRetry(r, errIo) else Postponed in r.local)
  {
    hide Sum;
    forall c | 0 <= c < |r.net| ensures NetPending !in r.net[c] && (StillBusy(r.net[c]) <==> NetQueued in r.net[c] && NetPendingOos !in r.net[c]) {
      SumAtLeast(r.net, c, CompletionShare);
      if NetQueued in r.net[c] { assert NetQueued in r.net[c] * NET_MASK; }
    }
    var r0 := r.(completionRef := 0);
    assert Reportable(r0) <==> OffQueue(r);
    assert AnyOk(r0) == AnyOk(r);
  }

  /** So a remote read whose data arrives is reported exactly if the sender has taken it off
   *  its queue by then; if not, it is neither reported nor retried.
   */
  lemma ReadAnswered(r: Req, c: nat, errIo: bool, quorum: bool)
    requires Completing(r, 0) && r.kind.Read? && r.local == {} && c < |r.net|
    requires r.completionRef == 1 + if NetQueued in r.net[c] then 1 else 0
    requires NetPending in r.net[c] && NetDone !in r.net[c] && NetPendingOos !in r.net[c]
    requires forall d | 0 <= d < |r.net| && d != c :: NetQueued !in r.net[d]
    ensures var r' := AfterEvent(r, DataReceived(c), errIo, quorum);
            && r'.completionRef == 0 && !r'.restarting
            && r'.master == if NetQueued in r.net[c] then Held else HandedUp(!errIo && quorum)
  {
    hide Sum, Completed;
    var ch := OfNet(c, {NetPending}, {NetOk, NetDone});
    TablePermitted(r, DataReceived(c));
    FlaggedCompletion(r, ch);
    var put: nat := r.completionRef;
    assert CPut(r, ch) == put;
    var r1 := Flagged(r, ch);
    assert NetOk in r1.net[c] && (NetQueued in r1.net[c] <==> NetQueued in r.net[c]) && NetPendingOos !in r1.net[c];
    assert AnyOk(r1);
    assert OffQueue(r1) <==> NetQueued !in r.net[c];
    Reported(r1, put, errIo, quorum);
    CompletedKeeps(r1.(completionRef := 0), errIo, quorum);
  }
}
