/** Per connection: pointers to the oldest request on the transfer log that is not done, or
 *  waits for an ack, or is queued.
 *
 * The pointers spare a walk along the log; they have to agree with one.
 */
module CachePointers {
  import opened Requests
  import opened Wrappers

  // A request as this connection sees it.
  datatype Entry = Entry(onLog: bool, net: set<Net>)

  // What the three pointers look for.
  datatype Condition = NotNetDone | AckPending | Queued

  predicate Meets(e: Entry, condition: Condition) {
    e.onLog && match condition
    case NotNetDone => e.net * NET_MASK != {} && NetDone !in e.net
    case AckPending => NetSent in e.net && NetPending in e.net
    case Queued => NetQueued in e.net
  }

  ghost predicate NoneBefore(tl: seq<Entry>, k: nat, condition: Condition) {
    k <= |tl| && forall i | 0 <= i < k :: !Meets(tl[i], condition)
  }

  /** The pointer is what a walk along the whole log would find. */
  ghost predicate IsOldest(ptr: Option<nat>, tl: seq<Entry>, condition: Condition) {
    match ptr
    case None => forall i | 0 <= i < |tl| :: !Meets(tl[i], condition)
    case Some(p) => p < |tl| && Meets(tl[p], condition) && forall i | 0 <= i < p :: !Meets(tl[i], condition)
  }

  // The flags of one request change; it is on the log, and it does not come to meet a
  // condition that it did not meet, except by being sent.
  ghost predicate Orderly(old_: set<Net>, new_: set<Net>) {
    && (NetReady in old_ || NetDone in old_)
    && (NetReady in old_ ==> NetReady in new_) && (NetDone in old_ ==> NetDone in new_) && (NetSent in old_ ==> NetSent in new_)
    && (NetQueued in new_ ==> NetQueued in old_)
    && (NetPending in new_ ==> NetPending in old_)
  }

  /** All events but those of submission and RESEND are such changes. */
  lemma TableOrderly(r: Req, e: Event, c: nat)
    requires Expected(r, e) && ChangeOf(r, e).peer == Some(c) && c < |r.net| && (NetReady in r.net[c] || NetDone in r.net[c])
    requires !e.NewNetRead? && !e.NewNetWrite? && !e.NewNetOos? && !e.Resend?
    ensures Orderly(r.net[c], NewNet(r, ChangeOf(r, e)))
    ensures NetSent !in r.net[c] && NetSent in NewNet(r, ChangeOf(r, e)) ==> e.HandedOverToNetwork?
  {
  }

  // A request that waits for an answer has got none, and is not done.
  predicate Sound(n: set<Net>) {
    NetPending in n ==> NetOk !in n && NetDone !in n
  }

  ghost predicate AllSound(tl: seq<Entry>) {
    forall k | 0 <= k < |tl| && tl[k].onLog :: Sound(tl[k].net)
  }

  /** All events keep that: a barrier counts as sent only for flushes, which wait for no answer,
   *  and the acknowledgement of a barrier ends the wait first.
   */
  lemma TableSound(r: Req, e: Event, c: nat)
    requires Expected(r, e) && ChangeOf(r, e).peer == Some(c) && c < |r.net|
    requires e.BarrierSent? || (e.BarrierAckedDone? && IsWrite(r)) ==> NetPending !in r.net[c]
    ensures Sound(r.net[c]) ==> Sound(NewNet(r, ChangeOf(r, e)))
  {
  }

  class Connection {
    var tl: seq<Entry>
    var notNetDone: Option<nat>    // req_not_net_done
    var ackPending: Option<nat>    // req_ack_pending
    var reqNext: Option<nat>       // todo.req_next

    // What the sender relies on.
    ghost predicate Scannable()
      reads this
    {
      && IsOldest(notNetDone, tl, NotNetDone)
      && (reqNext.Some? ==> IsOldest(reqNext, tl, Queued))
      && SentInOrder(tl) && AllSound(tl)
    }

    ghost predicate Valid()
      reads this
    {
      Scannable() && IsOldest(ackPending, tl, AckPending)
    }

    constructor ()
      ensures Valid() && tl == []
    {
      tl, notNetDone, ackPending, reqNext := [], None, None, None;
    }

    method SetIfNull(ptr: Option<nat>, k: nat) returns (ptr': Option<nat>)
      ensures ptr' == if ptr.None? then Some(k) else ptr
    {
      ptr' := if ptr.None? then Some(k) else ptr;
    }

    // Go on from request `k` if the pointer is there.
    method Advance(ptr: Option<nat>, k: nat, condition: Condition) returns (ptr': Option<nat>)
      requires k < |tl|
      ensures ptr != Some(k) ==> ptr' == ptr
      ensures ptr == Some(k) && !Meets(tl[k], condition) && NoneBefore(tl, k, condition) ==> IsOldest(ptr', tl, condition)
    {
      if ptr != Some(k) { return ptr; }
      var i := k + 1;
      while i < |tl|
        invariant k < i <= |tl| && forall j | k < j < i :: !Meets(tl[j], condition)
      {
        if Meets(tl[i], condition) { return Some(i); }
        i := i + 1;
      }
      ptr' := None;
    }

    /** What mod_rq_state() does to the pointers when the flags of one request change.  The
     *  sender sends what is first in its queue.
     */
    method ModNet(k: nat, new_: set<Net>)
      requires Valid() && k < |tl| && tl[k].onLog && Orderly(tl[k].net, new_) && Sound(new_)
      requires NetSent !in tl[k].net && NetSent in new_ ==> IsOldest(Some(k), tl, Queued) && Meets(tl[k], Queued)
      modifies this
      ensures Valid() && tl == old(tl)[k := Entry(true, new_)]
    {
      hide IsOldest, SentInOrder, NoneBefore, AllSound, Sound;
      var old_ := tl[k].net;
      ghost var before, e := tl, Entry(true, new_);
      tl := tl[k := Entry(true, new_)];
      ModKeeps(before, k, new_);
      assert AllSound(tl) by { SoundStill(before, k, new_); }
      SameMask(old_, new_);
      // a request that is not done is marked ready only when it is added
      if NetSent !in old_ && NetSent in new_ && NetPending in new_ {
        Gained(ackPending, before, k, e);
        ackPending := SetIfNull(ackPending, k);
      } else {
        Lost(ackPending, before, tl, k, e, AckPending);
      }
      if NetPending in old_ && NetPending !in new_ {
        ackPending := Advance(ackPending, k, AckPending);
      }
      Lost(reqNext, before, tl, k, e, Queued);
      if NetQueued in old_ && NetQueued !in new_ {
        reqNext := Advance(reqNext, k, Queued);
      }
      Lost(notNetDone, before, tl, k, e, NotNetDone);
      if NetDone !in old_ && NetDone in new_ {
        notNetDone := Advance(notNetDone, k, NotNetDone);
      }
    }

    /** So do all events that reach a request on the log, other than those of its submission. */
    method OnEvent(k: nat, r: Req, e: Event, c: nat)
      requires Valid() && k < |tl| && tl[k].onLog && c < |r.net| && tl[k].net == r.net[c]
      requires Expected(r, e) && ChangeOf(r, e).peer == Some(c) && (NetReady in r.net[c] || NetDone in r.net[c])
      requires !e.NewNetRead? && !e.NewNetWrite? && !e.NewNetOos? && !e.Resend?
      requires e.BarrierSent? || (e.BarrierAckedDone? && IsWrite(r)) ==> NetPending !in r.net[c]
      requires e.HandedOverToNetwork? && NetSent !in r.net[c] ==> IsOldest(Some(k), tl, Queued)
      modifies this
      ensures Valid() && tl == old(tl)[k := Entry(true, NewNet(r, ChangeOf(r, e)))]
    {
      hide IsOldest, SentInOrder, ChangeOf;
      assert Sound(tl[k].net);
      TableOrderly(r, e, c);
      TableSound(r, e, c);
      var new_ := NewNet(r, ChangeOf(r, e));
      if NetSent !in r.net[c] && NetSent in new_ { OldestMeets(k, tl, Queued); }
      ModNet(k, new_);
    }

    /** A request is added, ready to be sent if it is to be sent. */
    method Add(net: set<Net>)
      requires Valid() && NetSent !in net && Sound(net) && (net * NET_MASK != {} ==> NetReady in net || NetDone in net)
      modifies this
      ensures Valid() && tl == old(tl) + [Entry(true, net)]
    {
      tl := tl + [Entry(true, net)];
      assert NetReady in net ==> NetReady in net * NET_MASK;
      assert NetSent !in net && NetDone !in net && NetReady !in net ==> net * NET_MASK == {};
      if NetReady in net && NetDone !in net {
        notNetDone := SetIfNull(notNetDone, |tl| - 1);
      }
    }

    /** A request leaves the log; nobody may want it any more. */
    method Remove(k: nat)
      requires Valid() && k < |tl|
      requires !Meets(tl[k], NotNetDone) && !Meets(tl[k], AckPending) && !Meets(tl[k], Queued)
      modifies this
      ensures Valid() && tl == old(tl)[k := old(tl)[k].(onLog := false)]
    {
      tl := tl[k := tl[k].(onLog := false)];
    }

    /** The next request for the sender: the first that is queued. */
    method NextRequest(waitReady: bool) returns (req: Option<nat>)
      requires Scannable()
      modifies this`reqNext
      ensures Scannable() && IsOldest(reqNext, tl, Queued)
      ensures req == if reqNext.Some? && (waitReady ==> NetReady in tl[reqNext.value].net) then reqNext else None
    {
      if reqNext.None? {
        var i := 0;
        while i < |tl| && !Meets(tl[i], Queued)
          invariant 0 <= i <= |tl| && reqNext.None?
          invariant forall j | 0 <= j < i :: !Meets(tl[j], Queued)
        {
          i := i + 1;
        }
        if i < |tl| { reqNext := Some(i); }
      }
      if reqNext.None? { return None; }
      req := if NetReady in tl[reqNext.value].net || !waitReady then reqNext else None;
    }

    /** After a reconnect with I/O suspended all requests that wait for an answer are queued again;
     *  the sender has none yet, and finds the oldest when it scans the log.  The pointer to
     *  requests that wait for an ack stays where it is: nothing waits for one now, so it
     *  agrees with a scan if and only if it was not set.
     */
    method Resend(isWrite: seq<bool>)
      requires Valid() && reqNext.None? && |isWrite| == |tl|
      modifies this`tl, this`notNetDone
      ensures Scannable() && reqNext.None? && |tl| == |old(tl)|
      ensures forall k | 0 <= k < |tl| :: tl[k] == Resent(old(tl)[k], isWrite[k])
      ensures IsOldest(ackPending, tl, AckPending) <==> old(ackPending).None?
    {
      hide SentInOrder;
      var k := if notNetDone.Some? then notNetDone.value else 0;
      SkippedResent(notNetDone, tl, isWrite, k);
      while k < |tl|
        invariant 0 <= k <= |tl| == |old(tl)| && IsOldest(notNetDone, tl, NotNetDone)
        invariant forall j | 0 <= j < |tl| :: tl[j] == if j < k then Resent(old(tl)[j], isWrite[j]) else old(tl)[j]
      {
        ghost var before := tl;
        var e := Resent(tl[k], isWrite[k]);
        ResentOrderly(tl[k], isWrite[k]);
        Lost(notNetDone, before, before[k := e], k, e, NotNetDone);
        if tl[k].onLog {
          var done := NetDone !in tl[k].net && NetDone in e.net;
          tl := tl[k := e];
          if done { notNetDone := Advance(notNetDone, k, NotNetDone); }
        }
        k := k + 1;
      }
      NothingWaits(old(tl), tl, isWrite);
    }
  }

  lemma SoundStill(tl: seq<Entry>, k: nat, new_: set<Net>)
    requires AllSound(tl) && k < |tl| && Sound(new_)
    ensures AllSound(tl[k := Entry(true, new_)])
  {
  }

  lemma OldestMeets(k: nat, tl: seq<Entry>, condition: Condition)
    requires IsOldest(Some(k), tl, condition)
    ensures k < |tl| && Meets(tl[k], condition)
  {
  }

  lemma SameMask(old_: set<Net>, new_: set<Net>)
    requires Orderly(old_, new_)
    ensures old_ * NET_MASK != {} && new_ * NET_MASK != {}
  {
    assert (if NetReady in old_ then NetReady else NetDone) in old_ * NET_MASK;
    assert (if NetReady in old_ then NetReady else NetDone) in new_ * NET_MASK;
  }

  // A request that meets no condition it did not meet: a pointer elsewhere stays right, and
  // nothing before a pointer to it comes up.
  lemma Lost(ptr: Option<nat>, tl: seq<Entry>, tl': seq<Entry>, k: nat, e: Entry, condition: Condition)
    requires k < |tl| && tl' == tl[k := e] && (Meets(e, condition) ==> Meets(tl[k], condition))
    ensures IsOldest(ptr, tl, condition) && (ptr != Some(k) || Meets(e, condition)) ==> IsOldest(ptr, tl', condition)
    ensures IsOldest(ptr, tl, condition) && ptr == Some(k) ==>
              Meets(tl[k], condition) && NoneBefore(tl', k, condition)
  {
  }

  // The request that is sent is behind all that were sent before.
  lemma Gained(ptr: Option<nat>, tl: seq<Entry>, k: nat, e: Entry)
    requires k < |tl| && IsOldest(ptr, tl, AckPending) && Meets(e, AckPending) && SentInOrder(tl) && Meets(tl[k], Queued)
    requires NetSent !in tl[k].net
    ensures IsOldest(if ptr.None? then Some(k) else ptr, tl[k := e], AckPending)
  {
  }

  lemma ModKeeps(tl: seq<Entry>, k: nat, new_: set<Net>)
    requires SentInOrder(tl) && k < |tl| && tl[k].onLog && Orderly(tl[k].net, new_)
    requires NetSent !in tl[k].net && NetSent in new_ ==> IsOldest(Some(k), tl, Queued)
    ensures SentInOrder(tl[k := Entry(true, new_)])
  {
    forall i | 0 <= i < k && tl[i].onLog && NetQueued in tl[i].net ensures Meets(tl[i], Queued) {
    }
  }

  // What is queued is behind what has been sent and waits for an ack.
  ghost predicate SentInOrder(tl: seq<Entry>) {
    forall i, j | 0 <= i < j < |tl| && Meets(tl[i], Queued) :: !Meets(tl[j], AckPending)
  }

  // ---- sending again ----

  // RESEND: with the answer there, as if the barrier was acknowledged; else queued again.
  function Resent(e: Entry, isWrite: bool): Entry {
    if !e.onLog then e
    else if NetOk in e.net then (if isWrite then e.(net := e.net + {NetDone}) else e)
    else if NetPending in e.net then e.(net := e.net - {NetSent} + {NetQueued})
    else e
  }

  lemma ResentOrderly(e: Entry, isWrite: bool)
    ensures Meets(Resent(e, isWrite), NotNetDone) ==> Meets(e, NotNetDone)
    ensures Meets(e, NotNetDone) && NetDone !in Resent(e, isWrite).net ==> Meets(Resent(e, isWrite), NotNetDone)
    ensures Sound(e.net) ==> !Meets(Resent(e, isWrite), AckPending)
  {
    var e' := Resent(e, isWrite);
    if e.net * NET_MASK != {} {
      var f :| f in e.net * NET_MASK;
      assert (if f == NetSent && e'.net != e.net && NetOk !in e.net then NetQueued else f) in e'.net * NET_MASK;
    } else {
      assert NetPending !in e.net * NET_MASK && NetOk !in e.net * NET_MASK;
    }
  }

  // What is before the pointer is done, or not for this peer: there is nothing to send again.
  lemma SkippedResent(ptr: Option<nat>, tl: seq<Entry>, isWrite: seq<bool>, k: nat)
    requires IsOldest(ptr, tl, NotNetDone) && |isWrite| == |tl| && k == (if ptr.Some? then ptr.value else 0)
    requires AllSound(tl)
    ensures forall j | 0 <= j < k :: tl[j] == Resent(tl[j], isWrite[j])
  {
    forall j | 0 <= j < k ensures tl[j] == Resent(tl[j], isWrite[j]) {
      var n := tl[j].net;
      if tl[j].onLog && NetDone !in n { assert NetOk !in n * NET_MASK && NetPending !in n * NET_MASK; }
      if NetDone in n { assert n + {NetDone} == n; }
    }
  }

  lemma NothingWaits(before: seq<Entry>, after: seq<Entry>, isWrite: seq<bool>)
    requires |after| == |before| == |isWrite| && forall k | 0 <= k < |after| :: after[k] == Resent(before[k], isWrite[k])
    requires AllSound(before)
    ensures IsOldest(None, after, AckPending) && SentInOrder(after) && AllSound(after)
  {
    forall k | 0 <= k < |after| ensures !Meets(after[k], AckPending) { ResentOrderly(before[k], isWrite[k]); }
  }

  /** A run to a pointer that does not agree with a walk: a write is sent, the connection is
   *  lost with I/O suspended, which leaves its flags as they are, and the write is sent again.
   */
  method StaleAckPending() returns (c: Connection)
    ensures c.Scannable() && c.ackPending == Some(0) && !IsOldest(c.ackPending, c.tl, AckPending)
  {
    var flags := {NetPending, NetReady, ExpWriteAck, ExpBarrAck};
    c := new Connection();
    assert NetReady in (flags + {NetQueued}) * NET_MASK;
    c.Add(flags + {NetQueued});
    var req := c.NextRequest(true);
    c.ModNet(0, flags + {NetSent});
    assert Meets(c.tl[0], AckPending);
    c.Resend([true]);
  }
}
