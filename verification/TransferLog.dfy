/** The transfer log, and what happens to the requests on it.
 *
 * Every method keeps `Valid()`: each of the three counts of each request is the number
 * of its holders, and the chain of writes is intact.  Requests are numbered in the order
 * of submission; the number stands for the pointer.
 */
module TransferLog {
  import opened Requests
  import opened Wrappers

  class Resource {
    const peers: nat
    const setBits: (nat, nat) -> bool   // did recording the write set a bit for this peer?
    var reqs: seq<Req>                  // all requests, in the order of submission
    var previousWrite: Option<nat>      // tl_previous_write
    var errIo: bool                     // cached_err_io
    var quorum: bool                    // not on_no_quorum == io-error without quorum

    ghost predicate Completions(k: nat, put: int)
      reads this
    {
      AllCompleting(reqs, peers, k, put)
    }

    ghost predicate Owing(k: nat, x: nat, y: nat, cur: nat, d: nat, o: nat)
      reads this
    {
      Links(reqs) && Tail(reqs, previousWrite) && Balanced(reqs, k, x, y, cur, d, o)
    }

    /** Every reference count of every request is the number of its holders. */
    ghost predicate Valid()
      reads this
    {
      Owing(0, 0, 0, 0, 0, 0) && Completions(0, 0)
    }

    constructor (peers: nat, setBits: (nat, nat) -> bool)
      ensures Valid() && reqs == [] && this.peers == peers && this.setBits == setBits
    {
      this.peers, this.setBits := peers, setBits;
      reqs, previousWrite, errIo, quorum := [], None, false, true;
    }

    // Writes that were to be announced as out of sync are announced, or skipped if the
    // peer knows already.
    method ReqDone(k: nat, r: Req) returns (net: seq<set<Net>>)
      ensures |net| == |r.net| && SameShares(r.net, net) && AllSettled(r.net, net)
      ensures forall c | 0 <= c < |net| :: net[c] == if Announces(r) then Announced(r.net[c], setBits(k, c)) else r.net[c]
    {
      net := r.net;
      if !Announces(r) { return; }
      for c := 0 to |net|
        invariant |net| == |r.net|
        invariant forall b | c <= b < |net| :: net[b] == r.net[b]
        invariant forall b | 0 <= b < c :: net[b] == Announced(r.net[b], setBits(k, b))
      {
        if NetPendingOos in net[c] {
          if setBits(k, c) {
            net := net[c := net[c] + {NetReady}];
          } else {
            net := net[c := net[c] - {NetPendingOos} + {NetReady}];
          }
        }
      }
    }

    // Put done references of one request.
    method PutDone(cur: nat, r: Req, put: nat) returns (r': Req, done: bool)
      ensures done == NewlyDone(r, put) && r' == r.(doneRef := r.doneRef - put, done := r.done || done, net := r'.net)
      ensures SameShares(r.net, r'.net) && AllSettled(r.net, r'.net) && (!done ==> r'.net == r.net)
    {
      hide SameShares, AllSettled, Announces, Announced;
      Reflexive(r.net);
      r', done := r, false;
      if put > 0 {
        r' := r.(doneRef := r.doneRef - put);
        if r'.doneRef == 0 {
          var net := ReqDone(cur, r');
          r', done := r'.(done := true, net := net), true;
        }
      }
    }

    // One round of the walk, for the request itself.
    method WalkReq(cur: nat, r: Req, donePut: nat, oosPut: nat) returns (r': Req, done: bool, sent: bool)
      ensures r' == Walked(r, donePut, oosPut, r'.net)
      ensures done == NewlyDone(r, donePut) && sent == NewlySent(r, donePut, oosPut)
      ensures SameShares(r.net, r'.net) && AllSettled(r.net, r'.net) && (!done ==> r'.net == r.net)
    {
      hide SameShares, AllSettled, NewlyDone;
      r', done := PutDone(cur, r, donePut);
      sent := false;
      var put := if done then oosPut + 1 else oosPut;
      if put > 0 {
        r' := r'.(oosSendRef := r'.oosSendRef - put);
        sent := r'.oosSendRef == 0;
      }
      if sent {
        r' := r'.(oosSent := true);
      } else if done {
        r' := r'.(intervalDone := true);
      }
    }

    // One round of the walk.
    method WalkOne(cur: nat, donePut: nat, oosPut: nat) returns (done: bool, sent: bool)
      requires cur < |reqs|
      modifies this`reqs, this`previousWrite
      ensures |reqs| == |old(reqs)| && SameShares(old(reqs)[cur].net, reqs[cur].net)
      ensures reqs == old(reqs)[cur := Walked(old(reqs)[cur], donePut, oosPut, reqs[cur].net)]
      ensures done == NewlyDone(old(reqs)[cur], donePut) && sent == NewlySent(old(reqs)[cur], donePut, oosPut)
      ensures !done ==> reqs[cur].net == old(reqs)[cur].net
      ensures AllSettled(old(reqs)[cur].net, reqs[cur].net)
      ensures previousWrite == if sent && old(previousWrite) == Some(cur) then None else old(previousWrite)
    {
      hide SameShares, AllSettled, Walked, NewlyDone, NewlySent;
      var r;
      r, done, sent := WalkReq(cur, reqs[cur], donePut, oosPut);
      if sent && previousWrite == Some(cur) { previousWrite := None; }
      reqs := reqs[cur := r];
    }

    /** Put references, and walk on along the chain of writes as long as a count drops to zero. */
    method PutRefTlWalk(k: nat, donePut: nat, oosPut: nat, ghost x: nat, ghost y: nat)
      requires k < |reqs| && Owing(k, x, y, k, donePut, oosPut) && Completions(0, 0)
      modifies this`reqs, this`previousWrite
      ensures Owing(k, x, y, k, 0, 0) && Completions(0, 0) && Onward(old(reqs), reqs) && Settles(old(reqs), reqs)
    {
      hide Links, Tail, Balanced, Walked, SameShares, NewlyDone, NewlySent, AllCompleting, Settled, AllSettled;
      assert Settles(reqs, reqs) by { SettlesSame(reqs); }
      var cur: nat, d: nat, o: nat := k, donePut, oosPut;
      while true
        invariant cur < |reqs| && Owing(k, x, y, cur, d, o) && Completions(0, 0) && Onward(old(reqs), reqs)
        invariant Settles(old(reqs), reqs)
        decreases |reqs| - cur
      {
        ghost var before, last := reqs, previousWrite;
        var done, sent := WalkOne(cur, d, o);
        var next := reqs[cur].next;
        ghost var nxt: nat := if next.Some? then next.value else |reqs|;
        assert next == before[cur].next by { SameNext(before[cur], d, o, reqs[cur].net); }
        WalkedOn(before, last, reqs, previousWrite, peers, k, x, y, cur, d, o, nxt);
        NotDoneBefore(before, k, x, y, cur, d, o);
        WalkedSettles(before, reqs, cur, d, o);
        SettlesTwice(old(reqs), before, reqs);
        if !done && !sent {
          MoveDebt(reqs, k, x, y, nxt, x, y, k, 0, 0);
          break;
        }
        if next.None? { break; }
        NextInside(reqs, cur);
        cur, d, o := next.value, One(done), One(sent);
      }
    }

    // Report the outcome to the upper layers: success if any copy was written.
    method ReqComplete(r: Req) returns (r': Req)
      ensures r' == Completed(r, errIo, quorum)
    {
      r' := r;
      var ok := LocalOk in r.local;
      var c := 0;
      while c < |r.net|
        invariant 0 <= c <= |r.net|
        invariant ok <==> LocalOk in r.local || exists b :: 0 <= b < c && NetOk in r.net[b]
        invariant forall b | 0 <= b < c :: !StillBusy(r.net[b])
      {
        if NetOk in r.net[c] { ok := true; }
        if StillBusy(r.net[c]) { return; }
        c := c + 1;
      }
      if r.completionRef != 0 || (LocalPending in r.local && LocalAborted !in r.local) { return; }
      if !r.master.Held? { return; }
      if errIo {
        ok := false;
        r' := r'.(local := r'.local - {Postponed});
      } else if !ok && r.kind.Read? && !r.oosSent {
        r' := r'.(local := r'.local + {Postponed});
      }
      if Postponed !in r'.local {
        r' := r'.(master := HandedUp(ok && quorum));
      }
    }

    // Take off completion references, and tell whether a reference on done_ref goes with them.
    method PutCompletions(r: Req, put: nat) returns (r': Req, drop: bool)
      requires put > 0
      ensures r' == PutCompletion(r, put, errIo, quorum) && drop == DropsBase(r, put, errIo, quorum)
    {
      hide Completed;
      r' := r.(completionRef := r.completionRef - put);
      if r'.completionRef != 0 { return r', false; }
      r' := ReqComplete(r');
      // the local completion may still come in
      if LocalAborted in r'.local { return r'.(restarting := false), false; }
      if Postponed in r'.local { return r'.(restarting := true), false; }
      r', drop := r'.(restarting := false), true;
    }

    method PutCompletionRef(k: nat, put: nat, ghost x: nat, ghost y: nat)
      requires k < |reqs| && Owing(k, x, y, k, 0, 0) && Completions(k, put)
      modifies this`reqs, this`previousWrite
      ensures Owing(k, x, y, k, 0, 0) && Completions(0, 0) && Onward(old(reqs), reqs)
      ensures |reqs| == |old(reqs)| && Settles(old(reqs)[k := PutCompletion(old(reqs)[k], put, errIo, quorum)], reqs)
      ensures put == 0 ==> reqs == old(reqs) && previousWrite == old(previousWrite)
    {
      hide Links, Tail, Balanced, AllCompleting, Settled, PutCompletion, DropsBase, Onward;
      ghost var result := PutCompletion(reqs[k], put, errIo, quorum);
      SettlesSame(reqs[k := result]);
      PutStep(reqs, previousWrite, peers, k, put, x, y, errIo, quorum);
      if put == 0 {
        PutNone(reqs[k], errIo, quorum);
        assert reqs[k := result] == reqs;
        return;
      }
      ghost var before := reqs;
      var r, drop := PutCompletions(reqs[k], put);
      reqs := reqs[k := r];
      if drop {
        ghost var middle := reqs;
        PutRefTlWalk(k, 1, 0, x, y);
        OnwardTwice(before, middle, reqs);
      }
    }

    /** The only place where flags and references change. */
    method ModRqState(k: nat, ch: Change)
      requires Valid() && k < |reqs| && Permitted(reqs[k], ch)
      modifies this`reqs, this`previousWrite
      ensures Valid() && Onward(old(reqs), reqs) && |reqs| == |old(reqs)|
      ensures Settles(old(reqs)[k := PutCompletion(Flagged(old(reqs)[k], ch), CPut(old(reqs)[k], ch), errIo, quorum)], reqs)
      ensures CPut(old(reqs)[k], ch) + DPut(old(reqs)[k], ch) + OPut(old(reqs)[k], ch) == 0 ==>
        reqs == old(reqs)[k := Flagged(old(reqs)[k], ch)] && previousWrite == old(previousWrite)
    {
      hide Links, Tail, Balanced, Completed, AllCompleting, Accounted, Completing, Settled, Permitted, PutCompletion, Flagged;
      var r := reqs[k];
      var c, d, o := CPut(r, ch), DPut(r, ch), OPut(r, ch);
      FlagStep(reqs, previousWrite, peers, k, ch);
      reqs := reqs[k := Flagged(r, ch)];
      PutCompletionRef(k, c, d, o);
      if d + o > 0 {
        ghost var before := reqs;
        MoveDebt(reqs, k, d, o, k, 0, 0, k, d, o);
        PutRefTlWalk(k, d, o, 0, 0);
        SettlesTwice(old(reqs)[k := PutCompletion(Flagged(r, ch), c, errIo, quorum)], before, reqs);
      }
      Nowhere(reqs, k);
    }

    /** An event happens to a request. */
    method ReqMod(k: nat, e: Event)
      requires Valid() && k < |reqs| && Expected(reqs[k], e)
      modifies this`reqs, this`previousWrite
      ensures Valid() && Onward(old(reqs), reqs) && |reqs| == |old(reqs)|
      ensures Settles(old(reqs)[k := AfterEvent(old(reqs)[k], e, errIo, quorum)], reqs)
      ensures PutsNothing(old(reqs)[k], e) ==>
        reqs == old(reqs)[k := Flagged(old(reqs)[k], ChangeOf(old(reqs)[k], e))] && previousWrite == old(previousWrite)
    {
      hide Resource.Valid, Settles, Onward, Permitted, PutCompletion, Flagged;
      TablePermitted(reqs[k], e);
      ModRqState(k, ChangeOf(reqs[k], e));
    }

    /** The barrier that follows a write is acknowledged. */
    method BarrierAcked(k: nat, c: nat)
      requires Valid() && k < |reqs| && c < peers
      modifies this`reqs, this`previousWrite
      ensures Valid() && Onward(old(reqs), reqs)
      ensures IsWrite(old(reqs)[k]) && old(reqs)[k].net[c] * NET_MASK != {} ==>
        NetDone in reqs[k].net[c] && NetPending !in reqs[k].net[c]
    {
      hide Onward, Links, Tail, Balanced, Completing, PutCompletion, ChangeOf, Flagged;
      ghost var before := reqs;
      assert |reqs[k].net| == peers;
      ReqMod(k, BarrierAckedLate(c));
      ghost var middle := reqs;
      LateFlags(before[k], middle[k], c, errIo, quorum);
      assert |reqs[k].net| == peers;
      ReqMod(k, BarrierAckedDone(c));
      DoneFlags(middle[k], reqs[k], c, errIo, quorum);
      OnwardTwice(before, middle, reqs);
    }

    // A new request; a data write becomes the next one in the chain.
    method Append(kind: Kind) returns (k: nat)
      requires Valid()
      modifies this`reqs, this`previousWrite
      ensures Valid() && Onward(old(reqs), reqs) && k == |old(reqs)| && |reqs| == k + 1
      ensures reqs == Appended(old(reqs), old(previousWrite), kind, peers)
      ensures previousWrite == if kind.DataWrite? then Some(k) else old(previousWrite)
    {
      hide Links, Tail, Balanced, AllCompleting;
      k := |reqs|;
      AppendedKeeps(reqs, previousWrite, kind, peers);
      AppendedOnward(reqs, previousWrite, kind, peers);
      var r := Fresh(kind, peers);
      if kind.DataWrite? {
        if previousWrite.Some? {
          assert previousWrite.value < k by { TailInside(reqs, previousWrite); }
          var p := previousWrite.value;
          if !reqs[p].intervalDone { r := r.(doneRef := r.doneRef + 1); }
          r := r.(oosSendRef := r.oosSendRef + 1, prev := Some(p));
          reqs := reqs[p := reqs[p].(next := Some(k))];
        }
        previousWrite := Some(k);
      }
      reqs := reqs + [r];
    }

    /** A data write enters the transfer log, for each peer as data, as out-of-sync
     *  information or not at all.
     */
    method AddWrite(targets: seq<Target>) returns (k: nat)
      requires Valid() && |targets| == peers
      modifies this`reqs, this`previousWrite
      ensures Valid() && Onward(old(reqs), reqs) && k == |old(reqs)| && |reqs| == k + 1
      ensures reqs[..k] == Appended(old(reqs), old(previousWrite), DataWrite, peers)[..k] && previousWrite == Some(k)
      ensures reqs[k].submitting && reqs[k].kind == DataWrite && reqs[k].local == {} && reqs[k].master == Held
      ensures |reqs[k].net| == peers && forall c | 0 <= c < peers :: reqs[k].net[c] == Wanted(targets[c], true)
    {
      hide Resource.Valid, Onward, Appended;
      k := Append(DataWrite);
      ghost var base := reqs;
      LastFresh(old(reqs), old(previousWrite), DataWrite, peers);
      MarkTargets(k, targets);
      ghost var middle := reqs;
      MarkReady(k, targets);
      OnwardTwice(base, middle, reqs);
      OnwardTwice(old(reqs), base, reqs);
    }

    /** A read, served by one peer or by none. */
    method AddRead(ahead: bool, from: Option<nat>) returns (k: nat)
      requires Valid() && (from.Some? ==> from.value < peers)
      modifies this`reqs, this`previousWrite
      ensures Valid() && Onward(old(reqs), reqs) && k == |old(reqs)| && |reqs| == k + 1 && reqs[..k] == old(reqs)
      ensures reqs[k].submitting && reqs[k].kind == (if ahead then ReadAhead else Read) && reqs[k].local == {}
      ensures |reqs[k].net| == peers && reqs[k].master == Held && previousWrite == old(previousWrite)
      ensures forall c | 0 <= c < peers :: reqs[k].net[c] == if from == Some(c) then {NetPending, NetQueued, NetReady} else {}
    {
      hide Resource.Valid, Onward;
      k := Append(if ahead then ReadAhead else Read);
      if from.Some? {
        ghost var base := reqs;
        Mark(k, NewNetRead(from.value));
        ghost var middle := reqs;
        Mark(k, ReadyForNet(from.value));
        OnwardTwice(base, middle, reqs);
        OnwardTwice(old(reqs), base, reqs);
      }
    }

    /** An empty flush: peers that are up to date count as flushed. */
    method AddFlush(upToDate: seq<bool>) returns (k: nat)
      requires Valid() && |upToDate| == peers
      modifies this`reqs, this`previousWrite
      ensures Valid() && Onward(old(reqs), reqs) && k == |old(reqs)| && |reqs| == k + 1 && reqs[..k] == old(reqs)
      ensures reqs[k].submitting && reqs[k].kind == Flush && reqs[k].local == {}
      ensures |reqs[k].net| == peers && reqs[k].master == Held && previousWrite == old(previousWrite)
      ensures forall c | 0 <= c < peers :: reqs[k].net[c] == if upToDate[c] then {NetOk, NetDone} else {}
    {
      hide Resource.Valid, Onward;
      k := Append(Flush);
      ghost var base := reqs;
      OnwardSame(reqs);
      for c := 0 to peers
        invariant Submitting(k) && Onward(base, reqs) && |reqs| == k + 1 && previousWrite == old(previousWrite)
        invariant reqs == base[k := reqs[k]] && reqs[k].kind == Flush
        invariant forall b | 0 <= b < peers :: reqs[k].net[b] == if b < c && upToDate[b] then {NetOk, NetDone} else {}
      {
        if upToDate[c] {
          ghost var before := reqs;
          Mark(k, BarrierSent(c));
          OnwardTwice(base, before, reqs);
        }
      }
      OnwardTwice(old(reqs), base, reqs);
    }

    // The request is in submission, and all others are left alone.
    ghost predicate Submitting(k: nat)
      reads this
    {
      && Valid() && k < |reqs|
      && reqs[k].submitting && reqs[k].local == {} && reqs[k].master == Held && |reqs[k].net| == peers
    }

    method Mark(k: nat, e: Event)
      requires Submitting(k) && Expected(reqs[k], e) && SubmitEvent(reqs[k], e)
      modifies this`reqs, this`previousWrite
      ensures Submitting(k) && Onward(old(reqs), reqs) && |reqs| == |old(reqs)| && previousWrite == old(previousWrite)
      ensures reqs == old(reqs)[k := reqs[k]] && reqs[k].kind == old(reqs)[k].kind
      ensures reqs[k].net == old(reqs)[k].net[e.c := old(reqs)[k].net[e.c] + ChangeOf(old(reqs)[k], e).set_]
    {
      hide Resource.Valid, Onward, ChangeOf, Flagged;
      NewNetTakes(reqs[k], e);
      ReqMod(k, e);
      assert reqs[k] == Flagged(old(reqs)[k], ChangeOf(old(reqs)[k], e));
      assert reqs[k].local == {};
    }

    method MarkTargets(k: nat, targets: seq<Target>)
      requires Submitting(k) && |targets| == peers && forall c | 0 <= c < peers :: reqs[k].net[c] == {}
      modifies this`reqs, this`previousWrite
      ensures Submitting(k) && Onward(old(reqs), reqs) && |reqs| == |old(reqs)| && previousWrite == old(previousWrite)
      ensures reqs == old(reqs)[k := reqs[k]] && reqs[k].kind == old(reqs)[k].kind
      ensures forall c | 0 <= c < peers :: reqs[k].net[c] == Wanted(targets[c], false)
    {
      hide Resource.Valid, Onward;
      OnwardSame(reqs);
      for c := 0 to peers
        invariant Submitting(k) && Onward(old(reqs), reqs) && |reqs| == |old(reqs)| && previousWrite == old(previousWrite)
        invariant reqs == old(reqs)[k := reqs[k]] && reqs[k].kind == old(reqs)[k].kind
        invariant forall b | 0 <= b < peers :: reqs[k].net[b] == if b < c then Wanted(targets[b], false) else {}
      {
        ghost var before := reqs;
        if targets[c].Remote? {
          Mark(k, NewNetWrite(c, targets[c].protocol));
          OnwardTwice(old(reqs), before, reqs);
        } else if targets[c].OutOfSync? {
          Mark(k, NewNetOos(c));
          OnwardTwice(old(reqs), before, reqs);
        }
      }
    }

    // Not yet for those that only wait for out-of-sync information.
    method MarkReady(k: nat, targets: seq<Target>)
      requires Submitting(k) && |targets| == peers && forall c | 0 <= c < peers :: reqs[k].net[c] == Wanted(targets[c], false)
      modifies this`reqs, this`previousWrite
      ensures Submitting(k) && Onward(old(reqs), reqs) && |reqs| == |old(reqs)| && previousWrite == old(previousWrite)
      ensures reqs == old(reqs)[k := reqs[k]] && reqs[k].kind == old(reqs)[k].kind
      ensures forall c | 0 <= c < peers :: reqs[k].net[c] == Wanted(targets[c], true)
    {
      hide Resource.Valid, Onward;
      OnwardSame(reqs);
      for c := 0 to peers
        invariant Submitting(k) && Onward(old(reqs), reqs) && |reqs| == |old(reqs)| && previousWrite == old(previousWrite)
        invariant reqs == old(reqs)[k := reqs[k]] && reqs[k].kind == old(reqs)[k].kind
        invariant forall b | 0 <= b < peers :: reqs[k].net[b] == Wanted(targets[b], b < c)
      {
        if NetPending in reqs[k].net[c] {
          ghost var before := reqs;
          Mark(k, ReadyForNet(c));
          OnwardTwice(old(reqs), before, reqs);
        }
      }
    }

    /** The submitter lets go of the request. */
    method FinishSubmit(k: nat)
      requires Valid() && k < |reqs| && reqs[k].submitting
      modifies this`reqs, this`previousWrite
      ensures Valid() && Onward(old(reqs), reqs) && |reqs| == |old(reqs)|
      ensures Settles(old(reqs)[k := PutCompletion(old(reqs)[k].(submitting := false), 1, errIo, quorum)], reqs)
    {
      hide Links, Tail, Balanced, Completed, AllCompleting, Accounted, Completing, Settled, PutCompletion;
      Released(reqs, previousWrite, peers, k);
      reqs := reqs[k := reqs[k].(submitting := false)];
      PutCompletionRef(k, 1, 0, 0);
      Nowhere(reqs, k);
    }

    /** do_retry(): the bio goes to a new request, this one is let go. */
    method Retry(k: nat)
      requires Valid() && k < |reqs| && reqs[k].restarting
      modifies this`reqs, this`previousWrite
      ensures Valid() && Onward(old(reqs), reqs) && |reqs| == |old(reqs)|
      ensures Settles(old(reqs)[k := old(reqs)[k].(restarting := false)], reqs)
    {
      hide Links, Tail, Balanced, Completed, AllCompleting, Accounted, Completing, Settled, PutCompletion;
      Restarted(reqs, previousWrite, peers, k);
      reqs := reqs[k := reqs[k].(restarting := false)];
      PutRefTlWalk(k, 1, 0, 0, 0);
      Nowhere(reqs, k);
    }
  }
}
