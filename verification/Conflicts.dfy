/** Who may touch the backing disk: requests, peer requests, resync and verify.
 *
 * Everything is in one tree of intervals.  Who finds a conflict stays there, parked, and
 * is looked at again when an interval it overlaps is done.  The tree finds all intervals
 * that overlap a range, in order; `OverlapOrder` gets that list from it.
 */
module Conflicts {
  import opened Wrappers
  import IntervalTree

  datatype Type = LocalWrite | PeerWrite | ResyncWrite | ResyncRead | OvReadSource | OvReadTarget | PeersInSyncLock
                | LocalRead | PeerRead

  datatype Flag = ReadyToSend | Received | ConflictQueued | Submitted | BackingCompleted | Completed | Conflict

  // `end` is the sector behind the last one; `peer` is meaningful for peer requests.
  datatype Interval = Interval(sector: nat, end: nat, kind: Type, peer: nat, flags: set<Flag>)

  type Requests = map<nat, Interval>

  predicate IsApplication(i: Interval) {
    i.kind.LocalWrite? || i.kind.PeerWrite? || i.kind.LocalRead? || i.kind.PeerRead?
  }

  predicate IsWrite(i: Interval) {
    i.kind.LocalWrite? || i.kind.PeerWrite? || i.kind.ResyncWrite?
  }

  predicate IsResync(i: Interval) {
    i.kind.ResyncWrite? || i.kind.ResyncRead?
  }

  predicate IsVerify(i: Interval) {
    i.kind.OvReadSource? || i.kind.OvReadTarget?
  }

  predicate Overlap(a: Interval, b: Interval) {
    a.sector < b.end && b.sector < a.end
  }

  // ---- when to defer ----

  predicate SamePeer(x: Interval, i: Interval) {
    !x.kind.LocalWrite? && !x.kind.LocalRead? && !x.kind.PeersInSyncLock? && x.peer == i.peer
  }

  predicate ShouldDeferToResync(x: Interval, i: Interval) {
    IsResync(i) && (Received in i.flags || !SamePeer(x, i))
  }

  predicate ShouldDefer(x: Interval, i: Interval, deferToResync: bool) {
    || Submitted in i.flags
    || (deferToResync && ShouldDeferToResync(x, i))
    || (x.kind.ResyncWrite? && i.kind.ResyncWrite? && ReadyToSend in i.flags)
  }

  // CONFLICT_FLAG_APPLICATION_ONLY and CONFLICT_FLAG_IGNORE_SAME_PEER
  datatype How = How(applicationOnly: bool, ignoreSamePeer: bool)

  const TO_SUBMIT := How(false, false)
  const TO_SEND := How(false, true)

  // An overlapping interval that is not ignored.
  predicate Considered(x: Interval, i: Interval, how: How) {
    && (if x.kind.LocalWrite? || how.applicationOnly then Completed !in i.flags else BackingCompleted !in i.flags)
    && ShouldDefer(x, i, (x.kind.LocalWrite? || x.kind.PeerWrite?) && !how.applicationOnly)
    && !(how.ignoreSamePeer && i.kind.PeerWrite? && SamePeer(x, i))
    && (how.applicationOnly ==> IsApplication(i))
  }

  predicate Blocks(x: Interval, i: Interval, how: How) {
    && Considered(x, i, how)
    && if IsWrite(x) then !IsVerify(i)
       else !i.kind.ResyncRead? && !IsVerify(i) && !i.kind.PeersInSyncLock?
  }

  // A verify request in the way of a write is not a conflict; it gets one.
  predicate Marks(x: Interval, i: Interval, how: How) {
    Considered(x, i, how) && IsWrite(x) && IsVerify(i)
  }

  function WithFlag(i: Interval, flag: Flag): Interval {
    i.(flags := i.flags + {flag})
  }

  function WithoutFlag(i: Interval, flag: Flag): Interval {
    i.(flags := i.flags - {flag})
  }

  // ---- what is kept ----

  predicate InFlight(i: Interval) {
    Submitted in i.flags && BackingCompleted !in i.flags
  }

  // Completed to the upper layers while the disk may still work on it.
  predicate Aborted(i: Interval) {
    i.kind.LocalWrite? && InFlight(i) && Completed in i.flags
  }

  predicate AbortedPair(a: Interval, b: Interval) {
    a.kind.LocalWrite? && b.kind.LocalWrite? && (Aborted(a) || Aborted(b))
  }

  /** No two overlapping intervals are on the disk if one of them is a write, unless the
   *  other is a verify request, or both are local writes and one of them was aborted.
   */
  ghost predicate Exclusive(rs: Requests) {
    forall a, b | a in rs && b in rs && a != b && Overlap(rs[a], rs[b]) && InFlight(rs[a]) && InFlight(rs[b]) && IsWrite(rs[a]) ::
      IsVerify(rs[b]) || AbortedPair(rs[a], rs[b])
  }

  /** The same without the exception for aborted writes. */
  ghost predicate StrictlyExclusive(rs: Requests) {
    forall a, b | a in rs && b in rs && a != b && Overlap(rs[a], rs[b]) && InFlight(rs[a]) && InFlight(rs[b]) && IsWrite(rs[a]) ::
      IsVerify(rs[b])
  }

  /** A verify request that overlaps a write on the disk knows. */
  ghost predicate VerifyKnows(rs: Requests) {
    forall v, w | v in rs && w in rs && Overlap(rs[v], rs[w]) && IsVerify(rs[v]) && IsWrite(rs[w]) && InFlight(rs[w]) ::
      Conflict in rs[v].flags
  }

  // How a parked interval looks for conflicts when it is looked at again.
  function HowFor(x: Interval): How {
    if x.kind.ResyncWrite? && ReadyToSend !in x.flags then TO_SEND else TO_SUBMIT
  }

  // Waiting for conflicts to be resolved, and not about to be looked at.
  predicate Parked(x: Interval) {
    && !IsVerify(x) && !x.kind.PeersInSyncLock?
    && Submitted !in x.flags && ConflictQueued !in x.flags
    && !(ReadyToSend in x.flags && Received !in x.flags)
  }

  ghost predicate Blocked(rs: Requests, a: nat) {
    a in rs && exists b :: b in rs && b != a && Overlap(rs[a], rs[b]) && Blocks(rs[a], rs[b], HowFor(rs[a]))
  }

  /** No lost wakeup: whoever is parked is blocked by an interval that is still there. */
  ghost predicate NoLostWakeup(rs: Requests) {
    forall a | a in rs && Parked(rs[a]) :: Blocked(rs, a)
  }

  predicate ShapeOne(i: Interval) {
    && (IsVerify(i) || i.kind.PeersInSyncLock? ==> Submitted in i.flags)
    && (IsVerify(i) ==> BackingCompleted !in i.flags && Completed !in i.flags)
    && (Completed in i.flags ==> Submitted in i.flags && i.kind.LocalWrite?)
    && (BackingCompleted in i.flags ==> Submitted in i.flags && i.kind.LocalWrite?)
    && (ReadyToSend in i.flags ==> i.kind.ResyncWrite? || IsVerify(i))
  }

  ghost predicate Shape(rs: Requests) {
    forall a | a in rs :: ShapeOne(rs[a])
  }

  ghost predicate Safe(rs: Requests) {
    Shape(rs) && Exclusive(rs) && VerifyKnows(rs)
  }

  ghost predicate Valid(rs: Requests) {
    Safe(rs) && NoLostWakeup(rs)
  }

  // ---- looking for conflicts ----

  // `order` lists the intervals that overlap the range.
  ghost predicate Lists(rs: Requests, order: seq<nat>, x: Interval) {
    forall a :: a in order <==> a in rs && Overlap(rs[a], x)
  }

  // Noting a conflict changes nothing that matters for others.
  ghost predicate Noted(rs: Requests, rs': Requests) {
    rs.Keys == rs'.Keys && forall a | a in rs :: rs'[a] == rs[a] || rs'[a] == WithFlag(rs[a], Conflict)
  }

  // And so it is for all but `a`.
  ghost predicate OthersNoted(rs: Requests, rs': Requests, a: nat) {
    forall b | b in rs && b != a :: b in rs' && (rs'[b] == rs[b] || rs'[b] == WithFlag(rs[b], Conflict))
  }

  lemma NotedBlocks(x: Interval, i: Interval, how: How)
    ensures Blocks(x, WithFlag(i, Conflict), how) == Blocks(x, i, how) && Blocks(WithFlag(x, Conflict), i, how) == Blocks(x, i, how)
    ensures HowFor(WithFlag(x, Conflict)) == HowFor(x) && Parked(WithFlag(x, Conflict)) == Parked(x)
    ensures InFlight(WithFlag(x, Conflict)) == InFlight(x)
  {
  }

  lemma NotedBlocked(rs: Requests, rs': Requests, a: nat)
    requires Noted(rs, rs') && Blocked(rs, a)
    ensures Blocked(rs', a)
  {
    hide Blocks, HowFor;
    var b :| b in rs && b != a && Overlap(rs[a], rs[b]) && Blocks(rs[a], rs[b], HowFor(rs[a]));
    NotedBlocks(rs[a], rs[b], HowFor(rs[a]));
    NotedBlocks(rs[a], WithFlag(rs[b], Conflict), HowFor(rs[a]));
    assert b in rs' && b != a && Overlap(rs'[a], rs'[b]) && Blocks(rs'[a], rs'[b], HowFor(rs'[a]));
  }

  lemma NotedSafe(rs: Requests, rs': Requests)
    requires Noted(rs, rs') && Shape(rs) && Exclusive(rs) && VerifyKnows(rs)
    ensures Shape(rs') && Exclusive(rs') && VerifyKnows(rs')
  {
    hide ShapeOne, InFlight, Aborted;
    forall a | a in rs ensures Alike(rs[a], rs'[a]) { NotedAlike(rs[a], rs'[a]); }
    NotedExclusive(rs, rs');
  }

  // A conflict may be noted, all else that counts is the same.
  predicate Alike(i: Interval, i': Interval) {
    && i'.kind == i.kind && i'.sector == i.sector && i'.end == i.end
    && InFlight(i') == InFlight(i) && Aborted(i') == Aborted(i) && (ShapeOne(i) ==> ShapeOne(i'))
    && (Conflict in i.flags ==> Conflict in i'.flags)
  }

  lemma NotedAlike(i: Interval, i': Interval)
    requires i' == i || i' == WithFlag(i, Conflict)
    ensures Alike(i, i')
  {
  }

  lemma NotedExclusive(rs: Requests, rs': Requests)
    requires rs.Keys == rs'.Keys && Exclusive(rs) && forall a | a in rs :: Alike(rs[a], rs'[a])
    ensures Exclusive(rs')
  {
    hide ShapeOne, InFlight, Aborted;
  }

  lemma NotedKeeps(rs: Requests, rs': Requests)
    requires Valid(rs) && Noted(rs, rs')
    ensures Valid(rs')
  {
    hide Shape, Exclusive, VerifyKnows, Blocked, Parked;
    NotedSafe(rs, rs');
    forall a | a in rs' && Parked(rs'[a]) ensures Blocked(rs', a) {
      NotedBlocks(rs[a], rs[a], TO_SUBMIT);
      NotedBlocked(rs, rs', a);
    }
  }

  // ---- single changes ----

  // A new interval blocks nobody less.
  lemma MoreBlocked(rs: Requests, a: nat, x: Interval, c: nat)
    requires Blocked(rs, c) && a !in rs
    ensures Blocked(rs[a := x], c)
  {
    hide Blocks, HowFor, Overlap;
    var b :| b in rs && b != c && Overlap(rs[c], rs[b]) && Blocks(rs[c], rs[b], HowFor(rs[c]));
    var rs' := rs[a := x];
    assert b in rs' && b != c && Overlap(rs'[c], rs'[b]) && Blocks(rs'[c], rs'[b], HowFor(rs'[c]));
  }

  lemma ProgressBlocked(rs: Requests, a: nat, i: Interval, c: nat)
    requires Blocked(rs, c) && a in rs && c != a && i.sector == rs[a].sector && i.end == rs[a].end
    requires forall x, how | Blocks(x, rs[a], how) :: Blocks(x, i, how)
    ensures Blocked(rs[a := i], c)
  {
    hide Blocks, HowFor;
    var b :| b in rs && b != c && Overlap(rs[c], rs[b]) && Blocks(rs[c], rs[b], HowFor(rs[c]));
    var rs' := rs[a := i];
    assert b in rs' && b != c && Overlap(rs'[c], rs'[b]) && Blocks(rs'[c], rs'[b], HowFor(rs'[c]));
  }

  // The interval of `a` may go to the disk.
  ghost predicate Free(rs: Requests, a: nat, x: Interval) {
    forall b | b in rs && b != a && Overlap(x, rs[b]) ::
      !Blocks(x, rs[b], TO_SUBMIT) && (Marks(x, rs[b], TO_SUBMIT) ==> Conflict in rs[b].flags)
  }

  // All but `a` are as they should be, and `a` is not on the disk yet.
  ghost predicate ValidBut(rs: Requests, a: nat, x: Interval) {
    && Shape(rs) && ShapeOne(WithFlag(x, Submitted)) && Exclusive(rs) && VerifyKnows(rs)
    && (forall c | c in rs && c != a && Parked(rs[c]) :: Blocked(rs, c))
    && (a in rs ==> Submitted !in rs[a].flags && rs[a].kind == x.kind && rs[a].peer == x.peer
                    && rs[a].sector == x.sector && rs[a].end == x.end && rs[a].flags - {ConflictQueued} <= x.flags)
    && Submitted !in x.flags && Completed !in x.flags && BackingCompleted !in x.flags
  }

  lemma OthersBlocked(rs: Requests, a: nat, x: Interval, i: Interval, c: nat)
    requires ValidBut(rs, a, x) && c in rs && c != a && Parked(rs[c])
    requires i == x || i == WithFlag(x, Submitted) || i == WithFlag(x, ReadyToSend)
    ensures Blocked(rs[a := i], c)
  {
    if a in rs {
      forall y, how | Blocks(y, rs[a], how) ensures Blocks(y, i, how) { MoreFlags(y, rs[a], i, how); }
      ProgressBlocked(rs, a, i, c);
    } else {
      MoreBlocked(rs, a, i, c);
    }
  }

  lemma MoreFlags(y: Interval, i: Interval, i': Interval, how: How)
    requires Blocks(y, i, how) && i'.kind == i.kind && i'.peer == i.peer && i.flags - {ConflictQueued} <= i'.flags
    requires Completed !in i'.flags && BackingCompleted !in i'.flags
    ensures Blocks(y, i', how)
  {
    assert forall f | f in i.flags && f != ConflictQueued :: f in i.flags - {ConflictQueued};
  }

  lemma SubmitKeeps(rs: Requests, a: nat, x: Interval)
    requires ValidBut(rs, a, x) && !IsVerify(x) && Free(rs, a, x)
    ensures Valid(rs[a := WithFlag(x, Submitted)])
  {
    hide Blocks, Marks;
    var i := WithFlag(x, Submitted);
    var rs' := rs[a := i];
    forall b | b in rs && b != a && Overlap(x, rs[b]) && InFlight(rs[b])
      ensures IsWrite(x) || IsWrite(rs[b]) ==> IsVerify(rs[b]) || AbortedPair(i, rs[b])
    {
      InFlightBlocks(x, rs[b]);
    }
    forall b | b in rs && b != a && Overlap(x, rs[b]) && IsVerify(rs[b]) && IsWrite(x) ensures Conflict in rs[b].flags {
      VerifyMarks(x, rs[b]);
    }
    forall c | c in rs' && Parked(rs'[c]) ensures Blocked(rs', c) { OthersBlocked(rs, a, x, i, c); }
  }

  // What is on the disk blocks, or is marked, or does not matter, or was aborted.
  lemma InFlightBlocks(x: Interval, i: Interval)
    requires InFlight(i) && ShapeOne(i)
    ensures Blocks(x, i, TO_SUBMIT) || IsVerify(i) || (!IsWrite(x) && !IsWrite(i)) || (x.kind.LocalWrite? && Aborted(i))
  {
  }

  /** What goes to the disk with nothing in the way keeps the strict exclusion exactly if it
   *  is not a local write that overlaps an aborted one.
   */
  lemma SubmitExclusive(rs: Requests, a: nat, x: Interval)
    requires ValidBut(rs, a, x) && !IsVerify(x) && Free(rs, a, x) && StrictlyExclusive(rs)
    ensures StrictlyExclusive(rs[a := WithFlag(x, Submitted)]) <==>
            !(x.kind.LocalWrite? && exists b :: b in rs && b != a && Overlap(x, rs[b]) && Aborted(rs[b]))
  {
    hide Blocks, Marks;
    var i := WithFlag(x, Submitted);
    var rs' := rs[a := i];
    forall b | b in rs && b != a && Overlap(x, rs[b]) && InFlight(rs[b])
      ensures IsWrite(x) || IsWrite(rs[b]) ==> IsVerify(rs[b]) || (x.kind.LocalWrite? && Aborted(rs[b]))
    {
      InFlightBlocks(x, rs[b]);
    }
    if b :| b in rs && b != a && Overlap(x, rs[b]) && Aborted(rs[b]) && x.kind.LocalWrite? {
      assert a in rs' && b in rs' && Overlap(rs'[a], rs'[b]) && InFlight(rs'[a]) && InFlight(rs'[b]);
    }
  }

  lemma VerifyMarks(x: Interval, i: Interval)
    requires IsWrite(x) && IsVerify(i) && Submitted in i.flags && BackingCompleted !in i.flags && Completed !in i.flags
    ensures Marks(x, i, TO_SUBMIT)
  {
  }

  // A conflict was found: the interval is parked.
  lemma ParkKeeps(rs: Requests, a: nat, x: Interval, b: nat)
    requires ValidBut(rs, a, x) && ShapeOne(x) && !IsVerify(x)
    requires b in rs && b != a && Overlap(x, rs[b]) && Blocks(x, rs[b], HowFor(x))
    ensures Valid(rs[a := x])
  {
    hide Blocks, HowFor;
    var rs' := rs[a := x];
    assert Blocked(rs', a) by { assert b in rs' && b != a && Overlap(rs'[a], rs'[b]) && Blocks(rs'[a], rs'[b], HowFor(rs'[a])); }
    forall c | c in rs' && c != a && Parked(rs'[c]) ensures Blocked(rs', c) { OthersBlocked(rs, a, x, x, c); }
  }

  // A resync request that is sent waits for the reply.
  lemma SendKeeps(rs: Requests, a: nat, x: Interval)
    requires ValidBut(rs, a, x) && x.kind.ResyncWrite? && Received !in x.flags && ShapeOne(WithFlag(x, ReadyToSend))
    ensures Valid(rs[a := WithFlag(x, ReadyToSend)])
  {
    hide Blocks, HowFor;
    var i := WithFlag(x, ReadyToSend);
    var rs' := rs[a := i];
    forall c | c in rs' && Parked(rs'[c]) ensures Blocked(rs', c) { OthersBlocked(rs, a, x, i, c); }
  }

  // A verify request goes ahead, but remembers a conflict.
  lemma VerifyKeeps(rs: Requests, a: nat, x: Interval)
    requires Valid(rs) && a !in rs && IsVerify(x) && ShapeOne(x)
    requires (exists b :: b in rs && Overlap(x, rs[b]) && Blocks(x, rs[b], TO_SUBMIT)) ==> Conflict in x.flags
    ensures Valid(rs[a := x])
  {
    hide HowFor;
    var rs' := rs[a := x];
    forall b | b in rs && Overlap(x, rs[b]) && IsWrite(rs[b]) && InFlight(rs[b]) ensures Conflict in x.flags {
      InFlightBlocks(x, rs[b]);
    }
    forall c | c in rs' && Parked(rs'[c]) ensures Blocked(rs', c) { MoreBlocked(rs, a, x, c); }
  }

  // ---- releasing ----

  predicate Wakes(i: Interval, r: Interval) {
    && Overlap(i, r) && Submitted !in i.flags && !(ReadyToSend in i.flags && Received !in i.flags)
    && ConflictQueued !in i.flags && !IsVerify(i)
  }

  function Woken(i: Interval, r: Interval): Interval {
    if Wakes(i, r) then WithFlag(i, ConflictQueued) else i
  }

  // drbd_release_conflicts()
  function Released(rs: Requests, r: Interval): Requests {
    map a | a in rs :: Woken(rs[a], r)
  }

  lemma WokenSame(i: Interval, r: Interval)
    ensures InFlight(Woken(i, r)) == InFlight(i) && Aborted(Woken(i, r)) == Aborted(i) && ShapeOne(Woken(i, r)) == ShapeOne(i)
    ensures forall x, how :: Blocks(x, Woken(i, r), how) == Blocks(x, i, how) && Blocks(Woken(i, r), x, how) == Blocks(i, x, how)
    ensures HowFor(Woken(i, r)) == HowFor(i) && (Parked(Woken(i, r)) ==> Parked(i) && !Overlap(i, r))
    ensures Conflict in Woken(i, r).flags <==> Conflict in i.flags
    ensures Woken(i, r).kind == i.kind && Woken(i, r).sector == i.sector && Woken(i, r).end == i.end
  {
  }

  // Apart from the interval `a`, which is at `r`, nothing has changed: whoever might have
  // waited for it is woken.
  lemma ReleaseKeeps(before: Requests, rs: Requests, a: nat, r: Interval)
    requires NoLostWakeup(before) && a in before && r.sector == before[a].sector && r.end == before[a].end
    requires (forall b | b in rs && b != a :: b in before && rs[b] == before[b]) && (forall b | b in before && b != a :: b in rs)
    requires a in rs ==> !Parked(rs[a])
    ensures NoLostWakeup(Released(rs, r))
  {
    hide Blocks, HowFor;
    var rs' := Released(rs, r);
    forall c | c in rs' && Parked(rs'[c]) ensures Blocked(rs', c) {
      WokenSame(rs[c], r);
      assert Blocked(before, c);
      var b :| b in before && b != c && Overlap(before[c], before[b]) && Blocks(before[c], before[b], HowFor(before[c]));
      assert b != a;
      WokenSame(rs[b], r);
      assert b in rs' && b != c && Overlap(rs'[c], rs'[b]) && Blocks(rs'[c], rs'[b], HowFor(rs'[c]));
    }
  }

  lemma ReleasedValid(before: Requests, rs: Requests, a: nat, r: Interval)
    requires NoLostWakeup(before) && a in before && r.sector == before[a].sector && r.end == before[a].end
    requires (forall b | b in rs && b != a :: b in before && rs[b] == before[b]) && (forall b | b in before && b != a :: b in rs)
    requires a in rs ==> !Parked(rs[a])
    requires Safe(rs)
    ensures Valid(Released(rs, r))
  {
    hide Parked, HowFor, ShapeOne, Woken, InFlight, Aborted, NoLostWakeup;
    ReleaseKeeps(before, rs, a, r);
    forall b | b in rs ensures InFlight(Woken(rs[b], r)) == InFlight(rs[b]) && Aborted(Woken(rs[b], r)) == Aborted(rs[b])
      && ShapeOne(Woken(rs[b], r)) == ShapeOne(rs[b]) && (Conflict in Woken(rs[b], r).flags <==> Conflict in rs[b].flags) && Woken(rs[b], r).kind == rs[b].kind
      && Woken(rs[b], r).sector == rs[b].sector && Woken(rs[b], r).end == rs[b].end
    {
      WokenSame(rs[b], r);
    }
  }

  // ---- the device ----

  ghost predicate Distinct(order: seq<nat>) {
    forall i, j | 0 <= i < j < |order| :: order[i] != order[j]
  }

  // The outcome of a search: the first conflict, and the verify requests before it marked.
  ghost predicate Found(rs: Requests, rs': Requests, self: nat, x: Interval, how: How, order: seq<nat>, r: Option<nat>, n: nat) {
    && n <= |order|
    && rs'.Keys == rs.Keys
    && (forall a | a in rs :: rs'[a] == if a in order[..n] && a != self && Marks(x, rs[a], how) then WithFlag(rs[a], Conflict) else rs[a])
    && (forall i | 0 <= i < n && order[i] in rs && order[i] != self :: !Blocks(x, rs[order[i]], how))
    && match r
       case None => n == |order|
       case Some(b) => n < |order| && b == order[n] && b in rs && b != self && Blocks(x, rs[b], how)
  }

  // The first `k` were passed.
  ghost predicate Passed(rs: Requests, rs': Requests, self: nat, x: Interval, how: How, order: seq<nat>, k: nat) {
    && k <= |order| && rs'.Keys == rs.Keys
    && (forall a | a in rs :: rs'[a] == if a in order[..k] && a != self && Marks(x, rs[a], how) then WithFlag(rs[a], Conflict) else rs[a])
    && (forall i | 0 <= i < k && order[i] in rs && order[i] != self :: !Blocks(x, rs[order[i]], how))
  }

  lemma PassStart(rs: Requests, self: nat, x: Interval, how: How, order: seq<nat>)
    ensures Passed(rs, rs, self, x, how, order, 0)
  {
  }

  lemma PassOn(rs: Requests, rs': Requests, self: nat, x: Interval, how: How, order: seq<nat>, k: nat)
    requires Passed(rs, rs', self, x, how, order, k) && Distinct(order) && k < |order| && order[k] in rs
    ensures var id := order[k];
            && rs'[id] == rs[id]
            && (id == self || (!Blocks(x, rs[id], how) && !Marks(x, rs[id], how)) ==> Passed(rs, rs', self, x, how, order, k + 1))
            && (id != self && Marks(x, rs[id], how) ==> Passed(rs, rs'[id := WithFlag(rs[id], Conflict)], self, x, how, order, k + 1))
  {
    assert Marks(x, rs[order[k]], how) ==> !Blocks(x, rs[order[k]], how);
    hide Marks, Blocks;
    assert order[k] !in order[..k];
    assert order[..k + 1] == order[..k] + [order[k]];
  }

  lemma PassFound(rs: Requests, rs': Requests, self: nat, x: Interval, how: How, order: seq<nat>, k: nat)
    requires Passed(rs, rs', self, x, how, order, k)
    ensures k == |order| ==> Found(rs, rs', self, x, how, order, None, k)
    ensures k < |order| && order[k] in rs && order[k] != self && Blocks(x, rs[order[k]], how) ==>
              Found(rs, rs', self, x, how, order, Some(order[k]), k)
  {
  }

  // The first in the order of the tree that is in the way.
  ghost predicate First(rs: Requests, self: nat, x: Interval, order: seq<nat>, b: nat) {
    && b in rs && b != self && Blocks(x, rs[b], TO_SUBMIT)
    && exists n ::
      && 0 <= n < |order| && order[n] == b
      && forall i | 0 <= i < n && order[i] in rs && order[i] != self :: !Blocks(x, rs[order[i]], TO_SUBMIT)
  }

  lemma FoundNoted(rs: Requests, rs': Requests, self: nat, x: Interval, how: How, order: seq<nat>, r: Option<nat>, n: nat)
    requires Found(rs, rs', self, x, how, order, r, n)
    ensures Noted(rs, rs')
  {
  }

  lemma FoundFree(rs: Requests, rs': Requests, self: nat, x: Interval, order: seq<nat>, n: nat)
    requires Found(rs, rs', self, x, TO_SUBMIT, order, None, n) && Lists(rs, order, x)
    ensures Free(rs', self, x)
  {
    assert order[..n] == order;
    forall b | b in rs' && b != self && Overlap(x, rs'[b])
      ensures !Blocks(x, rs'[b], TO_SUBMIT) && (Marks(x, rs'[b], TO_SUBMIT) ==> Conflict in rs'[b].flags)
    {
      assert b in order;
      var i :| 0 <= i < |order| && order[i] == b;
      NotedBlocks(x, rs[b], TO_SUBMIT);
    }
  }

  lemma NotedValidBut(rs: Requests, rs': Requests, a: nat, x: Interval)
    requires ValidBut(rs, a, x) && Noted(rs, rs') && (a in rs ==> rs'[a] == rs[a])
    ensures ValidBut(rs', a, x)
  {
    hide Shape, Exclusive, VerifyKnows, Blocked, Parked, ShapeOne;
    NotedSafe(rs, rs');
    forall c | c in rs' && c != a && Parked(rs'[c]) ensures Blocked(rs', c) {
      NotedBlocks(rs[c], rs[c], TO_SUBMIT);
      NotedBlocked(rs, rs', c);
    }
  }

  predicate IsLocal(i: Interval) {
    i.kind.LocalWrite? || i.kind.LocalRead?
  }

  // To the disk, parked, or to be retried with another one.
  datatype Outcome = Went | Waits | Postponed

  class Device {
    var rs: Requests

    constructor ()
      ensures Valid(rs) && rs == map[]
    {
      rs := map[];
    }

    /** The first interval in the way, in the order of the tree. */
    method FindConflict(self: nat, x: Interval, how: How, order: seq<nat>) returns (r: Option<nat>, ghost n: nat)
      requires Distinct(order) && forall a | a in order :: a in rs
      modifies this
      ensures Found(old(rs), rs, self, x, how, order, r, n)
    {
      hide Considered, IsWrite, IsVerify, Passed, Found;
      var k := 0;
      PassStart(rs, self, x, how, order);
      while k < |order|
        invariant 0 <= k <= |order| && Passed(old(rs), rs, self, x, how, order, k) && rs.Keys == old(rs).Keys
      {
        var id := order[k];
        PassOn(old(rs), rs, self, x, how, order, k);
        var i := rs[id];
        if id == self || !Considered(x, i, how) {
        } else if IsWrite(x) {
          if IsVerify(i) {
            rs := rs[id := WithFlag(i, Conflict)];
          } else {
            n := k;
            PassFound(old(rs), rs, self, x, how, order, k);
            return Some(id), n;
          }
        } else if !i.kind.ResyncRead? && !IsVerify(i) && !i.kind.PeersInSyncLock? {
          n := k;
          PassFound(old(rs), rs, self, x, how, order, k);
          return Some(id), n;
        }
        k := k + 1;
      }
      r, n := None, k;
      PassFound(old(rs), rs, self, x, how, order, k);
    }

    /** A local or peer write, new or parked: to the disk if nothing is in the way.  A local
     *  write leaves if what is in the way is one that is to be retried, as it will be then.
     */
    method SubmitWrite(a: nat, new_: Interval, order: seq<nat>, postponed: set<nat>) returns (conflict: Option<nat>, o: Outcome)
      requires Valid(rs) && Distinct(order)
      requires a !in rs ==> (new_.kind.LocalWrite? || new_.kind.PeerWrite?) && new_.flags == {} && Lists(rs, order, new_)
      requires a in rs ==> (rs[a].kind.LocalWrite? || rs[a].kind.PeerWrite?) && Submitted !in rs[a].flags && Lists(rs, order, rs[a])
      modifies this
      ensures Valid(rs) && rs.Keys == (if o.Postponed? then old(rs).Keys - {a} else old(rs).Keys + {a}) && OthersNoted(old(rs), rs, a)
      ensures var x := if a in old(rs) then WithoutFlag(old(rs)[a], ConflictQueued) else new_;
        && (conflict.None? <==> forall b | b in old(rs) && b != a && Overlap(x, old(rs)[b]) :: !Blocks(x, old(rs)[b], TO_SUBMIT))
        && (conflict.Some? ==> First(old(rs), a, x, order, conflict.value))
        && o == (if conflict.None? then Went
                 else if x.kind.LocalWrite? && IsLocal(old(rs)[conflict.value]) && conflict.value in postponed then Postponed
                 else Waits)
        && (!o.Postponed? ==> rs[a] == if o.Went? then WithFlag(x, Submitted) else x)
    {
      hide Valid, Blocks, ValidBut, ShapeOne, HowFor;
      var x := if a in rs then WithoutFlag(rs[a], ConflictQueued) else new_;
      Prepare(rs, a, new_, x);
      conflict := TrySubmit(a, x, order);
      o := if conflict.None? then Went else Waits;
      if conflict.Some? && x.kind.LocalWrite? && IsLocal(rs[conflict.value]) && conflict.value in postponed {
        RemoveLocal(a);
        o := Postponed;
      }
    }

    // Look for conflicts, and submit or park.
    method TrySubmit(a: nat, x: Interval, order: seq<nat>) returns (conflict: Option<nat>)
      requires Valid(rs) && ValidBut(rs, a, x) && ShapeOne(x) && !IsVerify(x) && HowFor(x) == TO_SUBMIT
      requires Distinct(order) && Lists(rs, order, x)
      modifies this
      ensures Valid(rs) && rs.Keys == old(rs).Keys + {a} && OthersNoted(old(rs), rs, a)
      ensures conflict.None? <==> forall b | b in old(rs) && b != a && Overlap(x, old(rs)[b]) :: !Blocks(x, old(rs)[b], TO_SUBMIT)
      ensures conflict.Some? ==> First(old(rs), a, x, order, conflict.value) && old(rs)[conflict.value].kind == rs[conflict.value].kind
      ensures rs[a] == if conflict.None? then WithFlag(x, Submitted) else x
    {
      hide Valid, ValidBut, Found, Blocks, ShapeOne, HowFor, Free;
      assert forall b | b in order :: b in rs;
      ghost var before := rs;
      ghost var n;
      conflict, n := FindConflict(a, x, TO_SUBMIT, order);
      FoundNoted(before, rs, a, x, TO_SUBMIT, order, conflict, n);
      SelfKept(before, rs, a, x, TO_SUBMIT, order, conflict, n);
      NotedValidBut(before, rs, a, x);
      FoundFirst(before, rs, a, x, order, conflict, n);
      FoundExactly(before, rs, a, x, TO_SUBMIT, order, conflict, n);
      if conflict.None? {
        FoundFree(before, rs, a, x, order, n);
        SubmitKeeps(rs, a, x);
        rs := rs[a := WithFlag(x, Submitted)];
      } else {
        ParkKeeps(rs, a, x, conflict.value);
        rs := rs[a := x];
      }
    }

    /** A resync request is sent unless something is in the way; writes of the same peer are not. */
    method SendResync(a: nat, new_: Interval, order: seq<nat>) returns (ok: bool)
      requires Valid(rs) && Distinct(order)
      requires a !in rs ==> new_.kind.ResyncWrite? && new_.flags == {} && Lists(rs, order, new_)
      requires a in rs ==> rs[a].kind.ResyncWrite? && Lists(rs, order, rs[a]) &&
                           Submitted !in rs[a].flags && ReadyToSend !in rs[a].flags && Received !in rs[a].flags
      modifies this
      ensures Valid(rs) && rs.Keys == old(rs).Keys + {a} && OthersNoted(old(rs), rs, a)
      ensures ok <==> forall b | b in old(rs) && b != a && Overlap(rs[a], old(rs)[b]) :: !Blocks(rs[a], old(rs)[b], TO_SEND)
      ensures rs[a].flags == (if a in old(rs) then old(rs)[a].flags - {ConflictQueued} else {}) + if ok then {ReadyToSend} else {}
    {
      hide Valid, Blocks;
      var x := if a in rs then WithoutFlag(rs[a], ConflictQueued) else new_;
      if a in rs { ShapeAt(rs, a); }
      assert ValidBut(rs, a, x) by { Begin(rs, a, x); }
      ok := TrySend(a, x, order);
      ReadyBlocks(x);
    }

    method TrySend(a: nat, x: Interval, order: seq<nat>) returns (ok: bool)
      requires ValidBut(rs, a, x) && ShapeOne(x) && x.kind.ResyncWrite? && ReadyToSend !in x.flags && Received !in x.flags
      requires Distinct(order) && Lists(rs, order, x)
      modifies this
      ensures Valid(rs) && rs.Keys == old(rs).Keys + {a} && OthersNoted(old(rs), rs, a)
      ensures ok <==> forall b | b in old(rs) && b != a && Overlap(x, old(rs)[b]) :: !Blocks(x, old(rs)[b], TO_SEND)
      ensures rs[a] == if ok then WithFlag(x, ReadyToSend) else x
    {
      hide Valid, ValidBut, Found, Blocks, Free;
      assert forall b | b in order :: b in rs;
      ghost var before := rs;
      var conflict, n := FindConflict(a, x, TO_SEND, order);
      FoundNoted(before, rs, a, x, TO_SEND, order, conflict, n);
      SelfKept(before, rs, a, x, TO_SEND, order, conflict, n);
      NotedValidBut(before, rs, a, x);
      FoundExactly(before, rs, a, x, TO_SEND, order, conflict, n);
      if conflict.None? {
        SendKeeps(rs, a, x);
        rs := rs[a := WithFlag(x, ReadyToSend)];
        ok := true;
      } else {
        ParkKeeps(rs, a, x, conflict.value);
        rs := rs[a := x];
        ok := false;
      }
    }

    /** The reply to a resync request is there: write it if nothing is in the way. */
    method SubmitResync(a: nat, order: seq<nat>) returns (ok: bool)
      requires Valid(rs) && Distinct(order) && a in rs && rs[a].kind.ResyncWrite?
      requires Submitted !in rs[a].flags && ReadyToSend in rs[a].flags && Lists(rs, order, rs[a])
      modifies this
      ensures Valid(rs) && rs.Keys == old(rs).Keys && OthersNoted(old(rs), rs, a)
      ensures ok <==> forall b | b in old(rs) && b != a && Overlap(rs[a], old(rs)[b]) :: !Blocks(rs[a], old(rs)[b], TO_SUBMIT)
      ensures rs[a].flags == old(rs)[a].flags - {ConflictQueued} + {Received} + if ok then {Submitted} else {}
    {
      hide Valid, Blocks;
      var x := WithFlag(WithoutFlag(rs[a], ConflictQueued), Received);
      ShapeAt(rs, a);
      assert ValidBut(rs, a, x) by { Begin(rs, a, x); }
      var conflict := TrySubmit(a, x, order);
      ok := conflict.None?;
      SubmittedBlocks(x);
    }

    /** A resync read waits for writes; a verify request on the target goes ahead. */
    method SubmitRead(a: nat, new_: Interval, order: seq<nat>) returns (ok: bool)
      requires Valid(rs) && Distinct(order)
      requires a !in rs ==> (new_.kind.ResyncRead? || IsVerify(new_)) && new_.flags == {} && Lists(rs, order, new_)
      requires a in rs ==> rs[a].kind.ResyncRead? && Submitted !in rs[a].flags && Lists(rs, order, rs[a])
      modifies this
      ensures Valid(rs) && rs.Keys == old(rs).Keys + {a} && OthersNoted(old(rs), rs, a)
      ensures !IsVerify(rs[a]) ==>
        (ok <==> forall b | b in old(rs) && b != a && Overlap(rs[a], old(rs)[b]) :: !Blocks(rs[a], old(rs)[b], TO_SUBMIT))
      ensures ok <==> Submitted in rs[a].flags
      ensures IsVerify(rs[a]) ==> ok
    {
      hide Valid, Blocks, ValidBut, ShapeOne, HowFor, First;
      if a !in rs && IsVerify(new_) {
        Verify(a, new_, order);
        return true;
      }
      var x := if a in rs then WithoutFlag(rs[a], ConflictQueued) else new_;
      Prepare(rs, a, new_, x);
      var isNew := a !in rs;
      var conflict := TrySubmit(a, x, order);
      ok := conflict.None?;
      SubmittedBlocks(x);
      if isNew && !ok {
        ghost var before := rs;
        NotedBlocks(rs[a], rs[a], TO_SUBMIT);
        ConflictBlocks(x);
        rs := rs[a := WithFlag(rs[a], Conflict)];
        assert Valid(rs) by { NotedKeeps(before, rs); }
      }
    }

    /** A verify request: it counts as submitted at once, and knows if a write was in the way. */
    method Verify(a: nat, new_: Interval, order: seq<nat>)
      requires Valid(rs) && Distinct(order) && a !in rs && IsVerify(new_) && new_.flags == {} && Lists(rs, order, new_)
      modifies this
      ensures Valid(rs) && rs.Keys == old(rs).Keys + {a} && OthersNoted(old(rs), rs, a) && rs[a].kind == new_.kind && Submitted in rs[a].flags
      ensures Conflict in rs[a].flags <==> exists b :: b in old(rs) && Overlap(new_, old(rs)[b]) && Blocks(new_, old(rs)[b], TO_SUBMIT)
    {
      hide Valid, Found, Blocks;
      assert forall b | b in order :: b in rs;
      ghost var before := rs;
      var conflict, n := FindConflict(a, new_, TO_SUBMIT, order);
      FoundNoted(before, rs, a, new_, TO_SUBMIT, order, conflict, n);
      FoundExactly(before, rs, a, new_, TO_SUBMIT, order, conflict, n);
      NotedKeeps(before, rs);
      var x := if conflict.Some? then WithFlag(new_, Conflict) else new_;
      if x.kind.OvReadSource? { x := WithFlag(x, ReadyToSend); }
      x := WithFlag(x, Submitted);
      if conflict.None? { StillFree(before, rs, new_, x); }
      VerifyKeeps(rs, a, x);
      rs := rs[a := x];
    }

    /** Hold off writes for a moment, if none is there. */
    method LockPeersInSync(a: nat, new_: Interval, order: seq<nat>) returns (ok: bool)
      requires Valid(rs) && Distinct(order) && a !in rs && new_.kind.PeersInSyncLock? && new_.flags == {} && Lists(rs, order, new_)
      modifies this
      ensures Valid(rs) && OthersNoted(old(rs), rs, a) && (ok ==> rs.Keys == old(rs).Keys + {a} && rs[a] == WithFlag(new_, Submitted))
      ensures ok <==> forall b | b in old(rs) && Overlap(new_, old(rs)[b]) :: !Blocks(new_, old(rs)[b], TO_SUBMIT)
      ensures !ok ==> rs.Keys == old(rs).Keys
    {
      hide Valid, Found, Blocks;
      assert forall b | b in order :: b in rs;
      assert ValidBut(rs, a, new_) by { Begin(rs, a, new_); }
      ghost var before := rs;
      var conflict, n := FindConflict(a, new_, TO_SUBMIT, order);
      FoundNoted(before, rs, a, new_, TO_SUBMIT, order, conflict, n);
      FoundExactly(before, rs, a, new_, TO_SUBMIT, order, conflict, n);
      NotedKeeps(before, rs);
      if conflict.Some? { return false; }
      FoundFree(before, rs, a, new_, order, n);
      NotedValidBut(before, rs, a, new_);
      SubmitKeeps(rs, a, new_);
      rs := rs[a := WithFlag(new_, Submitted)];
      ok := true;
    }

    // drbd_release_conflicts(): `order` lists what overlaps the interval that is released.
    method Release(r: Interval, order: seq<nat>)
      requires Distinct(order) && Lists(rs, order, r)
      modifies this
      ensures rs == Released(old(rs), r)
    {
      var k := 0;
      while k < |order|
        invariant k <= |order| && rs.Keys == old(rs).Keys
        invariant forall a | a in rs :: rs[a] == if a in order[..k] then Woken(old(rs)[a], r) else old(rs)[a]
      {
        var id := order[k];
        assert id in order && id !in order[..k];
        assert order[..k + 1] == order[..k] + [id];
        var i := rs[id];
        if Submitted in i.flags || (ReadyToSend in i.flags && Received !in i.flags) {
        } else if ConflictQueued in i.flags || IsVerify(i) {
        } else {
          rs := rs[id := WithFlag(i, ConflictQueued)];
        }
        k := k + 1;
      }
      assert order[..k] == order;
      assert rs == Released(old(rs), r);
    }

    /** The disk is done with a local write. */
    method BackingComplete(a: nat, order: seq<nat>)
      requires Valid(rs) && a in rs && rs[a].kind.LocalWrite? && Submitted in rs[a].flags
      requires Distinct(order) && Lists(rs, order, rs[a])
      modifies this
      ensures Valid(rs) && rs == Released(old(rs)[a := WithFlag(old(rs)[a], BackingCompleted)], old(rs)[a])
    {
      hide NoLostWakeup, Blocks, Woken;
      ghost var before := rs;
      var i := rs[a];
      rs := rs[a := WithFlag(i, BackingCompleted)];
      ReleasedValid(before, rs, a, i);
      assert Lists(rs, order, i) by { Relist(before, rs, order, a, i); }
      Release(i, order);
    }

    /** The upper layers have heard of a local write, which the disk may still work on if it
     *  was aborted.
     */
    method Complete(a: nat, order: seq<nat>)
      requires Valid(rs) && a in rs && rs[a].kind.LocalWrite? && Submitted in rs[a].flags
      requires Distinct(order) && Lists(rs, order, rs[a])
      modifies this
      ensures Valid(rs) && rs == Released(old(rs)[a := WithFlag(old(rs)[a], Completed)], old(rs)[a])
    {
      hide NoLostWakeup, Blocks, Woken;
      ghost var before := rs;
      var i := rs[a];
      rs := rs[a := WithFlag(i, Completed)];
      ReleasedValid(before, rs, a, i);
      assert Lists(rs, order, i) by { Relist(before, rs, order, a, i); }
      Release(i, order);
    }

    /** A peer request is done, or given up; what waited for it is looked at again. */
    method RemovePeer(a: nat, order: seq<nat>)
      requires Valid(rs) && a in rs && !rs[a].kind.LocalWrite?
      requires Distinct(order) && Lists(rs - {a}, order, rs[a])
      modifies this
      ensures Valid(rs) && rs == if IsVerify(old(rs)[a]) then old(rs) - {a} else Released(old(rs) - {a}, old(rs)[a])
    {
      hide Blocks, Woken;
      ghost var before := rs;
      var i := rs[a];
      rs := rs - {a};
      if IsVerify(i) {
        assert NoLostWakeup(rs) by { VerifyGone(before, a); }
        return;
      }
      assert Valid(Released(rs, i)) by { ReleasedValid(before, rs, a, i); }
      Release(i, order);
    }

    /** A local write leaves the tree, and nobody is woken. */
    method RemoveLocal(a: nat)
      requires Valid(rs) && a in rs && rs[a].kind.LocalWrite?
      modifies this
      ensures rs == old(rs) - {a} && Safe(rs)
      ensures LeavesQuietly(old(rs)[a]) ==> Valid(rs)
    {
      hide Blocks;
      if LeavesQuietly(rs[a]) { QuietlyGone(rs, a); }
      rs := rs - {a};
    }
  }

  lemma ShapeAt(rs: Requests, a: nat)
    requires Valid(rs) && a in rs
    ensures ShapeOne(rs[a])
  {
  }

  lemma Begin(rs: Requests, a: nat, x: Interval)
    requires Valid(rs) && ShapeOne(WithFlag(x, Submitted)) && Submitted !in x.flags && Completed !in x.flags && BackingCompleted !in x.flags
    requires a in rs ==> Submitted !in rs[a].flags && rs[a].kind == x.kind && rs[a].peer == x.peer
                         && rs[a].sector == x.sector && rs[a].end == x.end && rs[a].flags - {ConflictQueued} <= x.flags
    ensures ValidBut(rs, a, x)
  {
  }

  lemma Prepare(rs: Requests, a: nat, new_: Interval, x: Interval)
    requires Valid(rs) && x == if a in rs then WithoutFlag(rs[a], ConflictQueued) else new_
    requires x.kind.LocalWrite? || x.kind.PeerWrite? || x.kind.ResyncRead?
    requires if a in rs then Submitted !in rs[a].flags else new_.flags == {}
    ensures ValidBut(rs, a, x) && ShapeOne(x) && !IsVerify(x) && HowFor(x) == TO_SUBMIT
  {
    if a in rs { ShapeAt(rs, a); }
    hide Valid;
    Begin(rs, a, x);
  }

  lemma ReadyBlocks(x: Interval)
    ensures forall i :: Blocks(WithFlag(x, ReadyToSend), i, TO_SEND) == Blocks(x, i, TO_SEND)
  {
  }

  lemma ConflictBlocks(x: Interval)
    ensures forall i :: Blocks(WithFlag(x, Conflict), i, TO_SUBMIT) == Blocks(x, i, TO_SUBMIT)
  {
  }

  lemma SubmittedBlocks(x: Interval)
    ensures forall i :: Blocks(WithFlag(x, Submitted), i, TO_SUBMIT) == Blocks(x, i, TO_SUBMIT)
  {
  }

  lemma StillFree(rs: Requests, rs': Requests, x: Interval, x': Interval)
    requires Noted(rs, rs') && x'.kind == x.kind && x'.peer == x.peer && x'.sector == x.sector && x'.end == x.end
    requires forall b | b in rs && Overlap(x, rs[b]) :: !Blocks(x, rs[b], TO_SUBMIT)
    ensures forall b | b in rs' && Overlap(x', rs'[b]) :: !Blocks(x', rs'[b], TO_SUBMIT)
  {
    forall b | b in rs' && Overlap(x', rs'[b]) ensures !Blocks(x', rs'[b], TO_SUBMIT) {
      assert !Blocks(x, rs[b], TO_SUBMIT);
      NotedBlocks(x, rs[b], TO_SUBMIT);
    }
  }

  lemma Relist(rs: Requests, rs': Requests, order: seq<nat>, a: nat, r: Interval)
    requires Lists(rs, order, r) && a in rs && rs'.Keys == rs.Keys && (forall b | b in rs && b != a :: rs'[b] == rs[b])
    requires rs'[a].sector == rs[a].sector && rs'[a].end == rs[a].end
    ensures Lists(rs', order, r)
  {
  }

  // Nobody waits for a verify request.
  lemma VerifyGone(rs: Requests, a: nat)
    requires NoLostWakeup(rs) && a in rs && IsVerify(rs[a])
    ensures NoLostWakeup(rs - {a})
  {
    Gone(rs, a);
  }

  // Done with the disk and completed, or never submitted.
  predicate LeavesQuietly(i: Interval) {
    Submitted !in i.flags || (BackingCompleted in i.flags && Completed in i.flags)
  }

  lemma QuietlyGone(rs: Requests, a: nat)
    requires NoLostWakeup(rs) && Shape(rs) && a in rs && rs[a].kind.LocalWrite? && LeavesQuietly(rs[a])
    ensures NoLostWakeup(rs - {a})
  {
    Gone(rs, a);
  }

  /** No wakeup is lost by that, whatever else is in the tree, exactly if the disk was done
   *  with the write and it was completed, or if it was never submitted.
   */
  lemma LeavesExactly(i: Interval)
    requires i.kind.LocalWrite? && ShapeOne(i) && i.sector < i.end
    ensures (forall rs, a | Valid(rs) && a in rs && rs[a] == i :: NoLostWakeup(rs - {a})) <==> LeavesQuietly(i)
  {
    hide Blocks;
    if LeavesQuietly(i) {
      forall rs, a | Valid(rs) && a in rs && rs[a] == i ensures NoLostWakeup(rs - {a}) { QuietlyGone(rs, a); }
    } else {
      Misses(i);
    }
  }

  // Who waits for it then.
  lemma Misses(i: Interval)
    requires i.kind.LocalWrite? && ShapeOne(i) && i.sector < i.end && !LeavesQuietly(i)
    ensures exists rs, a :: Valid(rs) && a in rs && rs[a] == i && !NoLostWakeup(rs - {a})
  {
    var y := Interval(i.sector, i.end, if Completed !in i.flags then LocalWrite else PeerWrite, 0, {});
    var rs := map[0 := i, 1 := y];
    assert Blocked(rs, 1) by { assert 0 in rs && 0 != 1 && Overlap(rs[1], rs[0]) && Blocks(rs[1], rs[0], HowFor(rs[1])); }
    assert Parked((rs - {0})[1]) && !Blocked(rs - {0}, 1);
    assert Valid(rs) && 0 in rs && rs[0] == i && !NoLostWakeup(rs - {0});
  }

  lemma Gone(rs: Requests, a: nat)
    requires NoLostWakeup(rs) && a in rs && forall x, how | how == TO_SEND || how == TO_SUBMIT :: !Blocks(x, rs[a], how)
    ensures NoLostWakeup(rs - {a})
  {
    hide Blocks;
    var rs' := rs - {a};
    forall c | c in rs' && Parked(rs'[c]) ensures Blocked(rs', c) {
      assert Blocked(rs, c);
      var b :| b in rs && b != c && Overlap(rs[c], rs[b]) && Blocks(rs[c], rs[b], HowFor(rs[c]));
      assert b in rs' && b != c && Overlap(rs'[c], rs'[b]) && Blocks(rs'[c], rs'[b], HowFor(rs'[c]));
    }
  }

  lemma FoundFirst(rs: Requests, rs': Requests, self: nat, x: Interval, order: seq<nat>, r: Option<nat>, n: nat)
    requires Found(rs, rs', self, x, TO_SUBMIT, order, r, n) && (forall a | a in order :: a in rs)
    ensures r.Some? ==> First(rs, self, x, order, r.value) && r.value in rs' && rs'[r.value].kind == rs[r.value].kind
  {
    hide Blocks, Marks;
    if r.Some? { assert order[n] == r.value; }
  }

  lemma SelfKept(rs: Requests, rs': Requests, self: nat, x: Interval, how: How, order: seq<nat>, r: Option<nat>, n: nat)
    requires Found(rs, rs', self, x, how, order, r, n)
    ensures self in rs ==> rs'[self] == rs[self]
  {
  }

  lemma FoundExactly(rs: Requests, rs': Requests, self: nat, x: Interval, how: How, order: seq<nat>, r: Option<nat>, n: nat)
    requires Found(rs, rs', self, x, how, order, r, n) && Lists(rs, order, x)
    ensures r.None? <==> forall b | b in rs && b != self && Overlap(x, rs[b]) :: !Blocks(x, rs[b], how)
    ensures r.Some? ==> r.value in rs' && r.value != self && Overlap(x, rs'[r.value]) && Blocks(x, rs'[r.value], how)
  {
    if r.Some? {
      NotedBlocks(x, rs[r.value], how);
      assert order[n] in order;
    } else {
      forall b | b in rs && b != self && Overlap(x, rs[b]) ensures !Blocks(x, rs[b], how) { assert b in order; }
    }
  }

  // ---- an aborted write ----

  /** A run to two overlapping writes on the disk: the first one is completed to the upper
   *  layers before the disk is done with it.
   */
  method AbortedOverlap() returns (d: Device)
    ensures Valid(d.rs) && !StrictlyExclusive(d.rs)
  {
    hide Valid, NoLostWakeup;
    var x := Interval(0, 8, LocalWrite, 0, {});
    d := new Device();
    var conflict, o := d.SubmitWrite(0, x, [], {});
    assert d.rs == map[0 := WithFlag(x, Submitted)];
    assert [0][0] == 0;
    d.Complete(0, [0]);
    assert Aborted(d.rs[0]) && d.rs.Keys == {0};
    assert !Blocks(x, d.rs[0], TO_SUBMIT);
    conflict, o := d.SubmitWrite(1, x, [0], {});
    assert d.rs.Keys == {0, 1} && Overlap(d.rs[0], d.rs[1]);
  }

  // ---- the tree behind it ----

  // The tree holds these intervals, each with its own identity.
  ghost predicate InTree(t: IntervalTree.Tree, rs: Requests) {
    && IntervalTree.Valid(t)
    && (forall i | i in IntervalTree.InOrder(t) :: i.id in rs && rs[i.id].sector == i.sector && rs[i.id].end == IntervalTree.End(i))
    && (forall a | a in rs :: exists i :: i in IntervalTree.InOrder(t) && i.id == a)
    && (forall i, j | i in IntervalTree.InOrder(t) && j in IntervalTree.InOrder(t) && i.id == j.id :: i == j)
  }

  function Ids(s: seq<IntervalTree.Interval>): seq<nat> {
    seq(|s|, k requires 0 <= k < |s| => s[k].id)
  }

  lemma FoundOnce(t: IntervalTree.Tree, rs: Requests, found: seq<IntervalTree.Interval>, x: Interval)
    requires InTree(t, rs) && IntervalTree.Sorted(found)
    requires forall i :: i in found <==> i in IntervalTree.InOrder(t) && IntervalTree.Overlaps(i, x.sector, x.end)
    ensures Lists(rs, Ids(found), x) && Distinct(Ids(found))
  {
    hide IntervalTree.Valid, IntervalTree.InOrder;
    forall k, l | 0 <= k < l < |found| ensures found[k].id != found[l].id {
      assert found[k] in found && found[l] in found && IntervalTree.Less(found[k], found[l]);
    }
    forall a ensures a in Ids(found) <==> a in rs && Overlap(rs[a], x) {
      if a in rs && Overlap(rs[a], x) {
        var i :| i in IntervalTree.InOrder(t) && i.id == a;
        var k :| 0 <= k < |found| && found[k] == i;
        assert Ids(found)[k] == a;
      }
      if a in Ids(found) {
        var k :| 0 <= k < |found| && found[k].id == a;
        assert found[k] in found;
      }
    }
  }

  lemma OverlapsListed(t: IntervalTree.Tree, rs: Requests, x: Interval)
    requires InTree(t, rs)
    ensures var order := Ids(IntervalTree.Overlapping(IntervalTree.InOrder(t), x.sector, x.end)); Lists(rs, order, x) && Distinct(order)
  {
    hide IntervalTree.InOrder, Lists, Distinct, Ids;
    var all := IntervalTree.InOrder(t);
    var found := IntervalTree.Overlapping(all, x.sector, x.end);
    forall i ensures i in found <==> i in all && IntervalTree.Overlaps(i, x.sector, x.end) {
      IntervalTree.ScanExact(all, x.sector, x.end, i);
    }
    IntervalTree.ScanExact(all, x.sector, x.end, IntervalTree.Interval(0, 0, 0));
    FoundOnce(t, rs, found, x);
  }

  /** The iteration over the tree gives the list that all the operations take. */
  method OverlapOrder(t: IntervalTree.Tree, ghost rs: Requests, x: Interval, size: nat) returns (order: seq<nat>)
    requires InTree(t, rs) && x.end == x.sector + size / 512
    ensures Lists(rs, order, x) && Distinct(order)
  {
    assert IntervalTree.Valid(t);
    hide InTree, Lists, Distinct, IntervalTree.Valid, IntervalTree.InOrder, IntervalTree.Overlapping;
    var found := IntervalTree.ForEachOverlap(t, x.sector, size);
    order := Ids(found);
    OverlapsListed(t, rs, x);
  }

  /** Insertion keeps tree and intervals in step: a new interval is never taken for another. */
  method InsertInTree(t: IntervalTree.Tree, ghost rs: Requests, a: nat, x: Interval, size: nat, turns: seq<IntervalTree.Turn>)
    returns (t': IntervalTree.Tree)
    requires InTree(t, rs) && a !in rs && x.end == x.sector + size / 512
    ensures InTree(t', rs[a := x])
  {
    hide InTree, IntervalTree.Sorted, IntervalTree.Augmented, IntervalTree.InOrder;
    var i := IntervalTree.Interval(x.sector, size, a);
    NewInTree(t, rs, i);
    var ok;
    t', ok := IntervalTree.Insert(t, i, turns);
    InsertedInTree(t, rs, x, i, t');
  }

  lemma NewInTree(t: IntervalTree.Tree, rs: Requests, i: IntervalTree.Interval)
    requires InTree(t, rs) && i.id !in rs
    ensures IntervalTree.Valid(t) && forall j | j in IntervalTree.InOrder(t) :: IntervalTree.Less(i, j) || IntervalTree.Less(j, i)
  {
    hide IntervalTree.Valid, IntervalTree.InOrder;
  }

  lemma InsertedInTree(t: IntervalTree.Tree, rs: Requests, x: Interval, i: IntervalTree.Interval, t': IntervalTree.Tree)
    requires InTree(t, rs) && i.id !in rs && x.sector == i.sector && x.end == IntervalTree.End(i) && IntervalTree.Valid(t')
    requires exists k :: 0 <= k <= |IntervalTree.InOrder(t)| &&
                         IntervalTree.InOrder(t') == IntervalTree.InOrder(t)[..k] + [i] + IntervalTree.InOrder(t)[k..]
    ensures InTree(t', rs[i.id := x])
  {
    hide IntervalTree.Valid, IntervalTree.InOrder;
    var all, all' := IntervalTree.InOrder(t), IntervalTree.InOrder(t');
    var k :| 0 <= k <= |all| && all' == all[..k] + [i] + all[k..];
    assert all == all[..k] + all[k..];
    assert forall j :: j in all' <==> j == i || j in all;
    assert i in all';
    forall b | b in rs ensures exists j :: j in all' && j.id == b {
      var j :| j in all && j.id == b;
      assert j in all';
    }
  }
}
