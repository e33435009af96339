/** Crash safety with the log area and the hints as they are.
 *
 * `CrashSafety` takes the extents of the on-disk log and the pages hinted by a transaction
 * as sets.  Here every write of the log puts a record into the ring, and the hints are those
 * that marking the leaving extents collects.
 */
module CrashRecovery {
  import opened ActLog
  import opened BitmapLayout
  import BitmapHints
  import opened CrashSafety
  import opened LogReplay

  /** The log area, with all that was ever written to it. */
  datatype Area = Area(stripes: nat, stripeSize: nat, ring: seq<Record>, base: nat, log: seq<Record>, maps: seq<seq<int>>)

  ghost predicate Kept(a: Area, nr: nat) {
    && InRing(a.ring, a.stripes, a.stripeSize, a.base, a.log) && History(nr, a.maps, a.log)
    && Rounds(nr) <= |a.log| && Rounds(nr) < a.stripes * a.stripeSize
  }

  // The last record leads to the slots as they are, or as they are about to be.
  ghost predicate InStep(a: Area, s: State) {
    Kept(a, |s.lc|) && a.maps[|a.log|] == if s.tr.Written? then NewNumberSeq(s.lc) else NumberSeq(s.lc)
  }

  // One more record, which takes the slots to their new numbers.
  ghost predicate Logs(a: Area, a': Area, lc: Cache, r: Record) {
    && Kept(a, |lc|) && Takes(r, NumberSeq(lc), NewNumberSeq(lc)) && Block0(r.start, |lc|)
    && (a.log != [] ==> r.start == NextCycle(a.log[|a.log| - 1].start, |lc|))
    && a' == a.(ring := a.ring[RingBlock(a.base + |a.log|, a.stripes, a.stripeSize) := r],
                log := a.log + [r], maps := a.maps + [NewNumberSeq(lc)])
  }

  ghost predicate AreaStep(a: Area, a': Area, s: State, step: Step) {
    if step.WriteLog? then exists r :: Logs(a, a', s.lc, r) else a' == a
  }

  ghost predicate Runs(g: Geometry, s: State, a: Area, steps: seq<Step>, s': State, a': Area)
    requires Sane(g)
    decreases |steps|
  {
    if steps == [] then s' == s && a' == a
    else Enabled(g, s, steps[0]) && exists a1 :: AreaStep(a, a1, s, steps[0]) && Runs(g, Apply(g, s, steps[0]), a1, steps[1..], s', a')
  }

  ghost function AreaOf(j: Journal): Area
    reads j, j.ring
  {
    Area(j.stripes, j.stripeSize, j.ring[..], j.base, j.log, j.maps)
  }

  /** The journal's transaction is such a record. */
  method WriteRecord(j: Journal)
    requires j.Valid() && j.maps[|j.log|] == NumberSeq(j.lc)
    requires Rounds(|j.lc|) <= |j.log| && Rounds(|j.lc|) < j.stripes * j.stripeSize
    modifies j, j.ring
    ensures j.Valid() && j.lc == old(j.lc) && j.ring == old(j.ring)
    ensures exists r :: Logs(old(AreaOf(j)), AreaOf(j), j.lc, r)
  {
    hide RingBlock, Takes, Rounds;
    ghost var before, k := AreaOf(j), |j.log|;
    j.WriteTransaction();
    ghost var r := j.log[k];
    assert j.log == before.log + [r];
    assert Takes(r, j.maps[k], j.maps[k + 1]);
    assert j.ring[..] == before.ring[RingBlock(before.base + k, j.stripes, j.stripeSize) := r];
    assert Logs(before, AreaOf(j), j.lc, r);
  }

  // ---- the slots along a run ----

  lemma LogsKept(a: Area, a': Area, lc: Cache, r: Record)
    requires Logs(a, a', lc, r) && a.maps[|a.log|] == NumberSeq(lc)
    ensures Kept(a', |lc|) && a'.maps[|a'.log|] == NewNumberSeq(lc)
  {
    hide RingBlock, Takes, Rounds;
    RingExtended(a.ring, a.stripes, a.stripeSize, a.base, a.log, r);
    Extended(|lc|, a.maps, a.log, r, NewNumberSeq(lc));
  }

  lemma AreaKeeps(g: Geometry, s: State, a: Area, step: Step, a': Area)
    requires Sane(g) && Enabled(g, s, step) && InStep(a, s) && AreaStep(a, a', s, step)
    ensures InStep(a', Apply(g, s, step))
  {
    hide Kept, Marked, StartWrite, Gets, Puts, Logs, ValidReq, Evicted, Page, Extent, UnderWay;
    match step
    case Fastpath(k, lc) => HitNumbers(s.lc, lc, s.reqs[k].first);
    case Nonblock(k, lc, next, complete) =>
      GetsNumbers(s.lc, lc, Resume(s.reqs[k]), if complete then s.reqs[k].last + 1 else Resume(s.reqs[k].(next := next)));
      assert NumberSeq(lc) == NumberSeq(s.lc);
    case Done(k, ok, inSync, lc) =>
      PutsNumbers(s.lc, lc, s.reqs[k].first, s.reqs[k].last + 1);
      assert NumberSeq(lc) == NumberSeq(s.lc);
      MarkedFrame(g, s, step);
    case WriteLog =>
      var r :| Logs(a, a', s.lc, r);
      LogsKept(a, a', s.lc, r);
    case Commit => Unchanging(s.lc);
    case _ => MarkedFrame(g, s, step);
  }

  lemma MarkedFrame(g: Geometry, s: State, step: Step)
    requires Sane(g) && Enabled(g, s, step)
    ensures var s' := Apply(g, s, step);
            (step.SetInSync? || step.SetOutOfSync? || step.WriteHinted? || step.WriteLazy? || step.WritePage? ==> s'.lc == s.lc)
            && (step.Done? ==> s'.lc == step.lc) && (!step.WriteLog? && !step.Commit? ==> s'.tr.Written? == s.tr.Written?)
  {
    hide PagesOf, Snapshot, Blocks, On, UnderWay, Page, Extent, Evicted;
  }

  lemma {:induction false} RunKeeps(g: Geometry, s: State, a: Area, steps: seq<Step>, s': State, a': Area)
    requires Sane(g) && LogInv(g, s) && InStep(a, s) && Runs(g, s, a, steps, s', a')
    ensures LogInv(g, s') && InStep(a', s') && Reaches(g, s, steps, s')
    decreases |steps|
  {
    hide LogInv, InStep, Enabled, Apply, AreaStep;
    if steps != [] {
      var a1 :| AreaStep(a, a1, s, steps[0]) && Runs(g, Apply(g, s, steps[0]), a1, steps[1..], s', a');
      LogStepKeeps(g, s, steps[0]);
      AreaKeeps(g, s, a, steps[0], a1);
      RunKeeps(g, Apply(g, s, steps[0]), a1, steps[1..], s', a');
    }
  }

  // ---- after a crash ----

  function Extents(m: seq<int>): set<int> {
    set j | 0 <= j < |m| && m[j] != LC_FREE :: m[j]
  }

  lemma ExtentsOf(lc: Cache)
    ensures Extents(NumberSeq(lc)) == Numbers(lc) && Extents(NewNumberSeq(lc)) == NewNumbers(lc)
  {
    forall x ensures x in Extents(NumberSeq(lc)) <==> x in Numbers(lc) {
      if x in Numbers(lc) {
        var i :| 0 <= i < |lc| && lc[i].number == x && x != LC_FREE;
        assert NumberSeq(lc)[i] == x;
      }
    }
    forall x ensures x in Extents(NewNumberSeq(lc)) <==> x in NewNumbers(lc) {
      if x in NewNumbers(lc) {
        var i :| 0 <= i < |lc| && lc[i].newNumber == x && x != LC_FREE;
        assert NewNumberSeq(lc)[i] == x;
      }
    }
  }

  // The records that are read back, whatever a write under way has left in its block.
  ghost function ReadBack(a: Area, nr: nat, torn: Record): seq<Record>
    requires Kept(a, nr)
  {
    var next := a.base + |a.log|;
    Recent(Damaged(a.ring, a.stripes, a.stripeSize, next, torn), a.stripes, a.stripeSize, next, Rounds(nr))
  }

  /** In every run, a crash at any moment, also one that damages the block being written,
   *  leaves a ring from which replay gets exactly the extents that count as logged.
   */
  lemma ReplayIsDiskLog(g: Geometry, s0: State, a0: Area, steps: seq<Step>, s: State, a: Area, torn: Record, m: seq<int>)
    requires Sane(g) && Attached(g, s0) && InStep(a0, s0) && Runs(g, s0, a0, steps, s, a) && |m| == |s.lc|
    ensures Kept(a, |s.lc|)
    ensures exists m' :: Yields(ReadBack(a, |s.lc|, torn), m, m') && Extents(m') == s.diskLog
  {
    hide Attached, Runs, Yields, Recent, Damaged, Replay, History, InRing;
    AttachedInv(g, s0);
    RunKeeps(g, s0, a0, steps, s, a);
    Recovery(a.ring, a.stripes, a.stripeSize, a.base, a.log, |s.lc|, a.maps, torn, m);
    ExtentsOf(s.lc);
  }

  /** So, in every run that never writes the log while an owed block of a leaving extent
   *  depends on an unfinished page write, recovery from a crash at its end finds each owed
   *  block in an extent that replay yields, or its bit in the on-disk bitmap.
   */
  lemma CrashRecovers(g: Geometry, s0: State, a0: Area, steps: seq<Step>, s: State, a: Area, torn: Record, m: seq<int>)
    requires Sane(g) && Attached(g, s0) && InStep(a0, s0) && Runs(g, s0, a0, steps, s, a) && |m| == |s.lc|
    requires WritesInOrder(g, s0, steps)
    ensures Kept(a, |s.lc|)
    ensures exists m' :: Yields(ReadBack(a, |s.lc|, torn), m, m') &&
                         forall b | b in s.owed :: Extent(g, b) in Extents(m') || Durable(g, s, b)
  {
    hide Attached, Runs, Yields, ReadBack, Kept, WritesInOrder, SafeThroughout, Durable, Extent, Extents, LogInv, InStep, Reaches;
    ReplayIsDiskLog(g, s0, a0, steps, s, a, torn, m);
    assert Reaches(g, s0, steps, s) by {
      assert LogInv(g, s0) by { AttachedInv(g, s0); }
      RunKeeps(g, s0, a0, steps, s, a);
    }
    CrashSafeExactly(g, s0, steps, s);
    SafeAtEnd(g, s0, steps, s);
  }

  // ---- the hints ----

  // The extents that leave, as the loop over the slots to be changed finds them.
  ghost predicate Leaving(lc: Cache, changed: seq<nat>, n: nat, evicted: seq<nat>) {
    n <= |changed| && |evicted| <= n &&
    forall i | 0 <= i < n && changed[i] < |lc| && lc[changed[i]].number != LC_FREE :: lc[changed[i]].number in evicted
  }

  lemma EvictedListed(lc: Cache, changed: seq<nat>, evicted: seq<nat>, x: nat)
    requires Listed(lc, changed) && Leaving(lc, changed, |changed|, evicted) && Evicted(lc, x)
    ensures x in evicted
  {
    var j :| 0 <= j < |lc| && lc[j].number == x;
    assert lc[j].newNumber != LC_FREE ==> lc[j].newNumber in NewNumbers(lc);
    assert Changing(lc[j]);
    var i :| 0 <= i < |changed| && changed[i] == j;
  }

  /** A transaction may begin with the hints that its loop over the slots to be changed
   *  collects: they never overflow, and cover what it has to.
   */
  method MarkLeaving(h: BitmapHints.Hints, g: Geometry, lc: Cache, changed: seq<nat>) returns (ghost hinted: set<nat>)
    requires h.Valid() && h.flagged == {} && h.n == 0
    requires g == Geometry(h.peers, h.wpp, h.bits, g.extentBits) && BitmapHints.ExtentBits(g.extentBits)
    requires Listed(lc, changed) && forall i | 0 <= i < |lc| :: lc[i].number >= LC_FREE
    modifies h, h.al
    ensures h.Valid() && h.al == old(h.al) && hinted == (set p | p in h.al[..h.n])
    ensures Sane(g) && forall s: State | s.lc == lc && s.tr.Idle? :: Enabled(g, s, Begin(hinted))
  {
    hide PageOf;
    var evicted: seq<nat> := [];
    for n := 0 to |changed|
      invariant Leaving(lc, changed, n, evicted)
    {
      var e := lc[changed[n]];
      if e.number != LC_FREE { evicted := evicted + [e.number]; }
    }
    h.MarkTransaction(g.extentBits, evicted);
    hinted := set p | p in h.al[..h.n];
    forall slot: nat, bit: nat | slot < g.peers && bit < g.bits && Evicted(lc, Extent(g, Block(slot, bit)))
      ensures Page(g, Block(slot, bit)) in hinted
    {
      EvictedListed(lc, changed, evicted, bit / g.extentBits);
      var k :| 0 <= k < |evicted| && evicted[k] == bit / g.extentBits;
    }
  }
}
