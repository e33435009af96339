/** The write-ahead protocol between activity log, bitmap and data.
 *
 * A local write may reach the disk only while its extents are in the on-disk
 * activity log.  When it is done, what peers may have missed is recorded in the
 * in-memory bitmap, and the extents may leave the log.  Before they do, the bitmap
 * pages that cover them are written.  So at any moment a crash finds each block
 * that some peer may have missed in the on-disk log or in the on-disk bitmap.
 *
 * Page writes take two steps, submission and completion; a crash in between may
 * find either version of the page on disk.
 */
module CrashSafety {
  import opened Arithmetic
  import opened BitmapLayout
  import opened ActLog

  datatype Geometry = Geometry(peers: nat, wpp: nat, bits: nat, extentBits: nat)

  ghost predicate Sane(g: Geometry) {
    0 < g.peers <= g.wpp && g.extentBits > 0
  }

  // One bit of one peer's bitmap.
  datatype Block = Block(slot: nat, bit: nat)

  function Page(g: Geometry, b: Block): nat
    requires Sane(g)
  {
    PageOf(g.peers, g.wpp, b.slot, b.bit)
  }

  function Extent(g: Geometry, b: Block): nat
    requires Sane(g)
  {
    b.bit / g.extentBits
  }

  datatype Phase =
    | Waiting    // activation not complete; some extents may be held already
    | Pending    // all extents held, to be submitted after the next commit
    | InLog      // RQ_IN_ACT_LOG
    | Submitted  // on its way to the local disk and to the peers
    | Gone

  /** A write to the extents [first, last].  `bits` are the bitmap bits it touches, `full`
   *  those it covers completely.
   */
  datatype Req = Req(first: nat, last: nat, next: nat, bits: set<nat>, full: set<nat>, phase: Phase)

  function Resume(r: Req): nat {
    if r.next != 0 then r.next else r.first
  }

  predicate Holds(r: Req, x: nat) {
    match r.phase
    case Waiting => r.first <= x < Resume(r)
    case Gone => false
    case _ => r.first <= x <= r.last
  }

  function Holders(reqs: seq<Req>, x: nat): nat {
    if |reqs| == 0 then 0
    else Holders(reqs[..|reqs| - 1], x) + if Holds(reqs[|reqs| - 1], x) then 1 else 0
  }

  datatype Transaction =
    | Idle
    | Writing(hinted: set<nat>, todo: set<nat>, own: set<nat>)
    | Written

  datatype State = State(
    lc: Cache,
    diskLog: set<int>,            // the extents replay of the on-disk log yields
    reqs: seq<Req>,
    mem: set<Block>,              // set bits of the in-memory bitmap
    disk: set<Block>,             // set bits of the on-disk bitmap
    flagged: set<nat>,            // pages changed since their last write
    lazy: set<nat>,               // those with a bit cleared since: BM_PAGE_LAZY_WRITEOUT
    io: map<nat, set<Block>>,     // page writes under way, with what they write
    tr: Transaction,
    owed: set<Block>)             // written locally and not known to be OK on the peer

  function Numbers(lc: Cache): set<int> {
    set i | 0 <= i < |lc| && lc[i].number != LC_FREE :: lc[i].number
  }

  function NewNumbers(lc: Cache): set<int> {
    set i | 0 <= i < |lc| && lc[i].newNumber != LC_FREE :: lc[i].newNumber
  }

  // Leaving the log with the next commit.
  predicate Evicted(lc: Cache, x: nat) {
    x in Numbers(lc) && x !in NewNumbers(lc)
  }

  predicate UnderWay(reqs: seq<Req>, b: Block) {
    exists k :: 0 <= k < |reqs| && reqs[k].phase.Submitted? && b.bit in reqs[k].bits
  }

  // On disk whether or not a page write under way completes.
  predicate Durable(g: Geometry, s: State, b: Block)
    requires Sane(g)
  {
    b in s.disk && (Page(g, b) in s.io ==> b in s.io[Page(g, b)])
  }

  /** What a crash must not find violated. */
  ghost predicate CrashSafe(g: Geometry, s: State)
    requires Sane(g)
  {
    forall b | b in s.owed :: Extent(g, b) in s.diskLog || Durable(g, s, b)
  }

  datatype Step =
    | Arrive(r: Req)
    | Fastpath(k: nat, lc: Cache)
    | Nonblock(k: nat, lc: Cache, next: nat, complete: bool)
    | Begin(hinted: set<nat>)
    | WriteHinted(page: nat)
    | WriteLazy(page: nat)        // drbd_bm_write_lazy()
    | WritePage(page: nat)        // any other write-out
    | PageWritten(page: nat)
    | WriteLog
    | Commit
    | Submit(k: nat)
    | Done(k: nat, ok: set<nat>, inSync: set<nat>, lc: Cache)
    | SetInSync(blocks: set<Block>)
    | SetOutOfSync(blocks: set<Block>)

  ghost predicate ValidReq(g: Geometry, r: Req)
    requires Sane(g)
  {
    && r.first <= r.last && (r.next == 0 || r.first < r.next <= r.last)
    && r.full <= r.bits
    && forall b | b in r.bits :: b < g.bits && r.first <= b / g.extentBits <= r.last
  }

  ghost predicate Enabled(g: Geometry, s: State, step: Step)
    requires Sane(g)
  {
    match step
    case Arrive(r) => ValidReq(g, r) && r.phase.Waiting? && r.next == 0
    case Fastpath(k, lc) =>
      && k < |s.reqs| && s.reqs[k].phase.Waiting? && s.reqs[k].next == 0
      && s.reqs[k].first == s.reqs[k].last && TryGot(s.lc, lc, s.reqs[k].first)
    case Nonblock(k, lc, next, complete) =>
      && s.tr.Idle? && k < |s.reqs| && s.reqs[k].phase.Waiting?
      && ValidReq(g, s.reqs[k].(next := next)) && Resume(s.reqs[k]) <= Resume(s.reqs[k].(next := next))
      && Gets(s.lc, lc, Resume(s.reqs[k]), if complete then s.reqs[k].last + 1 else Resume(s.reqs[k].(next := next)))
    case Begin(hinted) =>
      s.tr.Idle? && forall slot, bit | 0 <= slot < g.peers && 0 <= bit < g.bits &&
                                       Evicted(s.lc, Extent(g, Block(slot, bit))) :: Page(g, Block(slot, bit)) in hinted
    case WriteHinted(page) => s.tr.Writing? && page in s.tr.todo && (page in s.flagged ==> page !in s.io)
    case WriteLazy(page) => page !in s.io && page in s.flagged && page in s.lazy
    case WritePage(page) => page !in s.io
    case PageWritten(page) => page in s.io
    case WriteLog => s.tr.Writing? && s.tr.todo == {} && s.tr.own == {}
    case Commit => s.tr.Written?
    case Submit(k) => k < |s.reqs| && s.reqs[k].phase.InLog?
    case Done(k, ok, inSync, lc) =>
      && k < |s.reqs| && s.reqs[k].phase.Submitted? && inSync <= ok
      && Puts(s.lc, lc, s.reqs[k].first, s.reqs[k].last + 1)
    case SetInSync(_) => true
    case SetOutOfSync(_) => true
  }

  function PagesOf(g: Geometry, blocks: set<Block>): set<nat>
    requires Sane(g)
  {
    set b | b in blocks :: Page(g, b)
  }

  function Snapshot(g: Geometry, mem: set<Block>, page: nat): set<Block>
    requires Sane(g)
  {
    set b | b in mem && Page(g, b) == page
  }

  function Blocks(g: Geometry, bits: set<nat>): set<Block> {
    set slot, bit | 0 <= slot < g.peers && bit in bits :: Block(slot, bit)
  }

  function On(g: Geometry, bits: set<nat>, slots: set<nat>): set<Block> {
    set b | b in Blocks(g, bits) && b.slot in slots
  }

  // Change bits in memory: the pages are flagged, and what is no longer set nor
  // under way is no longer owed if the caller says so.
  function Marked(g: Geometry, s: State, mem: set<Block>, settled: set<Block>, reqs: seq<Req>): State
    requires Sane(g)
  {
    s.(mem := mem,
       flagged := s.flagged + PagesOf(g, (mem - s.mem) + (s.mem - mem)),
       lazy := s.lazy + PagesOf(g, s.mem - mem),
       reqs := reqs,
       owed := set b | b in s.owed && (b !in settled || b in mem || UnderWay(reqs, b)))
  }

  function StartWrite(g: Geometry, s: State, page: nat): State
    requires Sane(g)
  {
    s.(flagged := s.flagged - {page}, lazy := s.lazy - {page}, io := s.io[page := Snapshot(g, s.mem, page)])
  }

  function WithPhase(reqs: seq<Req>, k: nat, phase: Phase): seq<Req>
    requires k < |reqs|
  {
    reqs[k := reqs[k].(phase := phase)]
  }

  function Released(reqs: seq<Req>): seq<Req> {
    seq(|reqs|, k requires 0 <= k < |reqs| =>
      if reqs[k].phase.Pending? then reqs[k].(phase := InLog) else reqs[k])
  }

  ghost function Apply(g: Geometry, s: State, step: Step): State
    requires Sane(g) && Enabled(g, s, step)
  {
    match step
    case Arrive(r) => s.(reqs := s.reqs + [r])
    case Fastpath(k, lc) => s.(lc := lc, reqs := WithPhase(s.reqs, k, InLog))
    case Nonblock(k, lc, next, complete) =>
      var r := s.reqs[k].(next := next);
      s.(lc := lc, reqs := s.reqs[k := if complete then r.(phase := Pending) else r])
    case Begin(hinted) => s.(tr := Writing(hinted, hinted, {}))
    case WriteHinted(page) =>
      var tr := s.tr.(todo := s.tr.todo - {page});
      // a page that is unchanged is skipped
      if page in s.flagged then StartWrite(g, s, page).(tr := tr.(own := tr.own + {page}))
      else s.(tr := tr)
    case WriteLazy(page) => StartWrite(g, s, page)
    case WritePage(page) => StartWrite(g, s, page)
    case PageWritten(page) =>
      s.(disk := (set b | b in s.disk && Page(g, b) != page) + s.io[page],
         io := s.io - {page},
         tr := if s.tr.Writing? then s.tr.(own := s.tr.own - {page}) else s.tr)
    case WriteLog => s.(diskLog := NewNumbers(s.lc), tr := Written)
    case Commit => s.(lc := AllCommitted(s.lc), reqs := Released(s.reqs), tr := Idle)
    case Submit(k) =>
      s.(reqs := WithPhase(s.reqs, k, Submitted), owed := s.owed + Blocks(g, s.reqs[k].bits))
    case Done(k, ok, inSync, lc) =>
      var r := s.reqs[k];
      Marked(g, s, s.mem + (Blocks(g, r.bits) - On(g, r.bits, ok)) - On(g, r.full, inSync),
             On(g, r.bits, ok), WithPhase(s.reqs, k, Gone)).(lc := lc)
    case SetInSync(blocks) => Marked(g, s, s.mem - blocks, blocks, s.reqs)
    case SetOutOfSync(blocks) => Marked(g, s, s.mem + blocks, {}, s.reqs)
  }

  /** The condition on runs: when the log is written, no write of a hinted page is still
   *  under way.  The code waits for the page writes of the transaction itself, but not
   *  for one that somebody else has started and that left the page unflagged.
   */
  ghost predicate Guarded(s: State, step: Step) {
    step.WriteLog? && s.tr.Writing? ==> forall p | p in s.tr.hinted :: p !in s.io
  }

  // ---- the invariant ----

  // References are exactly those of the requests; who is in the log stays there.
  ghost predicate LogInv(g: Geometry, s: State)
    requires Sane(g)
  {
    && WellFormed(s.lc)
    && (forall k | 0 <= k < |s.reqs| :: ValidReq(g, s.reqs[k]))
    && (forall x: nat :: Refs(s.lc, x) == Holders(s.reqs, x))
    && (forall k, x | 0 <= k < |s.reqs| && (s.reqs[k].phase.InLog? || s.reqs[k].phase.Submitted?)
                      && s.reqs[k].first <= x <= s.reqs[k].last :: Logged(s.lc, x))
    && s.diskLog == (if s.tr.Written? then NewNumbers(s.lc) else Numbers(s.lc))
  }

  // What is owed is still under way or marked; what is marked is on its way to disk.
  ghost predicate MarkInv(g: Geometry, s: State)
    requires Sane(g)
  {
    && (forall b | b in s.owed :: b.slot < g.peers && b.bit < g.bits && (UnderWay(s.reqs, b) || b in s.mem))
    && (forall b | b in s.mem ::
          || Page(g, b) in s.flagged
          || (if Page(g, b) in s.io then b in s.io[Page(g, b)] else b in s.disk))
  }

  // During a transaction the blocks of leaving extents are on the hinted pages, and
  // those pages are still to be written, being written, or written.
  ghost predicate HintInv(g: Geometry, s: State)
    requires Sane(g)
  {
    s.tr.Writing? ==>
      forall b | b in s.owed && Evicted(s.lc, Extent(g, b)) ::
        && Page(g, b) in s.tr.hinted
        && (|| Page(g, b) in s.tr.todo
            || (Page(g, b) in s.io && b in s.io[Page(g, b)])
            || Durable(g, s, b))
  }

  ghost predicate Inv(g: Geometry, s: State)
    requires Sane(g)
  {
    LogInv(g, s) && MarkInv(g, s) && HintInv(g, s) && CrashSafe(g, s)
  }

  lemma {:induction false} HoldersUpdate(reqs: seq<Req>, k: nat, r: Req, x: nat)
    requires k < |reqs|
    ensures Holders(reqs[k := r], x) ==
            Holders(reqs, x) - (if Holds(reqs[k], x) then 1 else 0) + (if Holds(r, x) then 1 else 0)
  {
    var n := |reqs| - 1;
    if k == n {
      assert reqs[k := r][..n] == reqs[..n];
    } else {
      HoldersUpdate(reqs[..n], k, r, x);
      assert reqs[k := r][..n] == reqs[..n][k := r];
    }
  }

  lemma {:induction false} HolderCounts(reqs: seq<Req>, k: nat, x: nat)
    requires k < |reqs| && Holds(reqs[k], x)
    ensures Holders(reqs, x) > 0
  {
    var n := |reqs| - 1;
    if k < n { HolderCounts(reqs[..n], k, x); }
  }

  lemma {:induction false} SameHolders(reqs: seq<Req>, reqs': seq<Req>, x: nat)
    requires |reqs| == |reqs'| && forall k | 0 <= k < |reqs| :: Holds(reqs'[k], x) == Holds(reqs[k], x)
    ensures Holders(reqs', x) == Holders(reqs, x)
  {
    if |reqs| > 0 {
      var n := |reqs| - 1;
      SameHolders(reqs[..n], reqs'[..n], x);
    }
  }

  lemma LoggedNumbers(lc: Cache, x: nat)
    requires WellFormed(lc)
    ensures Logged(lc, x) ==> x in Numbers(lc) && x in NewNumbers(lc)
    ensures x !in NewNumbers(lc) ==> Refs(lc, x) == 0
  {
    var i := Lookup(lc, x);
    if i < |lc| {
      assert lc[i].newNumber in NewNumbers(lc);
      if !Changing(lc[i]) { assert lc[i].number in Numbers(lc); }
    }
  }

  // The extent of a write under way is in the log for good.
  lemma UnderWayLogged(g: Geometry, s: State, b: Block)
    requires Sane(g) && LogInv(g, s) && UnderWay(s.reqs, b)
    ensures Extent(g, b) in s.diskLog && !Evicted(s.lc, Extent(g, b))
  {
    var k :| 0 <= k < |s.reqs| && s.reqs[k].phase.Submitted? && b.bit in s.reqs[k].bits;
    assert ValidReq(g, s.reqs[k]);
    assert Logged(s.lc, Extent(g, b));
    LoggedNumbers(s.lc, Extent(g, b));
  }

  ghost predicate SameExtents(lc: Cache, lc': Cache) {
    |lc'| == |lc| && forall i | 0 <= i < |lc| :: lc'[i].number == lc[i].number
  }

  lemma {:induction false} GetsNumbers(lc: Cache, lc': Cache, a: nat, b: nat)
    requires Gets(lc, lc', a, b)
    ensures SameExtents(lc, lc')
    decreases b
  {
    hide Got;
    if b > a {
      var c: nat := b - 1;
      var mid :| Gets(lc, mid, a, c) && Got(mid, lc', c);
      GetsNumbers(lc, mid, a, c);
      GotNumbers(mid, lc', c);
    }
  }

  lemma GotNumbers(lc: Cache, lc': Cache, enr: nat)
    requires Got(lc, lc', enr)
    ensures SameExtents(lc, lc')
  {
  }

  lemma HitNumbers(lc: Cache, lc': Cache, enr: nat)
    requires Hit(lc, lc', enr)
    ensures SameExtents(lc, lc') && forall i | 0 <= i < |lc| :: lc'[i].newNumber == lc[i].newNumber
  {
  }

  lemma {:induction false} PutsNumbers(lc: Cache, lc': Cache, a: nat, b: nat)
    requires Puts(lc, lc', a, b)
    ensures SameExtents(lc, lc') && forall i | 0 <= i < |lc| :: lc'[i].newNumber == lc[i].newNumber
    decreases b
  {
    if b > a {
      var c: nat := b - 1;
      var mid :| Puts(lc, mid, a, c) && PutBack(mid, lc', c);
      PutsNumbers(lc, mid, a, c);
    }
  }

  lemma SameNumberSets(lc: Cache, lc': Cache)
    requires SameExtents(lc, lc')
    ensures Numbers(lc') == Numbers(lc)
    ensures (forall i | 0 <= i < |lc| :: lc'[i].newNumber == lc[i].newNumber) ==> NewNumbers(lc') == NewNumbers(lc)
  {
    forall x | x in Numbers(lc) ensures x in Numbers(lc') {
      var i :| 0 <= i < |lc| && lc[i].number != LC_FREE && lc[i].number == x;
      assert lc'[i].number == x;
    }
    if forall i | 0 <= i < |lc| :: lc'[i].newNumber == lc[i].newNumber {
      forall x | x in NewNumbers(lc) ensures x in NewNumbers(lc') {
        var i :| 0 <= i < |lc| && lc[i].newNumber != LC_FREE && lc[i].newNumber == x;
        assert lc'[i].newNumber == x;
      }
    }
  }

  // Requests changing their phase without starting or ending their way to the disk.
  lemma SameUnderWay(reqs: seq<Req>, reqs': seq<Req>, b: Block)
    requires |reqs| <= |reqs'|
    requires forall k | 0 <= k < |reqs'| ::
               if k < |reqs| then reqs'[k].bits == reqs[k].bits && reqs'[k].phase.Submitted? == reqs[k].phase.Submitted?
                             else !reqs'[k].phase.Submitted?
    ensures UnderWay(reqs', b) == UnderWay(reqs, b)
  {
    if UnderWay(reqs, b) {
      var k :| 0 <= k < |reqs| && reqs[k].phase.Submitted? && b.bit in reqs[k].bits;
      assert reqs'[k].phase.Submitted?;
    }
  }

  lemma ArriveKeeps(g: Geometry, s: State, r: Req)
    requires Sane(g) && Inv(g, s) && Enabled(g, s, Arrive(r))
    ensures Inv(g, Apply(g, s, Arrive(r)))
  {
    hide LogInv, UnderWay, Page, Extent, Evicted;
    var s' := Apply(g, s, Arrive(r));
    ArriveLog(g, s, r);
    forall b | b in s.owed ensures UnderWay(s'.reqs, b) == UnderWay(s.reqs, b) {
      SameUnderWay(s.reqs, s'.reqs, b);
    }
  }

  lemma ArriveLog(g: Geometry, s: State, r: Req)
    requires Sane(g) && LogInv(g, s) && Enabled(g, s, Arrive(r))
    ensures LogInv(g, Apply(g, s, Arrive(r)))
  {
    hide Refs, Logged, WellFormed, ValidReq, Numbers, NewNumbers;
    var s' := Apply(g, s, Arrive(r));
    forall x: nat ensures Refs(s'.lc, x) == Holders(s'.reqs, x) {
      assert s'.reqs[..|s'.reqs| - 1] == s.reqs;
    }
  }

  lemma FastpathKeeps(g: Geometry, s: State, k: nat, lc: Cache)
    requires Sane(g) && Inv(g, s) && Enabled(g, s, Fastpath(k, lc))
    ensures Inv(g, Apply(g, s, Fastpath(k, lc)))
  {
    var s' := Apply(g, s, Fastpath(k, lc));
    var enr := s.reqs[k].first;
    FastpathLog(g, s, k, lc);
    LogFrame(g, s, s');
  }

  // A step of the log that neither touches the bitmap nor lets a request start or end,
  // nor an extent enter or leave a log slot.
  lemma LogFrame(g: Geometry, s: State, s': State)
    requires Sane(g) && Inv(g, s) && LogInv(g, s')
    requires s' == s.(lc := s'.lc, reqs := s'.reqs)
    requires s.tr.Idle? || forall x: nat :: Evicted(s'.lc, x) == Evicted(s.lc, x)
    requires |s.reqs| == |s'.reqs| && forall k | 0 <= k < |s.reqs| ::
               s'.reqs[k].bits == s.reqs[k].bits && s'.reqs[k].phase.Submitted? == s.reqs[k].phase.Submitted?
    ensures Inv(g, s')
  {
    hide LogInv, UnderWay, Page, Extent, Evicted;
    forall b | b in s.owed ensures UnderWay(s'.reqs, b) == UnderWay(s.reqs, b) {
      SameUnderWay(s.reqs, s'.reqs, b);
    }
  }

  lemma FastpathLog(g: Geometry, s: State, k: nat, lc: Cache)
    requires Sane(g) && LogInv(g, s) && Enabled(g, s, Fastpath(k, lc))
    ensures LogInv(g, Apply(g, s, Fastpath(k, lc)))
    ensures forall x: nat :: Evicted(lc, x) == Evicted(s.lc, x)
  {
    hide Numbers, NewNumbers, ValidReq, Refs, Logged, Hit, WellFormed, Holders;
    var s' := Apply(g, s, Fastpath(k, lc));
    var enr := s.reqs[k].first;
    HitNumbers(s.lc, lc, enr);
    SameNumberSets(s.lc, lc);
    HitRefs(s.lc, lc, enr, 0);
    forall x: nat ensures Refs(lc, x) == Holders(s'.reqs, x) && Logged(lc, x) == Logged(s.lc, x) {
      HitRefs(s.lc, lc, enr, x);
      HoldersUpdate(s.reqs, k, s'.reqs[k], x);
    }
    forall j | 0 <= j < |s'.reqs| ensures ValidReq(g, s'.reqs[j]) {
      assert ValidReq(g, s.reqs[j]);
      SameValid(g, s.reqs[j], s'.reqs[j]);
    }
  }

  lemma SameValid(g: Geometry, r: Req, r': Req)
    requires Sane(g) && ValidReq(g, r) && r' == r.(phase := r'.phase)
    ensures ValidReq(g, r')
  {
  }

  lemma NonblockKeeps(g: Geometry, s: State, k: nat, lc: Cache, next: nat, complete: bool)
    requires Sane(g) && Inv(g, s) && Enabled(g, s, Nonblock(k, lc, next, complete))
    ensures Inv(g, Apply(g, s, Nonblock(k, lc, next, complete)))
  {
    hide LogInv, MarkInv, HintInv, CrashSafe;
    NonblockLog(g, s, k, lc, next, complete);
    LogFrame(g, s, Apply(g, s, Nonblock(k, lc, next, complete)));
  }

  lemma NonblockLog(g: Geometry, s: State, k: nat, lc: Cache, next: nat, complete: bool)
    requires Sane(g) && LogInv(g, s) && Enabled(g, s, Nonblock(k, lc, next, complete))
    ensures LogInv(g, Apply(g, s, Nonblock(k, lc, next, complete)))
  {
    hide Numbers, NewNumbers, ValidReq, Gets;
    var s' := Apply(g, s, Nonblock(k, lc, next, complete));
    var r, r' := s.reqs[k], s'.reqs[k];
    var upto := if complete then r.last + 1 else Resume(r.(next := next));
    GetsNumbers(s.lc, lc, Resume(r), upto);
    SameNumberSets(s.lc, lc);
    ValidResume(g, r);
    ValidResume(g, r.(next := next));
    GetsRefs(s.lc, lc, Resume(r), upto, 0);
    forall x: nat
      ensures Refs(lc, x) == Holders(s'.reqs, x)
      ensures Refs(s.lc, x) > 0 ==> Logged(lc, x) == Logged(s.lc, x)
    {
      GetsRefs(s.lc, lc, Resume(r), upto, x);
      HoldersUpdate(s.reqs, k, r', x);
    }
    forall j, x | 0 <= j < |s'.reqs| && (s'.reqs[j].phase.InLog? || s'.reqs[j].phase.Submitted?)
                  && s'.reqs[j].first <= x <= s'.reqs[j].last
      ensures Logged(lc, x)
    {
      HolderCounts(s.reqs, j, x);
    }
    forall j | 0 <= j < |s'.reqs| ensures ValidReq(g, s'.reqs[j]) {
      if j == k { SameValid(g, r.(next := next), r'); } else { assert ValidReq(g, s.reqs[j]); }
    }
  }

  lemma ValidResume(g: Geometry, r: Req)
    requires Sane(g) && ValidReq(g, r)
    ensures r.first <= Resume(r) <= r.last
  {
  }

  lemma BeginKeeps(g: Geometry, s: State, hinted: set<nat>)
    requires Sane(g) && Inv(g, s) && Enabled(g, s, Begin(hinted))
    ensures Inv(g, Apply(g, s, Begin(hinted)))
  {
    hide Page, Extent, Evicted, UnderWay, PageOf;
    var s' := Apply(g, s, Begin(hinted));
    forall b | b in s.owed && Evicted(s.lc, Extent(g, b)) ensures Page(g, b) in hinted {
      assert b == Block(b.slot, b.bit);
    }
  }

  // Submitting a page write: what it will put on disk is what memory holds now.
  lemma StartWriteKeeps(g: Geometry, s: State, page: nat)
    requires Sane(g) && Inv(g, s) && page !in s.io
    ensures Inv(g, StartWrite(g, s, page))
  {
    hide LogInv, Evicted;
    var s' := StartWrite(g, s, page);
    assert LogInv(g, s') by { LogOnly(g, s, s'); }
    forall b | b in s.owed && (Extent(g, b) !in s.diskLog || Evicted(s.lc, Extent(g, b)))
      ensures b in s.mem
    {
      if UnderWay(s.reqs, b) { UnderWayLogged(g, s, b); }
    }
  }

  // The log part of the state stands alone.
  lemma LogOnly(g: Geometry, s: State, s': State)
    requires Sane(g) && LogInv(g, s)
    requires s'.lc == s.lc && s'.reqs == s.reqs && s'.diskLog == s.diskLog && s'.tr.Written? == s.tr.Written?
    ensures LogInv(g, s')
  {
  }

  lemma WriteHintedKeeps(g: Geometry, s: State, page: nat)
    requires Sane(g) && Inv(g, s) && Enabled(g, s, WriteHinted(page))
    ensures Inv(g, Apply(g, s, WriteHinted(page)))
  {
    hide LogInv, Evicted;
    var s' := Apply(g, s, WriteHinted(page));
    assert LogInv(g, s') by { LogOnly(g, s, s'); }
    if page in s.flagged {
      StartWriteKeeps(g, s, page);
    }
    forall b | b in s.owed && Evicted(s.lc, Extent(g, b)) ensures b in s.mem {
      if UnderWay(s.reqs, b) { UnderWayLogged(g, s, b); }
    }
  }

  lemma PageWrittenKeeps(g: Geometry, s: State, page: nat)
    requires Sane(g) && Inv(g, s) && Enabled(g, s, PageWritten(page))
    ensures Inv(g, Apply(g, s, PageWritten(page)))
  {
    hide LogInv, Evicted, UnderWay;
    var s' := Apply(g, s, PageWritten(page));
    assert LogInv(g, s') by { LogOnly(g, s, s'); }
  }

  // No owed block of a leaving extent depends on a page write that is still under way.
  ghost predicate PagesDone(g: Geometry, s: State)
    requires Sane(g)
  {
    forall b | b in s.owed && Evicted(s.lc, Extent(g, b)) && Page(g, b) in s.io :: b in s.disk
  }

  /** Writing the log is safe exactly if no such block depends on an unfinished page write. */
  lemma WriteLogExact(g: Geometry, s: State)
    requires Sane(g) && Inv(g, s) && Enabled(g, s, WriteLog)
    ensures CrashSafe(g, Apply(g, s, WriteLog)) <==> PagesDone(g, s)
  {
    hide UnderWay, Page, Extent, Numbers, NewNumbers, MarkInv;
    var s' := Apply(g, s, WriteLog);
    if CrashSafe(g, s') {
      forall b | b in s.owed && Evicted(s.lc, Extent(g, b)) && Page(g, b) in s.io ensures b in s.disk {
        assert Durable(g, s', b);
      }
    }
    if PagesDone(g, s) {
      forall b | b in s'.owed ensures Extent(g, b) in s'.diskLog || Durable(g, s', b) {
        assert Extent(g, b) in s.diskLog || Durable(g, s, b);
      }
    }
  }

  lemma WriteLogKeeps(g: Geometry, s: State)
    requires Sane(g) && Inv(g, s) && Enabled(g, s, WriteLog) && PagesDone(g, s)
    ensures Inv(g, Apply(g, s, WriteLog))
  {
    hide UnderWay, Page, Extent, Numbers, NewNumbers, Refs, Logged, WellFormed, ValidReq, CrashSafe, Durable, PagesDone;
    WriteLogExact(g, s);
  }

  /** If no write of a hinted page is under way, that is so. */
  lemma GuardSuffices(g: Geometry, s: State)
    requires Sane(g) && HintInv(g, s) && s.tr.Writing? && Guarded(s, WriteLog)
    ensures PagesDone(g, s)
  {
    hide Page, Extent, Evicted, Durable;
  }

  lemma CommitKeeps(g: Geometry, s: State)
    requires Sane(g) && Inv(g, s) && Enabled(g, s, Commit)
    ensures Inv(g, Apply(g, s, Commit))
  {
    hide Page, Extent, ValidReq, UnderWay;
    var s' := Apply(g, s, Commit);
    CommitLog(g, s);
    forall b | b in s.owed ensures UnderWay(s'.reqs, b) == UnderWay(s.reqs, b) {
      SameUnderWay(s.reqs, s'.reqs, b);
    }
  }

  lemma CommitLog(g: Geometry, s: State)
    requires Sane(g) && LogInv(g, s) && s.tr.Written?
    ensures LogInv(g, Apply(g, s, Commit))
  {
    hide ValidReq, Numbers, NewNumbers;
    var s' := Apply(g, s, Commit);
    CommittedRefs(s.lc, 0);
    CommittedNumbers(s.lc);
    forall x: nat ensures Refs(s'.lc, x) == Holders(s'.reqs, x) {
      CommittedRefs(s.lc, x);
      SameHolders(s.reqs, s'.reqs, x);
    }
    forall k, x | 0 <= k < |s'.reqs| && (s'.reqs[k].phase.InLog? || s'.reqs[k].phase.Submitted?)
                  && s'.reqs[k].first <= x <= s'.reqs[k].last
      ensures Logged(s'.lc, x)
    {
      HolderCounts(s.reqs, k, x);
      CommittedRefs(s.lc, x);
    }
    forall k | 0 <= k < |s'.reqs| ensures ValidReq(g, s'.reqs[k]) {
      assert ValidReq(g, s.reqs[k]);
      SameValid(g, s.reqs[k], s'.reqs[k]);
    }
  }

  lemma CommittedNumbers(lc: Cache)
    ensures Numbers(AllCommitted(lc)) == NewNumbers(lc)
  {
    var lc' := AllCommitted(lc);
    forall x | x in NewNumbers(lc) ensures x in Numbers(lc') {
      var i :| 0 <= i < |lc| && lc[i].newNumber != LC_FREE && lc[i].newNumber == x;
      assert lc'[i].number == x;
    }
  }

  lemma SubmitKeeps(g: Geometry, s: State, k: nat)
    requires Sane(g) && Inv(g, s) && Enabled(g, s, Submit(k))
    ensures Inv(g, Apply(g, s, Submit(k)))
  {
    hide Page, Refs, Logged, WellFormed, Numbers, NewNumbers;
    var s' := Apply(g, s, Submit(k));
    SubmitLog(g, s, k);
    forall b | b in s'.owed ensures UnderWay(s'.reqs, b) || (b in s.mem && b in s.owed) {
      if UnderWay(s.reqs, b) {
        var j :| 0 <= j < |s.reqs| && s.reqs[j].phase.Submitted? && b.bit in s.reqs[j].bits;
        assert s'.reqs[j] == s.reqs[j];
      } else if b !in s.owed {
        assert s'.reqs[k].phase.Submitted? && b.bit in s'.reqs[k].bits;
      }
    }
    forall b | b in s'.owed && b !in s.owed
      ensures b.slot < g.peers && b.bit < g.bits && Extent(g, b) in s.diskLog && !Evicted(s.lc, Extent(g, b))
    {
      assert ValidReq(g, s'.reqs[k]);
      UnderWayLogged(g, s', b);
    }
  }

  lemma SubmitLog(g: Geometry, s: State, k: nat)
    requires Sane(g) && LogInv(g, s) && Enabled(g, s, Submit(k))
    ensures LogInv(g, Apply(g, s, Submit(k)))
  {
    hide ValidReq, Refs, Logged, WellFormed, Numbers, NewNumbers;
    var s' := Apply(g, s, Submit(k));
    forall x: nat ensures Refs(s'.lc, x) == Holders(s'.reqs, x) {
      HoldersUpdate(s.reqs, k, s'.reqs[k], x);
    }
    forall j | 0 <= j < |s'.reqs| ensures ValidReq(g, s'.reqs[j]) {
      assert ValidReq(g, s.reqs[j]);
      SameValid(g, s.reqs[j], s'.reqs[j]);
    }
  }

  // Bits changed in memory: blocks keep their standing, except that what is settled and
  // neither set nor under way any more is forgotten.
  lemma MarkedKeeps(g: Geometry, s: State, mem: set<Block>, settled: set<Block>, reqs: seq<Req>, lc: Cache)
    requires Sane(g) && Inv(g, s)
    requires var s' := Marked(g, s, mem, settled, reqs).(lc := lc);
             LogInv(g, s') && forall x: nat :: Evicted(lc, x) == Evicted(s.lc, x)
    requires forall b | b in s.owed && b !in mem && b !in settled :: UnderWay(reqs, b)
    ensures Inv(g, Marked(g, s, mem, settled, reqs).(lc := lc))
  {
    hide LogInv, UnderWay, Page, Extent, Evicted;
    var s' := Marked(g, s, mem, settled, reqs).(lc := lc);
    forall b | b in mem
      ensures Page(g, b) in s'.flagged || (if Page(g, b) in s.io then b in s.io[Page(g, b)] else b in s.disk)
    {
      if b !in s.mem { assert b in (mem - s.mem) + (s.mem - mem); }
    }
  }

  lemma DoneKeeps(g: Geometry, s: State, k: nat, ok: set<nat>, inSync: set<nat>, lc: Cache)
    requires Sane(g) && Inv(g, s) && Enabled(g, s, Done(k, ok, inSync, lc))
    ensures Inv(g, Apply(g, s, Done(k, ok, inSync, lc)))
  {
    hide Page, Numbers, NewNumbers, ValidReq, Puts;
    var s' := Apply(g, s, Done(k, ok, inSync, lc));
    var r := s.reqs[k];
    PutsNumbers(s.lc, lc, r.first, r.last + 1);
    SameNumberSets(s.lc, lc);
    DoneLog(g, s, k, lc);
    assert LogInv(g, s') by { LogOnly(g, s.(lc := lc, reqs := s'.reqs), s'); }
    var received := On(g, r.bits, ok);
    forall b | b in s.owed && b !in s'.mem && b !in received ensures UnderWay(s'.reqs, b) {
      if UnderWay(s.reqs, b) {
        var j :| 0 <= j < |s.reqs| && s.reqs[j].phase.Submitted? && b.bit in s.reqs[j].bits;
        if j == k { StillMarked(g, s, k, ok, inSync, lc, b); }
        assert s'.reqs[j] == s.reqs[j];
      } else {
        SyncedReceived(g, s, k, ok, inSync, lc, b);
      }
    }
    MarkedKeeps(g, s, s'.mem, received, s'.reqs, lc);
  }

  lemma StillMarked(g: Geometry, s: State, k: nat, ok: set<nat>, inSync: set<nat>, lc: Cache, b: Block)
    requires Sane(g) && MarkInv(g, s) && Enabled(g, s, Done(k, ok, inSync, lc))
    requires b in s.owed && b.bit in s.reqs[k].bits
    ensures b in Apply(g, s, Done(k, ok, inSync, lc)).mem || b.slot in ok
  {
    assert b in Blocks(g, s.reqs[k].bits);
  }

  lemma SyncedReceived(g: Geometry, s: State, k: nat, ok: set<nat>, inSync: set<nat>, lc: Cache, b: Block)
    requires Sane(g) && MarkInv(g, s) && Enabled(g, s, Done(k, ok, inSync, lc)) && ValidReq(g, s.reqs[k])
    requires b in s.mem && b !in Apply(g, s, Done(k, ok, inSync, lc)).mem
    ensures b in Blocks(g, s.reqs[k].bits) && b.slot in ok
  {
  }

  lemma DoneLog(g: Geometry, s: State, k: nat, lc: Cache)
    requires Sane(g) && LogInv(g, s) && k < |s.reqs| && s.reqs[k].phase.Submitted?
    requires Puts(s.lc, lc, s.reqs[k].first, s.reqs[k].last + 1)
    ensures LogInv(g, s.(lc := lc, reqs := WithPhase(s.reqs, k, Gone)))
  {
    hide ValidReq, Numbers, NewNumbers, Puts;
    var r := s.reqs[k];
    var reqs := WithPhase(s.reqs, k, Gone);
    PutsNumbers(s.lc, lc, r.first, r.last + 1);
    SameNumberSets(s.lc, lc);
    PutsRefs(s.lc, lc, r.first, r.last + 1, 0);
    forall x: nat ensures Refs(lc, x) == Holders(reqs, x) && Logged(lc, x) == Logged(s.lc, x) {
      PutsRefs(s.lc, lc, r.first, r.last + 1, x);
      HoldersUpdate(s.reqs, k, reqs[k], x);
    }
    forall j | 0 <= j < |reqs| ensures ValidReq(g, reqs[j]) {
      assert ValidReq(g, s.reqs[j]);
      SameValid(g, s.reqs[j], reqs[j]);
    }
  }

  /** One step of any kind keeps the invariant. */
  lemma StepKeeps(g: Geometry, s: State, step: Step)
    requires Sane(g) && Inv(g, s) && Enabled(g, s, step) && (step.WriteLog? ==> PagesDone(g, s))
    ensures Inv(g, Apply(g, s, step))
  {
    hide Inv, PagesDone;
    match step
    case Arrive(r) => ArriveKeeps(g, s, r);
    case Fastpath(k, lc) => FastpathKeeps(g, s, k, lc);
    case Nonblock(k, lc, next, complete) => NonblockKeeps(g, s, k, lc, next, complete);
    case Begin(hinted) => BeginKeeps(g, s, hinted);
    case WriteHinted(page) => WriteHintedKeeps(g, s, page);
    case WriteLazy(page) => StartWriteKeeps(g, s, page);
    case WritePage(page) => StartWriteKeeps(g, s, page);
    case PageWritten(page) => PageWrittenKeeps(g, s, page);
    case WriteLog => WriteLogKeeps(g, s);
    case Commit => CommitKeeps(g, s);
    case Submit(k) => SubmitKeeps(g, s, k);
    case Done(k, ok, inSync, lc) => DoneKeeps(g, s, k, ok, inSync, lc);
    case SetInSync(blocks) => SetInSyncKeeps(g, s, blocks);
    case SetOutOfSync(blocks) => SetOutOfSyncKeeps(g, s, blocks);
  }

  lemma SetInSyncKeeps(g: Geometry, s: State, blocks: set<Block>)
    requires Sane(g) && Inv(g, s)
    ensures Inv(g, Apply(g, s, SetInSync(blocks)))
  {
    hide LogInv, Page, Extent, UnderWay;
    var s' := Marked(g, s, s.mem - blocks, blocks, s.reqs);
    LogOnly(g, s, s');
    MarkedKeeps(g, s, s.mem - blocks, blocks, s.reqs, s.lc);
    assert s'.(lc := s.lc) == s';
  }

  lemma SetOutOfSyncKeeps(g: Geometry, s: State, blocks: set<Block>)
    requires Sane(g) && Inv(g, s)
    ensures Inv(g, Apply(g, s, SetOutOfSync(blocks)))
  {
    hide LogInv, Page, Extent, UnderWay;
    var s' := Marked(g, s, s.mem + blocks, {}, s.reqs);
    LogOnly(g, s, s');
    MarkedKeeps(g, s, s.mem + blocks, {}, s.reqs, s.lc);
    assert s'.(lc := s.lc) == s';
  }

  // ---- runs ----

  // Freshly attached: nothing under way, bitmap and log in step with the disk.  Blocks that
  // were owed before, as after a crash, are marked.
  ghost predicate Attached(g: Geometry, s: State) {
    && WellFormed(s.lc) && (forall i | 0 <= i < |s.lc| :: !Changing(s.lc[i]) && s.lc[i].refs == 0)
    && s.diskLog == Numbers(s.lc) && s.reqs == [] && s.disk == s.mem && s.flagged == {} && s.lazy == {}
    && s.io == map[] && s.tr == Idle && s.owed <= s.mem && forall b | b in s.owed :: b.slot < g.peers && b.bit < g.bits
  }

  // `s'` is reached from `s` by these steps.
  ghost predicate Reaches(g: Geometry, s: State, steps: seq<Step>, s': State)
    requires Sane(g)
    decreases |steps|
  {
    if steps == [] then s' == s
    else Enabled(g, s, steps[0]) && Reaches(g, Apply(g, s, steps[0]), steps[1..], s')
  }

  ghost predicate GuardedRun(g: Geometry, s: State, steps: seq<Step>)
    requires Sane(g)
    decreases |steps|
  {
    steps == [] ||
    (Enabled(g, s, steps[0]) && Guarded(s, steps[0]) && GuardedRun(g, Apply(g, s, steps[0]), steps[1..]))
  }

  // Whenever the log is written in this run, no owed block depends on an unfinished page write.
  ghost predicate WritesInOrder(g: Geometry, s: State, steps: seq<Step>)
    requires Sane(g)
    decreases |steps|
  {
    steps == [] ||
    (Enabled(g, s, steps[0]) && (steps[0].WriteLog? ==> PagesDone(g, s)) && WritesInOrder(g, Apply(g, s, steps[0]), steps[1..]))
  }

  // A crash at any moment of the run finds nothing violated.
  ghost predicate SafeThroughout(g: Geometry, s: State, steps: seq<Step>)
    requires Sane(g)
    decreases |steps|
  {
    CrashSafe(g, s) && (steps == [] || (Enabled(g, s, steps[0]) && SafeThroughout(g, Apply(g, s, steps[0]), steps[1..])))
  }

  lemma {:induction false} SafeExactly(g: Geometry, s: State, steps: seq<Step>, s': State)
    requires Sane(g) && Inv(g, s) && Reaches(g, s, steps, s')
    ensures SafeThroughout(g, s, steps) <==> WritesInOrder(g, s, steps)
    decreases |steps|
  {
    hide LogInv, MarkInv, HintInv, CrashSafe, PagesDone, Enabled, Apply;
    if steps != [] {
      var step := steps[0];
      var s1 := Apply(g, s, step);
      if step.WriteLog? && !PagesDone(g, s) {
        WriteLogExact(g, s);
        assert !SafeThroughout(g, s1, steps[1..]);
      } else {
        StepKeeps(g, s, step);
        SafeExactly(g, s1, steps[1..], s');
      }
    }
  }

  lemma AttachedInv(g: Geometry, s: State)
    requires Sane(g) && Attached(g, s)
    ensures Inv(g, s)
  {
  }

  /** Crash safety, for every run from attach on: at every moment each block that was written
   *  locally and is not known to be OK on a peer is in an extent of the on-disk log, or its
   *  bit is set in the on-disk bitmap, if and only if the log is never written while an
   *  owed block of a leaving extent depends on a page write that is not complete.
   */
  lemma CrashSafeExactly(g: Geometry, s0: State, steps: seq<Step>, s: State)
    requires Sane(g) && Attached(g, s0) && Reaches(g, s0, steps, s)
    ensures SafeThroughout(g, s0, steps) <==> WritesInOrder(g, s0, steps)
  {
    hide Inv, SafeThroughout, WritesInOrder;
    AttachedInv(g, s0);
    SafeExactly(g, s0, steps, s);
  }

  lemma {:induction false} GuardedInOrder(g: Geometry, s: State, steps: seq<Step>)
    requires Sane(g) && Inv(g, s) && GuardedRun(g, s, steps)
    ensures WritesInOrder(g, s, steps)
    decreases |steps|
  {
    hide LogInv, MarkInv, HintInv, CrashSafe, PagesDone, Apply, Guarded;
    if steps != [] {
      if steps[0].WriteLog? { GuardSuffices(g, s); }
      StepKeeps(g, s, steps[0]);
      GuardedInOrder(g, Apply(g, s, steps[0]), steps[1..]);
    }
  }

  /** So every run is crash safe that does not write the log while a write of a hinted page
   *  is under way.
   */
  lemma AlwaysCrashSafe(g: Geometry, s0: State, steps: seq<Step>, s: State)
    requires Sane(g) && Attached(g, s0) && Reaches(g, s0, steps, s) && GuardedRun(g, s0, steps)
    ensures SafeThroughout(g, s0, steps) && CrashSafe(g, s)
  {
    hide Inv, CrashSafe;
    AttachedInv(g, s0);
    GuardedInOrder(g, s0, steps);
    SafeExactly(g, s0, steps, s);
    SafeAtEnd(g, s0, steps, s);
  }

  lemma {:induction false} SafeAtEnd(g: Geometry, s: State, steps: seq<Step>, s': State)
    requires Sane(g) && Reaches(g, s, steps, s') && SafeThroughout(g, s, steps)
    ensures CrashSafe(g, s')
    decreases |steps|
  {
    hide CrashSafe, Enabled, Apply;
    if steps != [] { SafeAtEnd(g, Apply(g, s, steps[0]), steps[1..], s'); }
  }

  // ---- references ----

  lemma LogStepKeeps(g: Geometry, s: State, step: Step)
    requires Sane(g) && LogInv(g, s) && Enabled(g, s, step)
    ensures LogInv(g, Apply(g, s, step))
  {
    hide LogInv, Puts, Gets;
    match step
    case Arrive(r) => ArriveLog(g, s, r);
    case Fastpath(k, lc) => FastpathLog(g, s, k, lc);
    case Nonblock(k, lc, next, complete) => NonblockLog(g, s, k, lc, next, complete);
    case WriteLog => WrittenLog(g, s);
    case Commit => CommitLog(g, s);
    case Submit(k) => SubmitLog(g, s, k);
    case Done(k, ok, inSync, lc) =>
      DoneLog(g, s, k, lc);
      LogOnly(g, s.(lc := lc, reqs := WithPhase(s.reqs, k, Gone)), Apply(g, s, step));
    case _ => LogOnly(g, s, Apply(g, s, step));
  }

  lemma WrittenLog(g: Geometry, s: State)
    requires Sane(g) && LogInv(g, s) && Enabled(g, s, WriteLog)
    ensures LogInv(g, Apply(g, s, WriteLog))
  {
  }

  lemma {:induction false} LogRunKeeps(g: Geometry, s: State, steps: seq<Step>, s': State)
    requires Sane(g) && LogInv(g, s) && Reaches(g, s, steps, s')
    ensures LogInv(g, s')
    decreases |steps|
  {
    hide LogInv, Enabled, Apply;
    if steps != [] {
      LogStepKeeps(g, s, steps[0]);
      LogRunKeeps(g, Apply(g, s, steps[0]), steps[1..], s');
    }
  }

  /** In every run, guarded or not, the reference count of an extent is the number of requests
   *  that hold it; so what a request gives back in the end is there.
   */
  lemma ReferencesConserved(g: Geometry, s0: State, steps: seq<Step>, s: State, x: nat)
    requires Sane(g) && Attached(g, s0) && Reaches(g, s0, steps, s)
    ensures Refs(s.lc, x) == Holders(s.reqs, x)
    ensures forall k | 0 <= k < |s.reqs| && Holds(s.reqs[k], x) :: Refs(s.lc, x) > 0
  {
    AttachedInv(g, s0);
    LogRunKeeps(g, s0, steps, s);
    forall k | 0 <= k < |s.reqs| && Holds(s.reqs[k], x) ensures Refs(s.lc, x) > 0 {
      HolderCounts(s.reqs, k, x);
    }
  }

  // ---- without the guard ----

  lemma {:induction false} OneMoreStep(g: Geometry, s0: State, steps: seq<Step>, s: State, step: Step)
    requires Sane(g) && Reaches(g, s0, steps, s) && Enabled(g, s, step)
    ensures Reaches(g, s0, steps + [step], Apply(g, s, step))
    decreases |steps|
  {
    hide Enabled, Apply;
    if steps == [] {
      assert [step][1..] == [];
      assert Reaches(g, Apply(g, s, step), [], Apply(g, s, step));
      assert steps + [step] == [step];
    } else {
      OneMoreStep(g, Apply(g, s0, steps[0]), steps[1..], s, step);
      assert (steps + [step])[1..] == steps[1..] + [step];
    }
  }

  lemma Take(g: Geometry, s0: State, steps: seq<Step>, s: State, step: Step) returns (more: seq<Step>, s': State)
    requires Sane(g) && Reaches(g, s0, steps, s) && Enabled(g, s, step)
    ensures s' == Apply(g, s, step) && Reaches(g, s0, more, s') && more == steps + [step]
  {
    OneMoreStep(g, s0, steps, s, step);
    more, s' := steps + [step], Apply(g, s, step);
  }

  const SMALL := Geometry(1, 1, 64, 32)
  const FRESH := State([Element(LC_FREE, LC_FREE, 0)], {}, [], {Block(0, 1)}, {Block(0, 1)}, {}, {}, map[], Idle, {})
  const FIRST := Req(0, 0, 0, {0}, {}, Waiting)
  const SECOND := Req(1, 1, 0, {32}, {}, Waiting)

  // A write to extent 0 that no peer receives, while another block of the page is marked.
  const MARKED := State([Element(0, 0, 0)], {0}, [FIRST.(phase := Gone)], {Block(0, 0), Block(0, 1)}, {Block(0, 1)}, {0}, {},
                        map[], Idle, {Block(0, 0)})

  // That other block gets in sync; then the page is written lazily, and the write is not
  // complete yet when the next transaction is to start.
  const MISSED := MARKED.(mem := {Block(0, 0)}, flagged := {}, lazy := {}, io := map[0 := {Block(0, 0)}])

  // Evicting extent 0 for a write to extent 1.
  const EVICTING := MISSED.(lc := [Element(0, 1, 1)], reqs := [FIRST.(phase := Gone), SECOND.(phase := Pending)])

  lemma OneSlot(e: Element)
    requires e.newNumber != LC_FREE
    ensures NewNumbers([e]) == {e.newNumber}
  {
    assert [e][0].newNumber in NewNumbers([e]);
  }

  lemma FirstInLog() returns (steps: seq<Step>)
    ensures Reaches(SMALL, FRESH, steps, FRESH.(lc := [Element(0, 0, 1)], diskLog := {0}, reqs := [FIRST.(phase := InLog)]))
  {
    hide Reaches;
    var g, s := SMALL, FRESH;
    steps := [];
    assert Reaches(g, s, steps, s) by { NoSteps(g, s); }
    steps, s := Take(g, FRESH, steps, s, Arrive(FIRST));
    var lc := [Element(LC_FREE, 0, 1)];
    assert MissAt(s.lc, lc, 0, 0);
    OneMoreGet(s.lc, s.lc, lc, 0, 0);
    steps, s := Take(g, FRESH, steps, s, Nonblock(0, lc, 0, true));
    assert s == FRESH.(lc := lc, reqs := [FIRST.(phase := Pending)]);
    steps, s := Take(g, FRESH, steps, s, Begin({}));
    steps, s := Take(g, FRESH, steps, s, WriteLog);
    steps, s := Take(g, FRESH, steps, s, Commit);
    assert s.lc == [Element(0, 0, 1)];
    assert s.reqs == [FIRST.(phase := InLog)];
    OneSlot(lc[0]);
  }

  lemma NoSteps(g: Geometry, s: State)
    requires Sane(g)
    ensures Reaches(g, s, [], s)
  {
  }

  const SUBMITTED := FRESH.(lc := [Element(0, 0, 1)], diskLog := {0}, reqs := [FIRST.(phase := Submitted)], owed := {Block(0, 0)})

  lemma FirstPage(bit: nat)
    requires bit < 32
    ensures Page(SMALL, Block(0, bit)) == 0 && Extent(SMALL, Block(0, bit)) == 0
  {
  }

  lemma FirstMarked()
    ensures Marked(SMALL, SUBMITTED, MARKED.mem, {}, [FIRST.(phase := Gone)]).(lc := [Element(0, 0, 0)]) == MARKED
  {
    hide UnderWay, Page;
    var g, b, s := SMALL, Block(0, 0), SUBMITTED;
    FirstPage(0);
    assert (MARKED.mem - s.mem) + (s.mem - MARKED.mem) == {b} && s.mem - MARKED.mem == {};
    assert PagesOf(g, {b}) == {0} && PagesOf(g, {}) == {};
  }

  lemma FirstMissed()
    ensures var step := Done(0, {}, {}, [Element(0, 0, 0)]);
            Enabled(SMALL, SUBMITTED, step) && Apply(SMALL, SUBMITTED, step) == MARKED
  {
    hide Marked, Puts, Page;
    var g, b, s, lc := SMALL, Block(0, 0), SUBMITTED, [Element(0, 0, 0)];
    assert Puts(s.lc, lc, 0, 1) by { FirstPut(); }
    assert Blocks(g, {0}) == {b} && On(g, {0}, {}) == {} && On(g, {}, {}) == {};
    assert s.mem + (Blocks(g, {0}) - On(g, {0}, {})) - On(g, {}, {}) == MARKED.mem;
    assert WithPhase(s.reqs, 0, Gone) == [FIRST.(phase := Gone)];
    FirstMarked();
  }

  lemma OtherInSync()
    ensures Apply(SMALL, MARKED, SetInSync({Block(0, 1)})) == MARKED.(mem := {Block(0, 0)}, lazy := {0})
  {
    hide UnderWay, Page;
    var g, b, s := SMALL, Block(0, 1), MARKED;
    FirstPage(1);
    var mem := s.mem - {b};
    assert mem == {Block(0, 0)} && (mem - s.mem) + (s.mem - mem) == {b} && s.mem - mem == {b};
    assert PagesOf(g, {b}) == {0};
    assert s.flagged + {0} == {0};
  }

  lemma FirstPut()
    ensures Puts([Element(0, 0, 1)], [Element(0, 0, 0)], 0, 1)
  {
    OneMorePut([Element(0, 0, 1)], [Element(0, 0, 1)], [Element(0, 0, 0)], 0, 0);
  }

  lemma MissedReached() returns (steps: seq<Step>)
    ensures Reaches(SMALL, FRESH, steps, MISSED)
  {
    hide Reaches, Marked, Page;
    var g, b := SMALL, Block(0, 0);
    steps := FirstInLog();
    var s := FRESH.(lc := [Element(0, 0, 1)], diskLog := {0}, reqs := [FIRST.(phase := InLog)]);
    steps, s := Take(g, FRESH, steps, s, Submit(0));
    assert s.owed == {b};
    assert s == SUBMITTED;
    FirstMissed();
    steps, s := Take(g, FRESH, steps, s, Done(0, {}, {}, [Element(0, 0, 0)]));
    OtherInSync();
    steps, s := Take(g, FRESH, steps, s, SetInSync({Block(0, 1)}));
    steps, s := Take(g, FRESH, steps, s, WriteLazy(0));
    FirstPage(0);
    assert Snapshot(g, {b}, 0) == {b};
    assert s.io == MISSED.io && s.flagged == MISSED.flagged && s.lazy == MISSED.lazy;
    assert s == MISSED;
  }

  lemma EvictingReached() returns (steps: seq<Step>)
    ensures Reaches(SMALL, FRESH, steps, EVICTING)
  {
    hide Reaches;
    var g := SMALL;
    steps := MissedReached();
    var s := MISSED;
    steps, s := Take(g, FRESH, steps, s, Arrive(SECOND));
    var lc := [Element(0, 1, 1)];
    assert MissAt(s.lc, lc, 1, 0);
    OneMoreGet(s.lc, s.lc, lc, 1, 1);
    steps, s := Take(g, FRESH, steps, s, Nonblock(1, lc, 0, true));
    assert s == EVICTING;
  }

  lemma EvictedOnFirstPage()
    ensures Enabled(SMALL, EVICTING, Begin({0}))
  {
    hide Page, Extent;
    var g, lc := SMALL, EVICTING.lc;
    forall slot, bit | 0 <= slot < g.peers && 0 <= bit < g.bits && Evicted(lc, Extent(g, Block(slot, bit)))
      ensures Page(g, Block(slot, bit)) in {0}
    {
      SecondExtent(bit);
      FirstPage(bit);
    }
  }

  lemma SecondExtent(bit: nat)
    requires Evicted(EVICTING.lc, Extent(SMALL, Block(0, bit)))
    ensures bit < 32
  {
  }

  /** Without the guard the code is not crash safe: the transaction skips the page, which
   *  is not flagged any more, and evicts extent 0 while the page is not on disk.
   */
  lemma UnguardedRun() returns (steps: seq<Step>, s: State)
    ensures Attached(SMALL, FRESH) && Reaches(SMALL, FRESH, steps, s) && !CrashSafe(SMALL, s)
  {
    hide Reaches, Page;
    var g, b := SMALL, Block(0, 0);
    steps := EvictingReached();
    s := EVICTING;
    EvictedOnFirstPage();
    steps, s := Take(g, FRESH, steps, s, Begin({0}));
    steps, s := Take(g, FRESH, steps, s, WriteHinted(0));
    steps, s := Take(g, FRESH, steps, s, WriteLog);
    OneSlot(s.lc[0]);
    assert b in s.owed && Extent(g, b) == 0;
  }
}
