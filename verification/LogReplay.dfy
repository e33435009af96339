/** The activity log on disk: a striped ring of 4k blocks, one per transaction.
 *
 * A transaction holds up to 64 slots that change, and as context the next 919 slots
 * as they were before it.  The reader of the ring is not part of the repository; what
 * it does is `Replay`: oldest transaction first, the context of each and then its updates.
 */
module LogReplay {
  import opened ActLog
  import opened Arithmetic

  const UPDATES: nat := 64
  const CONTEXT: nat := 919
  const NO_SLOT: int := -1

  datatype Update = Update(slot: int, extent: int)

  /** One block of the ring; `updates` and `context` are padded to their full length. */
  datatype Record = Record(number: nat, updates: seq<Update>, nUpdates: nat,
                           contextSize: nat, start: nat, context: seq<int>)

  // ---- where a transaction goes ----

  function RingSize(stripes: nat, stripeSize: nat): (n: nat)
    requires stripes > 0 && stripeSize > 0
    ensures n > 0 && n == stripes * stripeSize
  {
    MulPositive(stripes, stripeSize);
    stripes * stripeSize
  }

  // Consecutive blocks go to different stripes.
  function Spread(t: nat, stripes: nat, stripeSize: nat): (b: nat)
    requires stripes > 0 && t < stripes * stripeSize
    ensures b < stripes * stripeSize
  {
    InStripe(t, stripes, stripeSize);
    (t % stripes) * stripeSize + t / stripes
  }

  /** The 4k block of the ring, counted from the start of the area. */
  function RingBlock(number: nat, stripes: nat, stripeSize: nat): (b: nat)
    requires stripes > 0 && stripeSize > 0
    ensures b < stripes * stripeSize
  {
    Spread(number % RingSize(stripes, stripeSize), stripes, stripeSize)
  }

  /** The first of the eight sectors; all are inside the area of the log. */
  function OnDiskSector(number: nat, stripes: nat, stripeSize: nat, mdOffset: int, alOffset: int): (s: int)
    requires stripes > 0 && stripeSize > 0
    ensures mdOffset + alOffset <= s && s + 8 <= mdOffset + alOffset + stripes * stripeSize * 8
  {
    mdOffset + alOffset + RingBlock(number, stripes, stripeSize) * 8
  }

  lemma MulPositive(a: nat, b: nat)
    requires a > 0 && b > 0
    ensures a * b > 0
  {
  }

  lemma InStripe(t: nat, stripes: nat, stripeSize: nat)
    requires stripes > 0 && t < stripes * stripeSize
    ensures 0 <= t / stripes < stripeSize && (t % stripes) * stripeSize >= 0
    ensures (t % stripes) * stripeSize + t / stripes < stripes * stripeSize
  {
    DivModParts(t, stripes);
    var q: nat := t / stripes;
    if q >= stripeSize {
      MulMonotone(stripeSize, q, stripes);
      assert false;
    }
    MulMonotone(t % stripes + 1, stripes, stripeSize);
    assert (t % stripes + 1) * stripeSize == (t % stripes) * stripeSize + stripeSize;
  }

  lemma SameBlock(t: nat, u: nat, stripes: nat, stripeSize: nat)
    requires stripes > 0 && t < stripes * stripeSize && u < stripes * stripeSize
    requires Spread(t, stripes, stripeSize) == Spread(u, stripes, stripeSize)
    ensures t == u
  {
    InStripe(t, stripes, stripeSize);
    InStripe(u, stripes, stripeSize);
    DivModUnique(t % stripes, t / stripes, stripeSize);
    DivModUnique(u % stripes, u / stripes, stripeSize);
    DivModParts(t, stripes);
    DivModParts(u, stripes);
  }

  lemma SameRemainder(a: nat, b: nat, n: nat)
    requires n > 0 && a <= b < a + n && a % n == b % n
    ensures a == b
  {
    DivModParts(a, n);
    DivModParts(b, n);
    assert (b / n - a / n) * n == b / n * n - a / n * n;
    SmallMultiple(b / n - a / n, n);
  }

  /** As many consecutive transactions as the ring has blocks never share a block. */
  lemma RingDistinct(a: nat, b: nat, stripes: nat, stripeSize: nat)
    requires stripes > 0 && stripeSize > 0 && a <= b < a + stripes * stripeSize
    ensures RingBlock(a, stripes, stripeSize) == RingBlock(b, stripes, stripeSize) <==> a == b
  {
    var n: nat := stripes * stripeSize;
    if RingBlock(a, stripes, stripeSize) == RingBlock(b, stripes, stripeSize) {
      SameBlock(a % n, b % n, stripes, stripeSize);
      SameRemainder(a, b, n);
    }
  }

  const WORD: nat := 0x1_0000_0000

  // Spreading with stripes and stripe size swapped is the inverse: every block is that of
  // some number below the ring size,
  lemma SpreadOnto(b: nat, stripes: nat, stripeSize: nat) returns (t: nat)
    requires stripes > 0 && stripeSize > 0 && b < stripes * stripeSize
    ensures t < stripes * stripeSize && Spread(t, stripes, stripeSize) == b
  {
    var q, r := b / stripeSize, b % stripeSize;
    assert stripeSize * stripes == stripes * stripeSize;
    InStripe(b, stripeSize, stripes);
    t := Spread(b, stripeSize, stripes);
    assert t == r * stripes + q;
    DivModUnique(r, q, stripes);
    DivModParts(b, stripeSize);
  }

  // and of one of as many consecutive numbers as the ring has blocks.
  lemma RingOnto(from: nat, b: nat, stripes: nat, stripeSize: nat) returns (k: nat)
    requires stripes > 0 && stripeSize > 0 && b < stripes * stripeSize
    ensures from <= k < from + stripes * stripeSize && RingBlock(k, stripes, stripeSize) == b
  {
    var n := RingSize(stripes, stripeSize);
    var t := SpreadOnto(b, stripes, stripeSize);
    k := NextWithRest(from, t, n);
  }

  lemma NextWithRest(from: nat, t: nat, n: nat) returns (k: nat)
    requires t < n
    ensures from <= k < from + n && k % n == t
  {
    var q, r := from / n, from % n;
    DivModParts(from, n);
    if r <= t {
      k := q * n + t;
      DivModUnique(q, t, n);
    } else {
      k := (q + 1) * n + t;
      assert (q + 1) * n == q * n + n;
      DivModUnique(q + 1, t, n);
    }
  }

  lemma SameResidue(a: nat, b: nat, stripes: nat, stripeSize: nat)
    requires stripes > 0 && stripeSize > 0
    requires var n: nat := stripes * stripeSize; n > 0 && a % n == b % n
    ensures RingBlock(a, stripes, stripeSize) == RingBlock(b, stripes, stripeSize)
  {
  }

  /** The transaction number is a 32 bit counter.  Where it wraps around, the transactions
   *  still keep apart if and only if the size of the ring divides 2^32.
   */
  lemma RingAcrossWrap(stripes: nat, stripeSize: nat)
    requires stripes > 0 && stripeSize > 0 && 0 < stripes * stripeSize < WORD
    ensures WORD % (stripes * stripeSize) == 0 <==>
            forall a: nat, b: nat | a < b < a + stripes * stripeSize ::
              RingBlock(a % WORD, stripes, stripeSize) != RingBlock(b % WORD, stripes, stripeSize)
  {
    hide RingBlock;
    var n: nat := stripes * stripeSize;
    if WORD % n == 0 {
      forall a: nat, b: nat | a < b < a + n
        ensures RingBlock(a % WORD, stripes, stripeSize) != RingBlock(b % WORD, stripes, stripeSize)
      {
        WrapInvisible(a, n);
        WrapInvisible(b, n);
        SameResidue(a, a % WORD, stripes, stripeSize);
        SameResidue(b, b % WORD, stripes, stripeSize);
        RingDistinct(a, b, stripes, stripeSize);
      }
    } else {
      WrapCollides(stripes, stripeSize);
    }
  }

  lemma WrapCollides(stripes: nat, stripeSize: nat)
    requires stripes > 0 && stripeSize > 0 && 0 < stripes * stripeSize < WORD
    requires WORD % (stripes * stripeSize) != 0
    ensures exists a: nat, b: nat :: a < b < a + stripes * stripeSize &&
              RingBlock(a % WORD, stripes, stripeSize) == RingBlock(b % WORD, stripes, stripeSize)
  {
    hide RingBlock;
    var n: nat := stripes * stripeSize;
    var a: nat := WORD - WORD % n;
    Multiple(n);
    assert a % WORD == a && WORD % WORD == 0;
    SameResidue(a, 0, stripes, stripeSize);
    assert RingBlock(a % WORD, stripes, stripeSize) == RingBlock(WORD % WORD, stripes, stripeSize);
  }

  lemma Multiple(n: nat)
    requires 0 < n < WORD
    ensures (WORD - WORD % n) % n == 0
  {
    DivModParts(WORD, n);
    DivModUnique(WORD / n, 0, n);
  }

  lemma WrapInvisible(a: nat, n: nat)
    requires 0 < n < WORD && WORD % n == 0
    ensures a % WORD % n == a % n
  {
    var c, q := WORD / n, a / WORD;
    DivModParts(WORD, n);
    DivModParts(a, WORD);
    assert q * WORD == (q * c) * n;
    AddMultiple(q * c, a % WORD, n);
  }

  lemma AddMultiple(k: nat, r: nat, n: nat)
    requires n > 0
    ensures (k * n + r) % n == r % n
  {
    DivModParts(r, n);
    assert (k + r / n) * n == k * n + r / n * n;
    DivModUnique(k + r / n, r % n, n);
  }

  // ---- what replay yields ----

  // al_tr_cycle after one more transaction
  function NextCycle(cycle: nat, nr: nat): nat {
    if cycle + CONTEXT >= nr then 0 else cycle + CONTEXT
  }

  // Transactions until every slot has been in the context.
  function Rounds(nr: nat): nat {
    (nr + CONTEXT - 1) / CONTEXT
  }

  predicate InContext(r: Record, j: int) {
    r.start <= j < r.start + CONTEXT
  }

  predicate Shaped(r: Record) {
    |r.updates| == UPDATES && r.nUpdates <= UPDATES && |r.context| == CONTEXT
  }

  function WithContext(m: seq<int>, r: Record): (m': seq<int>)
    requires Shaped(r)
    ensures |m'| == |m|
  {
    seq(|m|, j requires 0 <= j < |m| => if InContext(r, j) then r.context[j - r.start] else m[j])
  }

  function WithUpdates(m: seq<int>, r: Record, n: nat): (m': seq<int>)
    requires Shaped(r) && n <= r.nUpdates
    ensures |m'| == |m|
  {
    if n == 0 then m
    else
      var u := r.updates[n - 1];
      var before := WithUpdates(m, r, n - 1);
      if 0 <= u.slot < |m| then before[u.slot := u.extent] else before
  }

  function Replay(m: seq<int>, log: seq<Record>): (m': seq<int>)
    requires forall t | 0 <= t < |log| :: Shaped(log[t])
    ensures |m'| == |m|
    decreases |log|
  {
    if log == [] then m
    else Replay(WithUpdates(WithContext(m, log[0]), log[0], log[0].nUpdates), log[1..])
  }

  /** The record takes the slots from `before` to `after`. */
  ghost predicate Takes(r: Record, before: seq<int>, after: seq<int>) {
    && Shaped(r) && |before| == |after|
    && (forall j | 0 <= j < |before| && InContext(r, j) :: r.context[j - r.start] == before[j])
    && (forall i | 0 <= i < r.nUpdates :: 0 <= r.updates[i].slot < |after|
                                          && after[r.updates[i].slot] == r.updates[i].extent)
    && (forall j | 0 <= j < |before| && before[j] != after[j] ::
          exists i :: 0 <= i < r.nUpdates && r.updates[i].slot == j)
  }

  // The record leads to these slots: it is what replay sets those to that it speaks of.
  ghost predicate LeadsTo(r: Record, m: seq<int>) {
    exists before :: Takes(r, before, m)
  }

  predicate Block0(c: nat, nr: nat) {
    c % CONTEXT == 0 && (c < nr || c == 0)
  }

  /** All transactions ever written and what the slots were before each and at the end. */
  ghost predicate History(nr: nat, maps: seq<seq<int>>, log: seq<Record>) {
    && |maps| == |log| + 1
    && (forall t | 0 <= t < |maps| :: |maps[t]| == nr)
    && (forall t | 0 <= t < |log| :: Shaped(log[t]) && Takes(log[t], maps[t], maps[t + 1]))
    && (forall t | 0 <= t < |log| :: Block0(log[t].start, nr))
    && (forall t | 0 < t < |log| :: log[t].start == NextCycle(log[t - 1].start, nr))
  }

  lemma {:induction false} UpdatesAt(m: seq<int>, r: Record, n: nat, before: seq<int>, after: seq<int>, j: nat)
    requires Takes(r, before, after) && n <= r.nUpdates && |m| == |after| && j < |m|
    ensures WithUpdates(m, r, n)[j] ==
            if exists i :: 0 <= i < n && r.updates[i].slot == j then after[j] else m[j]
  {
    if n > 0 {
      UpdatesAt(m, r, n - 1, before, after, j);
      assert r.updates[n - 1].slot == j ==> exists i :: 0 <= i < n && r.updates[i].slot == j;
    }
  }

  // One record brings a slot up to date, if the slot was or is in the context.
  lemma RecordAt(m: seq<int>, r: Record, before: seq<int>, after: seq<int>, j: nat)
    requires Takes(r, before, after) && |m| == |after| && j < |m|
    requires m[j] == before[j] || InContext(r, j)
    ensures WithUpdates(WithContext(m, r), r, r.nUpdates)[j] == after[j]
  {
    UpdatesAt(WithContext(m, r), r, r.nUpdates, before, after, j);
    assert WithContext(m, r)[j] == before[j];
  }

  lemma {:induction false} ReplayAt(nr: nat, maps: seq<seq<int>>, log: seq<Record>, from: nat, u: nat, m: seq<int>, j: nat)
    requires History(nr, maps, log) && from <= |log| && |m| == nr && j < nr
    requires m[j] == maps[from][j] || (from <= u < |log| && InContext(log[u], j))
    ensures Replay(m, log[from..])[j] == maps[|log|][j]
    decreases |log| - from
  {
    if from < |log| {
      var r := log[from];
      var m' := WithUpdates(WithContext(m, r), r, r.nUpdates);
      if m[j] == maps[from][j] || u == from {
        RecordAt(m, r, maps[from], maps[from + 1], j);
      }
      assert log[from..][1..] == log[from + 1..];
      ReplayAt(nr, maps, log, from + 1, u, m', j);
    }
  }

  // Transactions from the one with context at block b until the one with block q.
  function Distance(b: nat, q: nat, k: nat): nat
    requires b < k && q < k
  {
    if q >= b then q - b else q + k - b
  }

  lemma {:induction false} Covered(nr: nat, maps: seq<seq<int>>, log: seq<Record>, t: nat, j: nat) returns (u: nat)
    requires History(nr, maps, log) && j < nr && t < |log|
    requires log[t].start / CONTEXT < Rounds(nr) && j / CONTEXT < Rounds(nr)
    requires t + Distance(log[t].start / CONTEXT, j / CONTEXT, Rounds(nr)) < |log|
    ensures t <= u < |log| && InContext(log[u], j)
    decreases Distance(log[t].start / CONTEXT, j / CONTEXT, Rounds(nr))
  {
    if log[t].start / CONTEXT == j / CONTEXT {
      u := t;
    } else {
      assert log[t + 1].start == NextCycle(log[t].start, nr);
      u := Covered(nr, maps, log, t + 1, j);
    }
  }

  /** Replay of the last Rounds(nr) transactions or more yields the slots as they are after
   *  the last one, whatever it starts from.
   */
  lemma ReplayExact(nr: nat, maps: seq<seq<int>>, log: seq<Record>, from: nat, m: seq<int>)
    requires History(nr, maps, log) && from + Rounds(nr) <= |log| && |m| == nr
    ensures Replay(m, log[from..]) == maps[|log|]
  {
    forall j: nat | j < nr ensures Replay(m, log[from..])[j] == maps[|log|][j] {
      var u := Covered(nr, maps, log, from, j);
      ReplayAt(nr, maps, log, from, u, m, j);
    }
  }

  // ---- the writer ----

  function NumberSeq(lc: Cache): seq<int> {
    seq(|lc|, i requires 0 <= i < |lc| => lc[i].number)
  }

  function NewNumberSeq(lc: Cache): seq<int> {
    seq(|lc|, i requires 0 <= i < |lc| => lc[i].newNumber)
  }

  // The to_be_changed list of the cache; it admits no more than fit a transaction.
  ghost predicate Listed(lc: Cache, changed: seq<nat>) {
    && |changed| <= UPDATES
    && (forall i | 0 <= i < |changed| :: changed[i] < |lc|)
    && (forall j | 0 <= j < |lc| && Changing(lc[j]) :: j in changed)
  }

  // drbd_al_extents_max
  function ExtentsMax(size: nat, max: nat): nat
    requires size > 0
  {
    if size > Rounds(max) then max else (size - 1) * CONTEXT
  }

  /** With that many slots the transactions that replay needs fit the ring with one block to
   *  spare, the one that is being written.
   */
  lemma RingSuffices(size: nat, max: nat, nr: nat)
    requires size > 0 && nr <= ExtentsMax(size, max)
    ensures Rounds(nr) < size
  {
  }

  // The last transactions are in the ring.
  ghost predicate InRing(ring: seq<Record>, stripes: nat, stripeSize: nat, base: nat, log: seq<Record>) {
    && stripes > 0 && stripeSize > 0 && |ring| == stripes * stripeSize
    && forall t | 0 <= t < |log| && |log| - t <= |ring| :: ring[RingBlock(base + t, stripes, stripeSize)] == log[t]
  }

  // The transaction that is written replaces none of the ones before that count.
  lemma RingExtended(ring: seq<Record>, stripes: nat, stripeSize: nat, base: nat, log: seq<Record>, r: Record)
    requires InRing(ring, stripes, stripeSize, base, log)
    ensures InRing(ring[RingBlock(base + |log|, stripes, stripeSize) := r], stripes, stripeSize, base, log + [r])
  {
    hide RingBlock;
    var n := base + |log|;
    var log', ring' := log + [r], ring[RingBlock(n, stripes, stripeSize) := r];
    forall t | 0 <= t < |log'| && |log'| - t <= |ring'|
      ensures ring'[RingBlock(base + t, stripes, stripeSize)] == log'[t]
    {
      RingDistinct(base + t, n, stripes, stripeSize);
    }
  }

  // The last `k` transactions before `next`, oldest first.
  function Recent(ring: seq<Record>, stripes: nat, stripeSize: nat, next: nat, k: nat): (log: seq<Record>)
    requires stripes > 0 && stripeSize > 0 && |ring| == stripes * stripeSize && k <= next
    ensures |log| == k && forall i | 0 <= i < k :: log[i] == ring[RingBlock(next - k + i, stripes, stripeSize)]
  {
    seq(k, i requires 0 <= i < k => ring[RingBlock(next - k + i, stripes, stripeSize)])
  }

  function Damaged(ring: seq<Record>, stripes: nat, stripeSize: nat, next: nat, torn: Record): (ring': seq<Record>)
    requires stripes > 0 && stripeSize > 0 && |ring| == stripes * stripeSize
    ensures |ring'| == |ring|
  {
    ring[RingBlock(next, stripes, stripeSize) := torn]
  }

  ghost predicate Yields(log: seq<Record>, m: seq<int>, m': seq<int>) {
    (forall t | 0 <= t < |log| :: Shaped(log[t])) && Replay(m, log) == m'
  }

  /** Reading back the ring: after a crash during the next write, with any rubbish in that
   *  block, the transactions before it still yield the slots as they were; and after it
   *  the slots as they are then.
   */
  lemma Recovery(ring: seq<Record>, stripes: nat, stripeSize: nat, base: nat, log: seq<Record>,
                 nr: nat, maps: seq<seq<int>>, torn: Record, m: seq<int>)
    requires InRing(ring, stripes, stripeSize, base, log) && History(nr, maps, log) && |m| == nr
    requires Rounds(nr) <= |log| && Rounds(nr) < stripes * stripeSize
    ensures var next := base + |log|;
            Yields(Recent(Damaged(ring, stripes, stripeSize, next, torn), stripes, stripeSize, next, Rounds(nr)), m, maps[|log|])
  {
    hide RingBlock;
    var next, k := base + |log|, Rounds(nr);
    var recent := Recent(Damaged(ring, stripes, stripeSize, next, torn), stripes, stripeSize, next, k);
    var from: nat := |log| - k;
    forall i: nat | i < k ensures recent[i] == log[from + i] {
      RingDistinct(next - k + i, next, stripes, stripeSize);
      assert base + (from + i) == next - k + i;
      assert ring[RingBlock(base + (from + i), stripes, stripeSize)] == log[from + i];
    }
    assert recent == log[from..];
    ReplayExact(nr, maps, log, from, m);
  }

  // The last transactions, one per block, led to the same slots.
  lemma Filled(ring: seq<Record>, stripes: nat, stripeSize: nat, base: nat, log: seq<Record>, nr: nat, maps: seq<seq<int>>, m: seq<int>)
    requires InRing(ring, stripes, stripeSize, base, log) && History(nr, maps, log) && |ring| <= |log|
    requires forall t | |log| - |ring| < t <= |log| :: maps[t] == m
    ensures forall b | 0 <= b < |ring| :: LeadsTo(ring[b], m)
    ensures forall b | 0 <= b < |ring| && b != RingBlock(base + |log| - |ring|, stripes, stripeSize) :: Takes(ring[b], m, m)
  {
    hide RingBlock, Takes;
    var first := |log| - |ring|;
    forall b | 0 <= b < |ring|
      ensures LeadsTo(ring[b], m) && (b != RingBlock(base + first, stripes, stripeSize) ==> Takes(ring[b], m, m))
    {
      var k := RingOnto(base + first, b, stripes, stripeSize);
      var t := k - base;
      assert log[t] == ring[b];
      assert Takes(log[t], maps[t], maps[t + 1]);
    }
  }

  lemma NextBlock0(cycle: nat, nr: nat)
    requires Block0(cycle, nr)
    ensures Block0(NextCycle(cycle, nr), nr) && cycle <= nr
  {
  }

  lemma Extended(nr: nat, maps: seq<seq<int>>, log: seq<Record>, r: Record, m: seq<int>)
    requires History(nr, maps, log) && Takes(r, maps[|log|], m) && Block0(r.start, nr)
    requires log != [] ==> r.start == NextCycle(log[|log| - 1].start, nr)
    ensures History(nr, maps + [m], log + [r])
  {
  }

  lemma SizeOf(ring: seq<Record>, stripes: nat, stripeSize: nat, base: nat, log: seq<Record>)
    requires InRing(ring, stripes, stripeSize, base, log)
    ensures |ring| > 0
  {
    MulPositive(stripes, stripeSize);
  }

  lemma Unchanging(lc: Cache)
    ensures NewNumberSeq(AllCommitted(lc)) == NumberSeq(AllCommitted(lc)) == NewNumberSeq(lc)
  {
  }

  // What is written describes what is about to happen to the slots.
  lemma Described(lc: Cache, changed: seq<nat>, r: Record)
    requires Listed(lc, changed) && Shaped(r) && r.nUpdates == |changed|
    requires forall i | 0 <= i < |changed| :: r.updates[i] == Update(changed[i], lc[changed[i]].newNumber)
    requires forall j | r.start <= j < |lc| && j < r.start + CONTEXT :: r.context[j - r.start] == lc[j].number
    ensures Takes(r, NumberSeq(lc), NewNumberSeq(lc))
  {
    forall j | 0 <= j < |lc| && NumberSeq(lc)[j] != NewNumberSeq(lc)[j]
      ensures exists i :: 0 <= i < r.nUpdates && r.updates[i].slot == j
    {
      assert Changing(lc[j]);
      var i :| 0 <= i < |changed| && changed[i] == j;
      assert r.updates[i].slot == j;
    }
  }

  class Journal {
    const stripes: nat
    const stripeSize: nat
    var lc: Cache
    var changed: seq<nat>
    var number: nat           // al_tr_number
    var cycle: nat            // al_tr_cycle
    var ring: array<Record>
    ghost var base: nat               // the number of the first transaction of the history
    ghost var log: seq<Record>
    ghost var maps: seq<seq<int>>

    ghost predicate Valid()
      reads this, ring
    {
      && InRing(ring[..], stripes, stripeSize, base, log)
      && Listed(lc, changed)
      && History(|lc|, maps, log)
      && number == base + |log| && |maps| == |log| + 1
      && Block0(cycle, |lc|) && (log != [] ==> cycle == NextCycle(log[|log| - 1].start, |lc|))
    }

    // The updates of the next transaction, padded.
    method Updates() returns (updates: seq<Update>, n: nat)
      requires Listed(lc, changed)
      ensures |updates| == UPDATES && n == |changed|
      ensures forall i | 0 <= i < n :: updates[i] == Update(changed[i], lc[changed[i]].newNumber)
    {
      updates := [];
      while |updates| < |changed|
        invariant |updates| <= |changed|
        invariant forall i | 0 <= i < |updates| :: updates[i] == Update(changed[i], lc[changed[i]].newNumber)
      {
        var e := changed[|updates|];
        updates := updates + [Update(e, lc[e].newNumber)];
      }
      n := |updates|;
      while |updates| < UPDATES
        invariant n <= |updates| <= UPDATES
        invariant forall i | 0 <= i < n :: updates[i] == Update(changed[i], lc[changed[i]].newNumber)
      {
        updates := updates + [Update(NO_SLOT, LC_FREE)];
      }
    }

    // The context of the next transaction, padded.
    method Context() returns (context: seq<int>)
      requires cycle <= |lc|
      ensures |context| == CONTEXT
      ensures forall j | cycle <= j < |lc| && j < cycle + CONTEXT :: context[j - cycle] == lc[j].number
    {
      var mx := if CONTEXT < |lc| - cycle then CONTEXT else |lc| - cycle;
      context := [];
      while |context| < mx
        invariant |context| <= mx
        invariant forall i | 0 <= i < |context| :: context[i] == lc[cycle + i].number
      {
        context := context + [lc[cycle + |context|].number];
      }
      while |context| < CONTEXT
        invariant mx <= |context| <= CONTEXT
        invariant forall i | 0 <= i < mx :: context[i] == lc[cycle + i].number
      {
        context := context + [LC_FREE];
      }
    }

    /** Write the pending changes to the next block of the ring. */
    method WriteTransaction()
      requires Valid() && maps[|log|] == NumberSeq(lc)
      modifies this, ring
      ensures Valid() && lc == old(lc) && changed == old(changed) && ring == old(ring)
      ensures number == old(number) + 1 && base == old(base)
      ensures old(log) < log && |log| == |old(log)| + 1 && maps == old(maps) + [NewNumberSeq(lc)]
      ensures forall b | 0 <= b < ring.Length && b != RingBlock(old(number), stripes, stripeSize) :: ring[b] == old(ring[b])
    {
      hide RingBlock, Takes, History, Block0;
      NextBlock0(cycle, |lc|);
      var updates, n := Updates();
      var context := Context();
      var r := Record(number, updates, n, |lc|, cycle, context);
      Described(lc, changed, r);
      RingExtended(ring[..], stripes, stripeSize, base, log, r);
      Extended(|lc|, maps, log, r, NewNumberSeq(lc));
      cycle := cycle + CONTEXT;
      if cycle >= |lc| { cycle := 0; }
      ring[RingBlock(number, stripes, stripeSize)] := r;
      assert ring[..] == old(ring[..])[RingBlock(number, stripes, stripeSize) := r];
      number := number + 1;
      log, maps := log + [r], maps + [NewNumberSeq(lc)];
    }

    /** Make the changes current: lc_committed. */
    method Committed()
      requires Valid() && maps[|log|] == NewNumberSeq(lc)
      modifies this
      ensures Valid() && maps[|log|] == NumberSeq(lc) && lc == AllCommitted(old(lc)) && changed == []
      ensures ring == old(ring) && number == old(number) && log == old(log) && maps == old(maps) && base == old(base)
    {
      lc := AllCommitted(lc);
      changed := [];
      assert NumberSeq(lc) == NewNumberSeq(old(lc));
    }

    /** lc_get_cumulative on a miss: an unused slot is to be changed to the extent.  What the
     *  ring yields does not change.
     */
    method Relabel(i: nat, enr: nat)
      requires Valid() && maps[|log|] == NumberSeq(lc)
      requires i < |lc| && lc[i].refs == 0 && !Changing(lc[i]) && |changed| < UPDATES
      requires Lookup(lc, enr) == |lc|
      modifies this
      ensures Valid() && maps[|log|] == NumberSeq(lc) && MissAt(old(lc), lc, enr, i)
      ensures ring == old(ring) && number == old(number) && log == old(log) && maps == old(maps) && base == old(base)
    {
      lc := lc[i := Element(lc[i].number, enr, 1)];
      changed := changed + [i];
      assert NumberSeq(lc) == NumberSeq(old(lc));
    }

    /** drbd_al_begin_io_commit: with changes pending the ring yields the new extents from now
     *  on, and only then are they current.
     */
    method BeginIoCommit()
      requires Valid() && maps[|log|] == NumberSeq(lc)
      modifies this, ring
      ensures Valid() && maps[|log|] == NumberSeq(lc) && ring == old(ring) && base == old(base)
      ensures old(changed) != [] ==> lc == AllCommitted(old(lc)) && changed == [] && |log| == |old(log)| + 1
      ensures old(changed) == [] ==> lc == old(lc) && log == old(log) && ring[..] == old(ring[..])
    {
      if changed != [] {
        WriteTransaction();
        Committed();
      }
    }

    /** Commit what is pending, and then fill the ring with transactions that only carry
     *  context.  Whatever the ring held before, each block has a record of the current slots
     *  from now on, and all but the first carry nothing else.
     */
    method Initialize()
      requires Valid() && maps[|log|] == NumberSeq(lc)
      modifies this, ring
      ensures Valid() && maps[|log|] == NumberSeq(lc) && lc == AllCommitted(old(lc)) && ring == old(ring)
      ensures number == old(number) + ring.Length && |log| == |old(log)| + ring.Length
      ensures forall b | 0 <= b < ring.Length :: LeadsTo(ring[b], NumberSeq(lc))
      ensures forall b | 0 <= b < ring.Length && b != RingBlock(old(number), stripes, stripeSize) ::
        Takes(ring[b], NumberSeq(lc), NumberSeq(lc))
    {
      hide History, InRing, NumberSeq, NewNumberSeq;
      assert ring.Length > 0 by { SizeOf(ring[..], stripes, stripeSize, base, log); }
      WriteTransaction();
      Committed();
      var i := 1;
      while i < ring.Length
        invariant 1 <= i <= ring.Length && ring == old(ring)
        invariant Valid() && maps[|log|] == NumberSeq(lc) && lc == AllCommitted(old(lc)) && changed == []
        invariant number == old(number) + i && base == old(base) && |maps| == |log| + 1 == |old(log)| + i + 1
        invariant forall t | |old(log)| < t <= |log| :: maps[t] == NumberSeq(lc)
      {
        assert NewNumberSeq(lc) == NumberSeq(lc) by { Unchanging(old(lc)); }
        WriteTransaction();
        i := i + 1;
      }
      Filled(ring[..], stripes, stripeSize, base, log, |lc|, maps, NumberSeq(lc));
    }
  }
}
