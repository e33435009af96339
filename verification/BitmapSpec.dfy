/** What the bitmap operations mean, on plain bit sequences.
 *
 * The memory of the bitmap is one long bit sequence `m`.  `SlotBits` reads a
 * range of one peer's bits out of it; `Applied` says that a memory is another
 * one with an operation carried out on a range of one slot.
 */
module BitmapSpec {
  import opened Arithmetic
  import opened BitmapLayout

  datatype Op = Clear | Set | Test | Count | Merge | Extract | FindBit | FindZeroBit

  predicate Mutates(op: Op) {
    op.Clear? || op.Set? || op.Merge?
  }

  function NewBit(op: Op, bit: bool, extra: bool): bool {
    match op
    case Clear => false
    case Set => true
    case Merge => bit || extra
    case _ => bit
  }

  function Extra(buffer: seq<bool>, i: int): bool {
    0 <= i < |buffer| && buffer[i]
  }

  // The population count of a word or of any other run of bits.
  function Ones(w: seq<bool>): nat {
    if |w| == 0 then 0 else Ones(w[..|w| - 1]) + (if w[|w| - 1] then 1 else 0)
  }

  // Which bits of `w` does the operation turn over?  The first bit of `w` goes with
  // the bit `off` of the buffer.
  function Flips(op: Op, w: seq<bool>, buffer: seq<bool>, off: int): seq<bool> {
    seq(|w|, i requires 0 <= i < |w| => NewBit(op, w[i], Extra(buffer, off + i)) != w[i])
  }

  function BitNr(peers: nat, at: nat): nat
    requires peers > 0
  {
    at / 32 / peers * 32 + at % 32
  }

  predicate BitAt(peers: nat, m: seq<bool>, slot: nat, bit: nat) {
    Position(peers, slot, bit) < |m| && m[Position(peers, slot, bit)]
  }

  // The bits [lo, hi) of a slot, as a plain sequence.
  function SlotBits(peers: nat, m: seq<bool>, slot: nat, lo: nat, hi: nat): (s: seq<bool>)
    requires lo <= hi
    ensures |s| == hi - lo
  {
    seq(hi - lo, i requires 0 <= i < hi - lo => BitAt(peers, m, slot, lo + i))
  }

  /** `m'` is `m` after `op` on the bits [lo, hi) of `slot`; bit `first` of the
   *  slot goes with the first bit of the buffer.
   */
  ghost predicate Applied(peers: nat, op: Op, m: seq<bool>, m': seq<bool>, slot: nat,
                          lo: nat, hi: nat, buffer: seq<bool>, first: nat)
    requires peers > 0
  {
    && |m'| == |m|
    && forall at | 0 <= at < |m| ::
         m'[at] == if Mine(peers, slot, lo, hi, at)
                   then NewBit(op, m[at], Extra(buffer, BitNr(peers, at) - first))
                   else m[at]
  }

  lemma {:induction false} OnesConcat(a: seq<bool>, b: seq<bool>)
    ensures Ones(a + b) == Ones(a) + Ones(b)
  {
    if |b| == 0 {
      assert a + b == a;
    } else {
      OnesConcat(a, b[..|b| - 1]);
      assert (a + b)[..|a + b| - 1] == a + b[..|b| - 1];
    }
  }

  lemma FlipsConcat(op: Op, a: seq<bool>, b: seq<bool>, buffer: seq<bool>, off: int)
    ensures Flips(op, a + b, buffer, off) == Flips(op, a, buffer, off) + Flips(op, b, buffer, off + |a|)
  {
  }

  lemma FlipsNoBuffer(op: Op, w: seq<bool>, buffer: seq<bool>, off: int)
    requires !op.Merge?
    ensures Flips(op, w, buffer, off) == Flips(op, w, [], 0)
  {
  }

  lemma SlotBitsSplit(peers: nat, m: seq<bool>, slot: nat, lo: nat, mid: nat, hi: nat)
    requires lo <= mid <= hi
    ensures SlotBits(peers, m, slot, lo, hi) ==
            SlotBits(peers, m, slot, lo, mid) + SlotBits(peers, m, slot, mid, hi)
  {
  }

  // Inside one word the bits of a slot are consecutive in memory.
  lemma SlotBitsInWord(peers: nat, m: seq<bool>, slot: nat, lo: nat, hi: nat)
    requires slot < peers && lo <= hi && (lo < hi ==> lo / 32 == (hi - 1) / 32)
    requires Position(peers, slot, lo) + (hi - lo) <= |m|
    ensures SlotBits(peers, m, slot, lo, hi) ==
            m[Position(peers, slot, lo)..Position(peers, slot, lo) + (hi - lo)]
  {
    hide Position;
    var s := SlotBits(peers, m, slot, lo, hi);
    forall i | 0 <= i < hi - lo
      ensures s[i] == m[Position(peers, slot, lo) + i]
    {
      Between(lo, lo + i, hi - 1);
      SameRow(peers, slot, lo, lo + i);
      assert s[i] == BitAt(peers, m, slot, lo + i);
    }
  }

  // A memory that differs from `m1` in one stretch of one word, and there by the
  // operation, extends what has been applied so far by that stretch.
  lemma AppliedExtend(peers: nat, op: Op, m: seq<bool>, m1: seq<bool>, m2: seq<bool>, slot: nat,
                      lo: nat, mid: nat, hi: nat, buffer: seq<bool>, first: nat)
    requires slot < peers && first <= lo <= mid < hi && mid / 32 == (hi - 1) / 32
    requires Applied(peers, op, m, m1, slot, lo, mid, buffer, first)
    requires |m2| == |m1|
    requires var base := Position(peers, slot, mid);
             forall at | 0 <= at < |m1| ::
               m2[at] == if base <= at < base + (hi - mid)
                         then NewBit(op, m1[at], Extra(buffer, at - base + (mid - first)))
                         else m1[at]
    ensures Applied(peers, op, m, m2, slot, lo, hi, buffer, first)
  {
    hide Position;
    var base := Position(peers, slot, mid);
    forall at | 0 <= at < |m|
      ensures m2[at] == if Mine(peers, slot, lo, hi, at)
                        then NewBit(op, m[at], Extra(buffer, BitNr(peers, at) - first))
                        else m[at]
    {
      MineInWord(peers, slot, mid, hi, at);
      if base <= at < base + (hi - mid) {
        var bit := mid + (at - base);
        Between(mid, bit, hi - 1);
        SameRow(peers, slot, mid, bit);
        PositionOwner(peers, slot, bit);
      }
    }
  }

  lemma AppliedNothing(peers: nat, op: Op, m: seq<bool>, slot: nat, lo: nat, buffer: seq<bool>, first: nat)
    requires peers > 0
    ensures Applied(peers, op, m, m, slot, lo, lo, buffer, first)
  {
  }

  // Two adjacent ranges done one after the other are the whole range done at once.
  lemma AppliedTwice(peers: nat, op: Op, m: seq<bool>, m1: seq<bool>, m2: seq<bool>, slot: nat,
                     lo: nat, mid: nat, hi: nat, buffer: seq<bool>, first: nat)
    requires peers > 0 && lo <= mid <= hi
    requires Applied(peers, op, m, m1, slot, lo, mid, buffer, first)
    requires Applied(peers, op, m1, m2, slot, mid, hi, buffer, first)
    ensures Applied(peers, op, m, m2, slot, lo, hi, buffer, first)
  {
  }

  /** The refinement: in terms of one plain bit set per peer, `Applied` changes the
   *  bits in the range as the operation says, and no other bit of any slot.
   */
  lemma AppliedPerSlot(peers: nat, op: Op, m: seq<bool>, m': seq<bool>, slot: nat,
                       lo: nat, hi: nat, buffer: seq<bool>, first: nat, other: nat, bit: nat)
    requires slot < peers && other < peers
    requires Applied(peers, op, m, m', slot, lo, hi, buffer, first)
    requires Position(peers, other, bit) < |m|
    ensures BitAt(peers, m', other, bit) ==
            if other == slot && lo <= bit < hi
            then NewBit(op, BitAt(peers, m, other, bit), Extra(buffer, bit - first))
            else BitAt(peers, m, other, bit)
  {
    PositionOwner(peers, other, bit);
  }

  lemma InsideSlot(peers: nat, slot: nat, bit: nat, bound: nat)
    requires slot < peers && bit < bound
    ensures Position(peers, slot, bit) < (bound + 31) / 32 * peers * 32
  {
    MulMonotone(bit / 32 + 1, (bound + 31) / 32, peers);
    assert (bit / 32 + 1) * peers == bit / 32 * peers + peers;
  }

  // The other slots keep all their bits.
  lemma OtherSlotsKept(peers: nat, op: Op, m: seq<bool>, m': seq<bool>, slot: nat,
                       lo: nat, hi: nat, buffer: seq<bool>, first: nat, other: nat, bound: nat)
    requires slot < peers && other < peers && other != slot
    requires Applied(peers, op, m, m', slot, lo, hi, buffer, first)
    requires (bound + 31) / 32 * peers * 32 <= |m|
    ensures SlotBits(peers, m', other, 0, bound) == SlotBits(peers, m, other, 0, bound)
  {
    var s, s' := SlotBits(peers, m, other, 0, bound), SlotBits(peers, m', other, 0, bound);
    forall i | 0 <= i < bound ensures s'[i] == s[i] {
      InsideSlot(peers, other, i, bound);
      AppliedPerSlot(peers, op, m, m', slot, lo, hi, buffer, first, other, i);
    }
  }

  // Turning bits over moves the number of ones by the number turned over.
  lemma {:induction false} OnesAfter(op: Op, w: seq<bool>, w': seq<bool>, buffer: seq<bool>)
    requires Mutates(op) && |w'| == |w|
    requires forall i | 0 <= i < |w| :: w'[i] == NewBit(op, w[i], Extra(buffer, i))
    ensures Ones(w') == if op.Clear? then Ones(w) - Ones(Flips(op, w, buffer, 0))
                                     else Ones(w) + Ones(Flips(op, w, buffer, 0))
  {
    if |w| > 0 {
      var k := |w| - 1;
      OnesAfter(op, w[..k], w'[..k], buffer);
      assert Flips(op, w, buffer, 0)[..k] == Flips(op, w[..k], buffer, 0);
    }
  }

  /** The weight of the slot moves by exactly the number of bits turned over. */
  lemma WeightAfter(peers: nat, op: Op, m: seq<bool>, m': seq<bool>, slot: nat,
                    lo: nat, hi: nat, buffer: seq<bool>, bound: nat)
    requires slot < peers && lo <= hi <= bound && Mutates(op)
    requires Applied(peers, op, m, m', slot, lo, hi, buffer, lo)
    requires (bound + 31) / 32 * peers * 32 <= |m|
    ensures var flips := Ones(Flips(op, SlotBits(peers, m, slot, lo, hi), buffer, 0));
            Ones(SlotBits(peers, m', slot, 0, bound)) ==
            if op.Clear? then Ones(SlotBits(peers, m, slot, 0, bound)) - flips
                         else Ones(SlotBits(peers, m, slot, 0, bound)) + flips
  {
    forall bit | 0 <= bit < bound
      ensures BitAt(peers, m', slot, bit) ==
              if lo <= bit < hi then NewBit(op, BitAt(peers, m, slot, bit), Extra(buffer, bit - lo))
                                else BitAt(peers, m, slot, bit)
    {
      InsideSlot(peers, slot, bit, bound);
      AppliedPerSlot(peers, op, m, m', slot, lo, hi, buffer, lo, slot, bit);
    }
    OnesThreeWay(peers, m, slot, lo, hi, bound);
    OnesThreeWay(peers, m', slot, lo, hi, bound);
    assert SlotBits(peers, m', slot, 0, lo) == SlotBits(peers, m, slot, 0, lo);
    assert SlotBits(peers, m', slot, hi, bound) == SlotBits(peers, m, slot, hi, bound);
    OnesAfter(op, SlotBits(peers, m, slot, lo, hi), SlotBits(peers, m', slot, lo, hi), buffer);
  }

  lemma OnesThreeWay(peers: nat, m: seq<bool>, slot: nat, lo: nat, hi: nat, bound: nat)
    requires lo <= hi <= bound
    ensures Ones(SlotBits(peers, m, slot, 0, bound)) ==
            Ones(SlotBits(peers, m, slot, 0, lo)) + Ones(SlotBits(peers, m, slot, lo, hi)) +
            Ones(SlotBits(peers, m, slot, hi, bound))
  {
    SlotBitsSplit(peers, m, slot, 0, lo, bound);
    SlotBitsSplit(peers, m, slot, lo, hi, bound);
    OnesConcat(SlotBits(peers, m, slot, 0, lo), SlotBits(peers, m, slot, lo, bound));
    OnesConcat(SlotBits(peers, m, slot, lo, hi), SlotBits(peers, m, slot, hi, bound));
  }

  /** How far a run of an operation over the bits from `start0` has come: `m0` is the
   *  memory before the whole operation (which began at bit `first`), `m` the
   *  memory now, `count` the bits turned over and `total` the set bits counted
   *  since `start0`.
   */
  ghost predicate Stage(peers: nat, op: Op, m0: seq<bool>, m: seq<bool>, slot: nat, buffer: seq<bool>,
                        first: nat, start0: nat, start: nat, count: nat, total: nat)
    requires peers > 0
  {
    && first <= start0 <= start
    && Applied(peers, op, m0, m, slot, first, start, buffer, first)
    && count == (if Mutates(op)
                 then Ones(Flips(op, SlotBits(peers, m0, slot, start0, start), buffer, start0 - first)) else 0)
    && total == (if op.Count? then Ones(SlotBits(peers, m0, slot, start0, start)) else 0)
    && (op.FindBit? || op.FindZeroBit? ==>
          forall b | start0 <= b < start :: BitAt(peers, m0, slot, b) != op.FindBit?)
  }

  // One more stretch inside one word.
  lemma StageStep(peers: nat, op: Op, m0: seq<bool>, m1: seq<bool>, m2: seq<bool>, slot: nat, buffer: seq<bool>,
                  first: nat, start0: nat, mid: nat, hi: nat, count: nat, total: nat, count': nat, total': nat)
    requires slot < peers && mid < hi && mid / 32 == (hi - 1) / 32
    requires Stage(peers, op, m0, m1, slot, buffer, first, start0, mid, count, total)
    requires Position(peers, slot, mid) + (hi - mid) <= |m1| == |m2|
    requires var base := Position(peers, slot, mid);
             forall at | 0 <= at < |m1| ::
               m2[at] == if base <= at < base + (hi - mid)
                         then NewBit(op, m1[at], Extra(buffer, at - base + (mid - first)))
                         else m1[at]
    requires var w := m1[Position(peers, slot, mid)..Position(peers, slot, mid) + (hi - mid)];
             && count' == count + (if Mutates(op) then Ones(Flips(op, w, buffer, mid - first)) else 0)
             && total' == total + (if op.Count? then Ones(w) else 0)
             && (op.FindBit? || op.FindZeroBit? ==> op.FindBit? !in w)
    ensures Stage(peers, op, m0, m2, slot, buffer, first, start0, hi, count', total')
  {
    hide Position, Flips, Ones;
    AppliedExtend(peers, op, m0, m1, m2, slot, first, mid, hi, buffer, first);
    UntouchedAhead(peers, op, m0, m1, slot, first, mid, hi, buffer);
    var w := SlotBits(peers, m0, slot, mid, hi);
    assert m1[Position(peers, slot, mid)..Position(peers, slot, mid) + (hi - mid)] == w by {
      SlotBitsInWord(peers, m0, slot, mid, hi);
    }
    CountsSplit(peers, op, m0, slot, buffer, first, start0, mid, hi);
    forall b | mid <= b < hi
      ensures BitAt(peers, m0, slot, b) in w
    {
      assert w[b - mid] == BitAt(peers, m0, slot, b);
    }
  }

  lemma CountsSplit(peers: nat, op: Op, m: seq<bool>, slot: nat, buffer: seq<bool>,
                    first: nat, start0: nat, mid: nat, hi: nat)
    requires first <= start0 <= mid <= hi
    ensures Ones(SlotBits(peers, m, slot, start0, hi)) ==
            Ones(SlotBits(peers, m, slot, start0, mid)) + Ones(SlotBits(peers, m, slot, mid, hi))
    ensures Ones(Flips(op, SlotBits(peers, m, slot, start0, hi), buffer, start0 - first)) ==
            Ones(Flips(op, SlotBits(peers, m, slot, start0, mid), buffer, start0 - first)) +
            Ones(Flips(op, SlotBits(peers, m, slot, mid, hi), buffer, mid - first))
  {
    hide Position, Flips, Ones, SlotBits;
    var a, b := SlotBits(peers, m, slot, start0, mid), SlotBits(peers, m, slot, mid, hi);
    SlotBitsSplit(peers, m, slot, start0, mid, hi);
    OnesConcat(a, b);
    FlipsConcat(op, a, b, buffer, start0 - first);
    OnesConcat(Flips(op, a, buffer, start0 - first), Flips(op, b, buffer, mid - first));
  }

  // The bits ahead of the operation are still those it started with.
  lemma UntouchedAhead(peers: nat, op: Op, m0: seq<bool>, m1: seq<bool>, slot: nat,
                       first: nat, mid: nat, hi: nat, buffer: seq<bool>)
    requires slot < peers && mid < hi && mid / 32 == (hi - 1) / 32
    requires Applied(peers, op, m0, m1, slot, first, mid, buffer, first)
    requires Position(peers, slot, mid) + (hi - mid) <= |m1|
    ensures var base := Position(peers, slot, mid);
            m1[base..base + (hi - mid)] == m0[base..base + (hi - mid)]
  {
    var base := Position(peers, slot, mid);
    forall at | base <= at < base + (hi - mid)
      ensures m1[at] == m0[at]
    {
      MineInWord(peers, slot, mid, hi, at);
    }
  }

  /** What extraction leaves in the buffer: the bits, then zeros up to the end of the
   *  last word, then what was there before.
   */
  ghost predicate Extracted(peers: nat, m: seq<bool>, slot: nat, first: nat, hi: nat,
                            before: seq<bool>, after: seq<bool>)
    requires first <= hi
  {
    && |after| == |before|
    && forall i | 0 <= i < |after| ::
         after[i] == if i < hi - first then BitAt(peers, m, slot, first + i)
                     else if i < (hi - first + 31) / 32 * 32 then false
                     else before[i]
  }

  // A search has looked at a stretch of a word in vain, and then perhaps hits.
  lemma StageSearch(peers: nat, op: Op, m: seq<bool>, slot: nat, buffer: seq<bool>,
                    first: nat, start0: nat, mid: nat, hi: nat)
    requires slot < peers && mid <= hi && mid / 32 == hi / 32
    requires op.FindBit? || op.FindZeroBit?
    requires Stage(peers, op, m, m, slot, buffer, first, start0, mid, 0, 0)
    requires Position(peers, slot, mid) + (hi - mid) < |m|
    requires forall at | Position(peers, slot, mid) <= at < Position(peers, slot, mid) + (hi - mid) :: m[at] != op.FindBit?
    requires m[Position(peers, slot, mid) + (hi - mid)] == op.FindBit?
    ensures Stage(peers, op, m, m, slot, buffer, first, start0, hi, 0, 0)
    ensures BitAt(peers, m, slot, hi) == op.FindBit?
  {
    if mid < hi {
      StageStep(peers, op, m, m, m, slot, buffer, first, start0, mid, hi, 0, 0, 0, 0);
    }
    assert Position(peers, slot, hi) == Position(peers, slot, mid) + (hi - mid);
  }

  // Nothing but clearing, setting and merging changes the memory.
  lemma AppliedReading(peers: nat, op: Op, m: seq<bool>, m': seq<bool>, slot: nat,
                       lo: nat, hi: nat, buffer: seq<bool>, first: nat)
    requires peers > 0 && !Mutates(op)
    ensures Applied(peers, op, m, m', slot, lo, hi, buffer, first) <==> m == m'
  {
  }

  // From the end of one word of a slot to its next word.
  lemma EndOfWord(peers: nat, slot: nat, bit: nat)
    ensures var hi := AfterWord(bit);
            bit < hi && bit / 32 == (hi - 1) / 32 && hi % 32 == 0 &&
            Position(peers, slot, hi) == Position(peers, slot, bit) + (hi - bit) + 32 * peers - 32
    ensures Position(peers, slot, bit) % 32 == bit % 32
  {
    var hi := bit / 32 * 32 + 32;
    assert hi / 32 == bit / 32 + 1;
    assert (bit / 32 + 1) * peers == bit / 32 * peers + peers;
  }

  // The step of the operations that have no buffer.
  lemma StageStepPlain(peers: nat, op: Op, m0: seq<bool>, m1: seq<bool>, m2: seq<bool>, slot: nat, buffer: seq<bool>,
                       first: nat, start0: nat, mid: nat, hi: nat, base: nat,
                       count: nat, total: nat, count': nat, total': nat)
    requires slot < peers && mid < hi && mid / 32 == (hi - 1) / 32 && !op.Merge?
    requires Stage(peers, op, m0, m1, slot, buffer, first, start0, mid, count, total)
    requires base == Position(peers, slot, mid) && base + (hi - mid) <= |m1| == |m2|
    requires forall at | 0 <= at < |m1| ::
               m2[at] == if base <= at < base + (hi - mid) then NewBit(op, m1[at], false) else m1[at]
    requires count' == count + (if Mutates(op) then Ones(Flips(op, m1[base..base + (hi - mid)], [], 0)) else 0)
    requires total' == total + (if op.Count? then Ones(m1[base..base + (hi - mid)]) else 0)
    requires op.FindBit? || op.FindZeroBit? ==> op.FindBit? !in m1[base..base + (hi - mid)]
    ensures Stage(peers, op, m0, m2, slot, buffer, first, start0, hi, count', total')
  {
    FlipsNoBuffer(op, m1[base..base + (hi - mid)], buffer, mid - first);
    StageStep(peers, op, m0, m1, m2, slot, buffer, first, start0, mid, hi, count, total, count', total');
  }

  lemma HeadLength(addr: nat, bitInPage: nat, bit: nat)
    requires addr % 32 == 0 && (addr + bitInPage) % 32 == bit % 32
    ensures AfterWord(bitInPage) - bitInPage == AfterWord(bit) - bit
  {
  }

  // A word taken out of the buffer.
  lemma FlipsShift(op: Op, w: seq<bool>, word: seq<bool>, buffer: seq<bool>, off: nat)
    requires op.Merge? ==> off + |w| <= |buffer| && |word| == |w| && forall i | 0 <= i < |w| :: word[i] == buffer[off + i]
    ensures Flips(op, w, word, 0) == Flips(op, w, buffer, off)
  {
  }

  // One more word, the last one perhaps cut short, has been extracted.
  lemma ExtractedWord(peers: nat, m: seq<bool>, slot: nat, first: nat, mid: nat, hi: nat,
                      before: seq<bool>, now: seq<bool>, after: seq<bool>)
    requires slot < peers && first <= mid < hi <= mid + 32 && first % 32 == mid % 32 == 0
    requires Extracted(peers, m, slot, first, mid, before, now)
    requires mid - first + 32 <= |now| == |after|
    requires Position(peers, slot, mid) + 32 <= |m|
    requires forall i | 0 <= i < |now| ::
               after[i] == if mid - first <= i < mid - first + 32
                           then i - (mid - first) < hi - mid && m[Position(peers, slot, mid) + (i - (mid - first))]
                           else now[i]
    ensures Extracted(peers, m, slot, first, hi, before, after)
  {
    hide Position;
    RoundUpWord(hi - first, mid - first);
    RoundUpWord(mid - first, mid - first - 32);
    forall i | 0 <= i < |after|
      ensures after[i] == if i < hi - first then BitAt(peers, m, slot, first + i)
                          else if i < (hi - first + 31) / 32 * 32 then false
                          else before[i]
    {
      if mid - first <= i < hi - first {
        SameRow(peers, slot, mid, first + i);
      }
    }
  }

  lemma RoundUpWord(n: int, below: int)
    requires below % 32 == 0 && below < n <= below + 32
    ensures (n + 31) / 32 * 32 == below + 32
  {
  }

  // The step of the operations that change or count a whole word.
  lemma StageStepWord(peers: nat, op: Op, m0: seq<bool>, m1: seq<bool>, m2: seq<bool>, slot: nat, buffer: seq<bool>,
                      first: nat, start0: nat, mid: nat, base: nat, word: seq<bool>,
                      count: nat, total: nat, count': nat, total': nat)
    requires slot < peers && mid % 32 == 0 && |word| == 32
    requires Stage(peers, op, m0, m1, slot, buffer, first, start0, mid, count, total)
    requires base == Position(peers, slot, mid) && base + 32 <= |m1| == |m2|
    requires op.Merge? ==> mid - first + 32 <= |buffer| && word == buffer[mid - first..mid - first + 32]
    requires Mutates(op) || op.Count?
    requires forall at | 0 <= at < |m1| ::
               m2[at] == if base <= at < base + 32 then NewBit(op, m1[at], word[at - base]) else m1[at]
    requires count' == count + (if Mutates(op) then Ones(Flips(op, m1[base..base + 32], word, 0)) else 0)
    requires total' == total + (if op.Count? then Ones(m1[base..base + 32]) else 0)
    ensures Stage(peers, op, m0, m2, slot, buffer, first, start0, mid + 32, count', total')
  {
    FlipsShift(op, m1[base..base + 32], word, buffer, mid - first);
    StageStep(peers, op, m0, m1, m2, slot, buffer, first, start0, mid, mid + 32, count, total, count', total');
  }

  lemma {:induction false} OnesOfNothing(w: seq<bool>)
    requires true !in w
    ensures Ones(w) == 0
  {
    if |w| > 0 {
      OnesOfNothing(w[..|w| - 1]);
    }
  }

  // The last word of a merge: the buffer word cut down to its lowest `n` bits.
  lemma StageMergeTail(peers: nat, m0: seq<bool>, m1: seq<bool>, m2: seq<bool>, slot: nat, buffer: seq<bool>,
                       first: nat, start0: nat, mid: nat, n: nat, base: nat, word: seq<bool>,
                       count: nat, total: nat, count': nat)
    requires slot < peers && mid % 32 == 0 && 0 < n < 32 && |word| == 32
    requires Stage(peers, Merge, m0, m1, slot, buffer, first, start0, mid, count, total)
    requires base == Position(peers, slot, mid) && base + 32 <= |m1| == |m2|
    requires mid - first + 32 <= |buffer|
    requires forall i | 0 <= i < 32 :: word[i] == (i < n && buffer[mid - first + i])
    requires forall at | 0 <= at < |m1| ::
               m2[at] == if base <= at < base + 32 then NewBit(Merge, m1[at], word[at - base]) else m1[at]
    requires count' == count + Ones(Flips(Merge, m1[base..base + 32], word, 0))
    ensures Stage(peers, Merge, m0, m2, slot, buffer, first, start0, mid + n, count', total)
  {
    hide Position, Ones;
    MaskedFlips(m1[base..base + 32], word, buffer, mid - first, n);
    assert m1[base..base + 32][..n] == m1[base..base + n];
    StageStep(peers, Merge, m0, m1, m2, slot, buffer, first, start0, mid, mid + n, count, total, count', total);
  }

  lemma MaskedFlips(w: seq<bool>, word: seq<bool>, buffer: seq<bool>, off: nat, n: nat)
    requires |w| == |word| == 32 && n < 32 && off + 32 <= |buffer|
    requires forall i | 0 <= i < 32 :: word[i] == (i < n && buffer[off + i])
    ensures Ones(Flips(Merge, w, word, 0)) == Ones(Flips(Merge, w[..n], buffer, off))
  {
    assert w == w[..n] + w[n..];
    FlipsConcat(Merge, w[..n], w[n..], word, 0);
    OnesConcat(Flips(Merge, w[..n], word, 0), Flips(Merge, w[n..], word, n));
    OnesOfNothing(Flips(Merge, w[n..], word, n));
    assert Flips(Merge, w[..n], word, 0) == Flips(Merge, w[..n], buffer, off);
  }

  lemma AddWord(start: nat)
    ensures (start + 32) % 32 == start % 32
  {
  }

  lemma BufferRoom(first: nat, start: nat, end: nat)
    requires first <= start <= end && first % 32 == start % 32 == 0
    ensures start - first + 32 <= AfterWord(end - first)
  {
  }

  lemma ShortRange(start: nat, end: nat)
    requires start <= end && end + 1 < AfterWord(start)
    ensures start / 32 == end / 32
  {
  }

  lemma WholeWord(start: nat, end: nat)
    requires start % 32 == 0 || start / 32 == end / 32
    ensures start + 31 <= end ==> start % 32 == 0
    ensures start <= end < start + 31 ==> start / 32 == end / 32
  {
  }

  // The word of a bit below the bound is inside the memory as a whole.
  lemma WordInside(peers: nat, slot: nat, bit: nat, bound: nat)
    requires slot < peers && bit < bound && bit % 32 == 0
    ensures Position(peers, slot, bit) + 32 <= (bound + 31) / 32 * peers * 32
  {
    MulMonotone(bit / 32 + 1, (bound + 31) / 32, peers);
    assert (bit / 32 + 1) * peers == bit / 32 * peers + peers;
  }

  lemma StageBegin(peers: nat, op: Op, m0: seq<bool>, m: seq<bool>, slot: nat, buffer: seq<bool>, first: nat, start: nat)
    requires peers > 0 && first <= start
    requires Applied(peers, op, m0, m, slot, first, start, buffer, first)
    ensures Stage(peers, op, m0, m, slot, buffer, first, start, start, 0, 0)
  {
  }

  // An operation that only reads leaves the memory as it found it.
  lemma StageReading(peers: nat, op: Op, m0: seq<bool>, m: seq<bool>, slot: nat, buffer: seq<bool>,
                     first: nat, start0: nat, start: nat, count: nat, total: nat)
    requires peers > 0 && Stage(peers, op, m0, m, slot, buffer, first, start0, start, count, total)
    ensures |m| == |m0| && first <= start0 <= start
    ensures !Mutates(op) ==> m == m0 && count == 0
    ensures !op.Count? ==> total == 0
  {
    if !Mutates(op) {
      AppliedReading(peers, op, m0, m, slot, first, start, buffer, first);
    }
  }

  // The pages on which two memories differ.
  ghost function DirtyPages(m: seq<bool>, m': seq<bool>, bpp: nat): set<nat>
    requires |m| == |m'| && bpp > 0
  {
    set at | 0 <= at < |m| && m[at] != m'[at] :: at / bpp
  }

  lemma {:induction false} SomeOne(w: seq<bool>)
    ensures Ones(w) > 0 <==> true in w
  {
    if |w| > 0 {
      SomeOne(w[..|w| - 1]);
      assert w == w[..|w| - 1] + [w[|w| - 1]];
    }
  }

  /** One round of an operation, confined to one page, touches that page if and only
   *  if it turned a bit over.
   */
  lemma RoundDirties(peers: nat, op: Op, m0: seq<bool>, m1: seq<bool>, m2: seq<bool>, slot: nat, buffer: seq<bool>,
                     first: nat, start0: nat, start: nat, count: nat, total: nat, page: nat, bpp: nat)
    requires slot < peers && start0 < start && bpp > 0
    requires Applied(peers, op, m0, m1, slot, first, start0, buffer, first)
    requires Stage(peers, op, m0, m2, slot, buffer, first, start0, start, count, total)
    requires page * bpp <= Position(peers, slot, start0) && Position(peers, slot, start - 1) < page * bpp + bpp
    requires Position(peers, slot, start - 1) < |m0|
    ensures DirtyPages(m0, m2, bpp) == DirtyPages(m0, m1, bpp) + if count > 0 then {page} else {}
  {
    SomeFlip(peers, op, m0, slot, buffer, first, start0, start);
    forall at | 0 <= at < |m0| && m2[at] != m1[at]
      ensures at / bpp == page && m0[at] != m2[at] && m0[at] == m1[at] && count > 0
    {
      ChangedInRound(peers, op, m0, m1, m2, slot, buffer, first, start0, start, at);
      PageOfBit(peers, slot, start0, start, BitNr(peers, at), page, bpp);
      assert Turns(peers, op, m0, slot, buffer, first, BitNr(peers, at));
    }
    if count > 0 {
      var bit :| start0 <= bit < start && Turns(peers, op, m0, slot, buffer, first, bit);
      PageOfBit(peers, slot, start0, start, bit, page, bpp);
      AppliedPerSlot(peers, op, m0, m2, slot, first, start, buffer, first, slot, bit);
      assert m0[Position(peers, slot, bit)] != m2[Position(peers, slot, bit)];
    }
    DirtyGrows(m0, m1, m2, bpp, page, count > 0);
  }

  predicate Turns(peers: nat, op: Op, m: seq<bool>, slot: nat, buffer: seq<bool>, first: nat, bit: nat) {
    NewBit(op, BitAt(peers, m, slot, bit), Extra(buffer, bit - first)) != BitAt(peers, m, slot, bit)
  }

  lemma SomeFlip(peers: nat, op: Op, m: seq<bool>, slot: nat, buffer: seq<bool>, first: nat, lo: nat, hi: nat)
    requires lo <= hi
    ensures Ones(Flips(op, SlotBits(peers, m, slot, lo, hi), buffer, lo - first)) > 0 <==>
            exists bit :: lo <= bit < hi && Turns(peers, op, m, slot, buffer, first, bit)
  {
    var f := Flips(op, SlotBits(peers, m, slot, lo, hi), buffer, lo - first);
    SomeOne(f);
    if true in f {
      var i :| 0 <= i < |f| && f[i];
      assert Turns(peers, op, m, slot, buffer, first, lo + i);
    }
    if bit :| lo <= bit < hi && Turns(peers, op, m, slot, buffer, first, bit) {
      assert f[bit - lo];
    }
  }

  lemma DirtyGrows(m0: seq<bool>, m1: seq<bool>, m2: seq<bool>, bpp: nat, page: nat, any: bool)
    requires |m0| == |m1| == |m2| && bpp > 0
    requires forall at | 0 <= at < |m0| && m2[at] != m1[at] ::
               at / bpp == page && m0[at] != m2[at] && m0[at] == m1[at] && any
    requires any ==> page in DirtyPages(m0, m2, bpp)
    ensures DirtyPages(m0, m2, bpp) == DirtyPages(m0, m1, bpp) + if any then {page} else {}
  {
  }

  lemma ChangedInRound(peers: nat, op: Op, m0: seq<bool>, m1: seq<bool>, m2: seq<bool>, slot: nat, buffer: seq<bool>,
                       first: nat, start0: nat, start: nat, at: nat)
    requires slot < peers && first <= start0 <= start && at < |m0|
    requires Applied(peers, op, m0, m1, slot, first, start0, buffer, first)
    requires Applied(peers, op, m0, m2, slot, first, start, buffer, first)
    requires m2[at] != m1[at]
    ensures Mutates(op) && start0 <= BitNr(peers, at) < start && Position(peers, slot, BitNr(peers, at)) == at
    ensures m1[at] == m0[at] && m2[at] == NewBit(op, m0[at], Extra(buffer, BitNr(peers, at) - first))
  {
    OwnerPosition(peers, at);
  }

  lemma PageOfBit(peers: nat, slot: nat, start0: nat, start: nat, bit: nat, page: nat, bpp: nat)
    requires peers > 0 && start0 <= bit < start && bpp > 0
    requires page * bpp <= Position(peers, slot, start0) && Position(peers, slot, start - 1) < page * bpp + bpp
    ensures Position(peers, slot, bit) / bpp == page
    ensures Position(peers, slot, bit) <= Position(peers, slot, start - 1)
  {
    if start0 < bit { PositionMonotone(peers, slot, start0, bit); }
    if bit < start - 1 { PositionMonotone(peers, slot, bit, start - 1); }
    PageBounds(bpp, Position(peers, slot, bit), page);
  }

  // Rounds one after the other are one longer round.
  lemma StageJoin(peers: nat, op: Op, m0: seq<bool>, m2: seq<bool>, slot: nat, buffer: seq<bool>,
                  first: nat, mid: nat, hi: nat, m1: seq<bool>, count: nat, total: nat, count': nat, total': nat)
    requires slot < peers
    requires Stage(peers, op, m0, m1, slot, buffer, first, first, mid, count, total)
    requires Stage(peers, op, m0, m2, slot, buffer, first, mid, hi, count', total')
    ensures Stage(peers, op, m0, m2, slot, buffer, first, first, hi, count + count', total + total')
  {
    CountsSplit(peers, op, m0, slot, buffer, first, first, mid, hi);
  }

  // A word that begins on a page is on that page to its end.
  lemma WordOnPage(peers: nat, slot: nat, bit: nat, addr: nat, bitInPage: nat, wpp: nat, other: nat)
    requires addr % 32 == 0 && bitInPage < wpp * 32 && addr + bitInPage == Position(peers, slot, bit)
    requires other / 32 == bit / 32
    ensures Position(peers, slot, other) < addr + wpp * 32
  {
  }

  lemma StageApplied(peers: nat, op: Op, m0: seq<bool>, m: seq<bool>, slot: nat, buffer: seq<bool>,
                     first: nat, start0: nat, start: nat, count: nat, total: nat)
    requires peers > 0 && Stage(peers, op, m0, m, slot, buffer, first, start0, start, count, total)
    ensures Applied(peers, op, m0, m, slot, first, start, buffer, first) && |m| == |m0|
  {
  }

  lemma ExtractedNothing(peers: nat, m: seq<bool>, slot: nat, first: nat, buffer: seq<bool>)
    ensures Extracted(peers, m, slot, first, first, buffer, buffer)
  {
  }

  // Where the operation finds its first bit.
  lemma FirstPage(peers: nat, wpp: nat, slot: nat, bit: nat)
    requires wpp > 0
    ensures var word := InterleavedWord(peers, slot, bit);
            var bitInPage := WordInPage(wpp, word) * 32 + bit % 32;
            bitInPage < wpp * 32 && WordToPage(wpp, word) * (wpp * 32) + bitInPage == Position(peers, slot, bit)
  {
    var word := InterleavedWord(peers, slot, bit);
    assert word == word / wpp * wpp + word % wpp;
    assert word / wpp * (wpp * 32) == word / wpp * wpp * 32;
  }

  // A bit is counted as set or found in plain terms.
  ghost predicate FirstIn(s: seq<bool>, wanted: bool, start: nat, result: int) {
    if wanted in s
    then start <= result < start + |s| && s[result - start] == wanted && wanted !in s[..result - start]
    else result == END_OF_BITMAP
  }

  // DRBD_END_OF_BITMAP, all bits of an unsigned long set
  const END_OF_BITMAP: int := -1

  /** What an operation on a slot's bits `s`, numbered from `start`, gives back. */
  ghost predicate Answers(op: Op, s: seq<bool>, buffer: seq<bool>, start: nat, result: int) {
    match op
    case Clear => result == Ones(Flips(op, s, buffer, 0))
    case Set => result == Ones(Flips(op, s, buffer, 0))
    case Merge => result == Ones(Flips(op, s, buffer, 0))
    case Count => result == Ones(s)
    case Test => result == if s != [] && s[0] then 1 else 0
    case Extract => result == 0
    case FindBit => FirstIn(s, true, start, result)
    case FindZeroBit => FirstIn(s, false, start, result)
  }

  lemma AnswersAll(peers: nat, op: Op, m0: seq<bool>, m: seq<bool>, slot: nat, buffer: seq<bool>,
                   first: nat, hi: nat, count: nat, total: nat)
    requires peers > 0 && (op.Test? ==> hi == first)
    requires Stage(peers, op, m0, m, slot, buffer, first, first, hi, count, total)
    ensures var result := if op.FindBit? || op.FindZeroBit? then END_OF_BITMAP
                          else if op.Count? then total else count;
            Answers(op, SlotBits(peers, m0, slot, first, hi), buffer, first, result)
  {
    var s := SlotBits(peers, m0, slot, first, hi);
    if op.FindBit? || op.FindZeroBit? {
      forall i | 0 <= i < |s| ensures s[i] != op.FindBit? {
        assert s[i] == BitAt(peers, m0, slot, first + i);
      }
    }
  }

  lemma AnswersHit(peers: nat, op: Op, m0: seq<bool>, m: seq<bool>, slot: nat, buffer: seq<bool>,
                   first: nat, hit: nat, hi: nat, count: nat, total: nat)
    requires peers > 0 && (op.FindBit? || op.FindZeroBit?) && hit < hi
    requires Stage(peers, op, m0, m, slot, buffer, first, first, hit, count, total)
    requires BitAt(peers, m0, slot, hit) == op.FindBit?
    ensures Answers(op, SlotBits(peers, m0, slot, first, hi), buffer, first, hit)
  {
    var s := SlotBits(peers, m0, slot, first, hi);
    assert s[hit - first] == op.FindBit?;
    forall i | 0 <= i < hit - first ensures s[i] != op.FindBit? {
      assert BitAt(peers, m0, slot, first + i) == s[i];
    }
  }

  // The search has hit a bit.
  lemma SearchEnds(peers: nat, op: Op, m0: seq<bool>, m: seq<bool>, slot: nat, buffer: seq<bool>,
                   first: nat, hit: nat, hi: nat, count: nat, total: nat)
    requires peers > 0 && (op.FindBit? || op.FindZeroBit?) && hit < hi
    requires Stage(peers, op, m0, m, slot, buffer, first, first, hit, count, total)
    requires BitAt(peers, m0, slot, hit) == op.FindBit?
    ensures m == m0 && Applied(peers, op, m0, m, slot, first, hi, buffer, first)
    ensures Answers(op, SlotBits(peers, m0, slot, first, hi), buffer, first, hit)
  {
    hide Stage, Applied, Answers, SlotBits;
    AnswersHit(peers, op, m0, m, slot, buffer, first, hit, hi, count, total);
    StageReading(peers, op, m0, m, slot, buffer, first, first, hit, count, total);
    AppliedReading(peers, op, m0, m, slot, first, hi, buffer, first);
  }

  // The operation has been through the whole range.
  lemma SweepEnds(peers: nat, op: Op, m0: seq<bool>, m: seq<bool>, slot: nat, buffer: seq<bool>,
                  first: nat, hi: nat, count: nat, total: nat)
    requires peers > 0 && (op.Test? ==> hi == first)
    requires Stage(peers, op, m0, m, slot, buffer, first, first, hi, count, total)
    ensures |m| == |m0| && Applied(peers, op, m0, m, slot, first, hi, buffer, first)
    ensures !Mutates(op) ==> m == m0
    ensures var result := if op.FindBit? || op.FindZeroBit? then END_OF_BITMAP
                          else if op.Count? then total else count;
            Answers(op, SlotBits(peers, m0, slot, first, hi), buffer, first, result)
  {
    hide Stage, Applied, Answers, SlotBits;
    StageApplied(peers, op, m0, m, slot, buffer, first, first, hi, count, total);
    StageReading(peers, op, m0, m, slot, buffer, first, first, hi, count, total);
    AnswersAll(peers, op, m0, m, slot, buffer, first, hi, count, total);
  }

  // Every cached weight is the number of set bits of its slot.
  ghost predicate Exact(peers: nat, weights: seq<int>, m: seq<bool>, bits: nat) {
    && |weights| == peers
    && forall k | 0 <= k < peers :: weights[k] == Ones(SlotBits(peers, m, k, 0, bits))
  }

  function Delta(op: Op, result: int): int {
    if op.Set? || op.Merge? then result else if op.Clear? then -result else 0
  }

  /** Booking the result of an operation on its own slot keeps all weights exact. */
  lemma OpKeepsWeights(peers: nat, op: Op, m: seq<bool>, m': seq<bool>, weights: seq<int>, slot: nat,
                       lo: nat, hi: nat, buffer: seq<bool>, bits: nat, result: int)
    requires slot < peers && lo <= hi && (hi <= bits || lo == hi)
    requires (bits + 31) / 32 * peers * 32 <= |m|
    requires Exact(peers, weights, m, bits)
    requires Applied(peers, op, m, m', slot, lo, hi, buffer, lo)
    requires Answers(op, SlotBits(peers, m, slot, lo, hi), buffer, lo, result)
    ensures Exact(peers, weights[slot := weights[slot] + Delta(op, result)], m', bits)
  {
    hide Applied, Flips, Ones, SlotBits;
    if !Mutates(op) {
      AppliedReading(peers, op, m, m', slot, lo, hi, buffer, lo);
    } else if lo == hi {
      AppliedEmpty(peers, op, m, m', slot, lo, buffer);
    } else {
      WeightAfter(peers, op, m, m', slot, lo, hi, buffer, bits);
      forall k | 0 <= k < peers && k != slot
        ensures SlotBits(peers, m', k, 0, bits) == SlotBits(peers, m, k, 0, bits)
      {
        OtherSlotsKept(peers, op, m, m', slot, lo, hi, buffer, lo, k, bits);
      }
    }
  }

  lemma AppliedEmpty(peers: nat, op: Op, m: seq<bool>, m': seq<bool>, slot: nat, lo: nat, buffer: seq<bool>)
    requires peers > 0 && Applied(peers, op, m, m', slot, lo, lo, buffer, lo)
    ensures m' == m && Ones(Flips(op, SlotBits(peers, m, slot, lo, lo), buffer, 0)) == 0
  {
  }
}
