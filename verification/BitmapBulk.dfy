/** Operations on many bits, done page by page so that the lock can be dropped in between. */
module BitmapBulk {
  import opened Arithmetic
  import opened BitmapLayout
  import opened BitmapSpec
  import opened Bitmap

  function Flipped(peers: nat, op: Op, m: seq<bool>, slot: nat, lo: nat, hi: nat): nat
    requires lo <= hi
  {
    Ones(Flips(op, SlotBits(peers, m, slot, lo, hi), [], 0))
  }

  // What two adjacent ranges did, one after the other, is what the whole range does.
  lemma Together(peers: nat, op: Op, m: seq<bool>, m1: seq<bool>, m2: seq<bool>, slot: nat,
                 lo: nat, mid: nat, hi: nat, bound: nat, bpp: nat)
    requires slot < peers && lo <= mid <= hi <= bound && bpp > 0 && (op.Set? || op.Clear?)
    requires (bound + 31) / 32 * peers * 32 <= |m|
    requires Applied(peers, op, m, m1, slot, lo, mid, [], lo)
    requires Applied(peers, op, m1, m2, slot, mid, hi, [], mid)
    ensures Applied(peers, op, m, m2, slot, lo, hi, [], lo)
    ensures Flipped(peers, op, m, slot, lo, hi) ==
            Flipped(peers, op, m, slot, lo, mid) + Flipped(peers, op, m1, slot, mid, hi)
    ensures DirtyPages(m, m2, bpp) == DirtyPages(m, m1, bpp) + DirtyPages(m1, m2, bpp)
  {
    hide Ones, Flips;
    AppliedTwice(peers, op, m, m1, m2, slot, lo, mid, hi, [], lo);
    var a, b := SlotBits(peers, m, slot, mid, hi), SlotBits(peers, m1, slot, mid, hi);
    forall i | 0 <= i < hi - mid ensures a[i] == b[i] {
      InsideSlot(peers, slot, mid + i, bound);
      AppliedPerSlot(peers, op, m, m1, slot, lo, mid, [], lo, slot, mid + i);
    }
    assert a == b;
    CountsSplit(peers, op, m, slot, [], lo, lo, mid, hi);
    FlipsNoBuffer(op, a, [], mid - lo);
    forall at | 0 <= at < |m| ensures m[at] != m2[at] <==> m[at] != m1[at] || m1[at] != m2[at] {}
  }

  // Memory, cached weights and page flags at some moment.
  datatype Snapshot = Snapshot(mem: seq<bool>, weight: seq<int>, need: set<nat>, lazy: set<nat>)

  ghost function Snap(b: Bitmap): Snapshot
    reads b, b.mem, b.weight
  {
    Snapshot(b.mem[..], b.weight[..], b.needWriteout, b.lazyWriteout)
  }

  // The bits [lo, hi) of the slot have been set or cleared.
  ghost predicate Moved(peers: nat, wpp: nat, op: Op, slot: nat, lo: nat, hi: nat, a: Snapshot, b: Snapshot) {
    && peers > 0 && wpp > 0 && lo <= hi && slot < |a.weight| && |a.mem| == |b.mem|
    && Applied(peers, op, a.mem, b.mem, slot, lo, hi, [], lo)
    && b.weight == a.weight[slot := a.weight[slot] + Delta(op, Flipped(peers, op, a.mem, slot, lo, hi))]
    && b.need == a.need + (if op.Set? then DirtyPages(a.mem, b.mem, wpp * 32) else {})
    && b.lazy == a.lazy + if op.Clear? then DirtyPages(a.mem, b.mem, wpp * 32) else {}
  }

  lemma NotMoved(peers: nat, wpp: nat, op: Op, slot: nat, lo: nat, a: Snapshot)
    requires slot < peers <= wpp && slot < |a.weight| && (op.Set? || op.Clear?)
    ensures Moved(peers, wpp, op, slot, lo, lo, a, a)
  {
    hide Applied, Flipped, DirtyPages;
    AppliedNothing(peers, op, a.mem, slot, lo, [], lo);
    NothingDirty(a.mem, wpp * 32);
    NothingFlipped(peers, op, a.mem, slot, lo);
  }

  lemma MovedOn(peers: nat, wpp: nat, op: Op, slot: nat, lo: nat, mid: nat, hi: nat, bound: nat,
                a: Snapshot, b: Snapshot, c: Snapshot)
    requires slot < peers && hi <= bound && (bound + 31) / 32 * peers * 32 <= |a.mem| && (op.Set? || op.Clear?)
    requires Moved(peers, wpp, op, slot, lo, mid, a, b) && Moved(peers, wpp, op, slot, mid, hi, b, c)
    ensures Moved(peers, wpp, op, slot, lo, hi, a, c)
  {
    hide Applied, Flipped, DirtyPages;
    Together(peers, op, a.mem, b.mem, c.mem, slot, lo, mid, hi, bound, wpp * 32);
  }

  // One operation, on the bits of one page.
  method MoveOn(b: Bitmap, op: Op, slot: nat, bit: nat, last: nat)
    requires b.Valid() && slot < b.peers && bit <= last < b.bits && (op.Set? || op.Clear?)
    modifies b.mem, b.weight, b`needWriteout, b`lazyWriteout
    ensures Moved(b.peers, b.wpp, op, slot, bit, last + 1, old(Snap(b)), Snap(b))
  {
    hide Applied, Flips, Ones, SlotBits, Answers, Flipped, DirtyPages;
    var nothing := new bool[0];
    ghost var m := b.mem[..];
    assert nothing[..] == [];
    var n := b.BmOp(op, slot, bit, last, nothing);
    AnswersFlipped(b.peers, op, m, slot, bit, last + 1, n);
  }

  /** Set or clear the bits [start, end0] of a slot in steps of one page: the outcome is
   *  that of one operation on the whole range.
   */
  method ManyBitsOp(b: Bitmap, op: Op, slot: nat, start: nat, end0: nat)
    requires b.Valid() && slot < b.peers && b.bits > 0 && (op.Set? || op.Clear?)
    modifies b.mem, b.weight, b`needWriteout, b`lazyWriteout
    ensures b.Carried(op, slot, start, b.RangeEnd(start, end0), [],
                      Flipped(b.peers, op, old(b.mem[..]), slot, start, b.RangeEnd(start, end0)))
  {
    hide Applied, LastBitOnPage, PageOf, Flipped, DirtyPages, Moved;
    var end := if end0 >= b.bits then b.bits - 1 else end0;
    var bit := start;
    NotMoved(b.peers, b.wpp, op, slot, start, Snap(b));
    while bit <= end
      invariant start <= bit && (bit == start || bit <= end + 1)
      invariant Moved(b.peers, b.wpp, op, slot, start, bit, old(Snap(b)), Snap(b))
      decreases end + 1 - bit
    {
      ghost var before := Snap(b);
      LastBitOnPageIsLast(b.peers, b.wpp, slot, bit, bit);
      var last := LastBitOnPage(b.peers, b.wpp, slot, bit);
      if end < last {
        last := end;
      }
      MoveOn(b, op, slot, bit, last);
      MovedOn(b.peers, b.wpp, op, slot, start, bit, last + 1, b.bits, old(Snap(b)), before, Snap(b));
      bit := last + 1;
    }
    MovedAll(b.peers, b.wpp, op, slot, start, bit, old(Snap(b)), Snap(b));
  }

  lemma MovedAll(peers: nat, wpp: nat, op: Op, slot: nat, lo: nat, hi: nat, a: Snapshot, b: Snapshot)
    requires Moved(peers, wpp, op, slot, lo, hi, a, b)
    ensures lo <= hi && Applied(peers, op, a.mem, b.mem, slot, lo, hi, [], lo) && slot < |a.weight| && |a.mem| == |b.mem|
    ensures b.weight == a.weight[slot := a.weight[slot] + Delta(op, Flipped(peers, op, a.mem, slot, lo, hi))]
    ensures wpp > 0 && b.need == a.need + (if op.Set? then DirtyPages(a.mem, b.mem, wpp * 32) else {})
    ensures b.lazy == a.lazy + if op.Clear? then DirtyPages(a.mem, b.mem, wpp * 32) else {}
  {
  }

  lemma NothingDirty(m: seq<bool>, bpp: nat)
    requires bpp > 0
    ensures DirtyPages(m, m, bpp) == {}
  {
  }

  lemma NothingFlipped(peers: nat, op: Op, m: seq<bool>, slot: nat, lo: nat)
    ensures Flipped(peers, op, m, slot, lo, lo) == 0
  {
  }

  lemma AnswersFlipped(peers: nat, op: Op, m: seq<bool>, slot: nat, lo: nat, hi: nat, result: int)
    requires lo <= hi && (op.Set? || op.Clear?)
    requires Answers(op, SlotBits(peers, m, slot, lo, hi), [], lo, result)
    ensures result == Flipped(peers, op, m, slot, lo, hi)
  {
  }

  /** Recount every slot from the bits. */
  method CountBits(b: Bitmap)
    requires b.Valid()
    modifies b.mem, b.weight, b`needWriteout, b`lazyWriteout
    ensures b.WeightsExact()
    ensures b.mem[..] == old(b.mem[..])
    ensures b.needWriteout == old(b.needWriteout) && b.lazyWriteout == old(b.lazyWriteout)
  {
    hide Applied, Flips, Ones, SlotBits, LastBitOnPage, Position;
    var nothing := new bool[0];
    ghost var m := b.mem[..];
    var slot := 0;
    while slot < b.peers
      invariant 0 <= slot <= b.peers && b.mem[..] == m
      invariant forall k | 0 <= k < slot :: b.weight[k] == Ones(SlotBits(b.peers, m, k, 0, b.bits))
      invariant b.needWriteout == old(b.needWriteout) && b.lazyWriteout == old(b.lazyWriteout)
    {
      var bit, bitsSet := 0, 0;
      NothingCounted(b.peers, m, slot);
      while bit < b.bits
        invariant 0 <= bit && b.mem[..] == m
        invariant bitsSet == Ones(SlotBits(b.peers, m, slot, 0, if bit < b.bits then bit else b.bits))
        invariant forall k | 0 <= k < slot :: b.weight[k] == Ones(SlotBits(b.peers, m, k, 0, b.bits))
        invariant b.needWriteout == old(b.needWriteout) && b.lazyWriteout == old(b.lazyWriteout)
        decreases b.bits - bit
      {
        LastBitOnPageIsLast(b.peers, b.wpp, slot, bit, bit);
        var last := LastBitOnPage(b.peers, b.wpp, slot, bit);
        ghost var hi := b.RangeEnd(bit, last);
        var n := b.BmOp(Count, slot, bit, last, nothing);
        AppliedReading(b.peers, Count, m, b.mem[..], slot, bit, hi, [], bit);
        CountsSplit(b.peers, Count, m, slot, [], 0, 0, bit, hi);
        bitsSet := bitsSet + n;
        bit := last + 1;
      }
      b.weight[slot] := bitsSet;
      slot := slot + 1;
    }
  }

  lemma NothingCounted(peers: nat, m: seq<bool>, slot: nat)
    ensures Ones(SlotBits(peers, m, slot, 0, 0)) == 0
  {
  }
}
