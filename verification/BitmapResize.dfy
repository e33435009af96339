/** Growing and shrinking the bitmap.
 *
 * New bits are set, or stale ones cleared, by three different means: bit operations
 * on the rest of the page that holds the old end, bit operations on the last new
 * page, and wholesale filling of the pages between.  `Covered` says which bits
 * those reach together, and `CoverageExact` when they reach all of them.
 */
module BitmapResize {
  import opened Arithmetic
  import opened BitmapLayout
  import opened BitmapSpec
  import opened Bitmap
  import opened BitmapBulk

  // Rows of 32 bits per slot: the source rounds the bits up to 64.
  function Rows(bits: nat): nat {
    (bits + 63) / 64 * 2
  }

  function PagesFor(peers: nat, wpp: nat, bits: nat): nat
    requires wpp > 0
  {
    (Rows(bits) * peers + wpp - 1) / wpp
  }

  // Where the bit operations on the last new page begin.
  function FirstBitLastPage(peers: nat, wpp: nat, want: nat): nat
    requires peers > 0 && want > 0
  {
    (want - 1) * wpp / peers * 32
  }

  // Is the new bit in the tail of the page that holds the first new bit?
  predicate InTail(peers: nat, wpp: nat, obits: nat, slot: nat, bit: nat)
    requires peers > 0 && wpp > 0
  {
    0 < obits <= bit <= LastBitOnPage(peers, wpp, slot, obits)
  }

  // Is the new bit reached by one of the three fills?
  predicate Covered(peers: nat, wpp: nat, obits: nat, have: nat, want: nat, slot: nat, bit: nat)
    requires 0 < peers && wpp > 0
  {
    || InTail(peers, wpp, obits, slot, bit)
    || (want > have && bit >= FirstBitLastPage(peers, wpp, want))
    || have <= PageOf(peers, wpp, slot, bit) < want - 1
  }

  // The guard: for no slot does the page of the first new bit come before the last
  // existing page, unless the whole growth fits on it.
  predicate TailOnLastPage(peers: nat, wpp: nat, obits: nat, bits: nat)
    requires 0 < peers && wpp > 0
  {
    obits == 0 ||
    forall slot | 0 <= slot < peers ::
      PageOf(peers, wpp, slot, obits) + 1 >= PagesFor(peers, wpp, obits)
      || LastBitOnPage(peers, wpp, slot, obits) + 1 >= bits
  }

  lemma PagesForBounds(peers: nat, wpp: nat, bits: nat)
    requires wpp > 0
    ensures Rows(bits) * peers <= PagesFor(peers, wpp, bits) * wpp
    ensures bits > 0 && peers > 0 ==> (PagesFor(peers, wpp, bits) - 1) * wpp < Rows(bits) * peers && PagesFor(peers, wpp, bits) > 0
    ensures Rows(bits) >= (bits + 31) / 32 && Rows(bits) * 32 >= bits
  {
    var n := Rows(bits) * peers;
    var have := (n + wpp - 1) / wpp;
    DivModParts(n + wpp - 1, wpp);
    assert (have - 1) * wpp == have * wpp - wpp;
    if bits > 0 && peers > 0 {
      assert Rows(bits) >= 2;
      MulMonotone(2, Rows(bits), peers);
    }
  }

  // The pages that come with growth hold no old bits.
  lemma OldBitsOnOldPages(peers: nat, wpp: nat, obits: nat, slot: nat, bit: nat)
    requires slot < peers && wpp > 0 && bit < obits
    ensures PageOf(peers, wpp, slot, bit) < PagesFor(peers, wpp, obits)
  {
    PagesForBounds(peers, wpp, obits);
    var word := InterleavedWord(peers, slot, bit);
    MulMonotone(bit / 32 + 1, Rows(obits), peers);
    assert (bit / 32 + 1) * peers == bit / 32 * peers + peers;
    BelowPage(word, PagesFor(peers, wpp, obits), wpp);
  }

  // The bit operations on the last page do not touch old bits either.
  lemma LastPageIsNew(peers: nat, wpp: nat, obits: nat, want: nat)
    requires 0 < peers && wpp > 0 && want > PagesFor(peers, wpp, obits)
    ensures FirstBitLastPage(peers, wpp, want) >= obits
  {
    PagesForBounds(peers, wpp, obits);
    var rows := Rows(obits);
    MulMonotone(PagesFor(peers, wpp, obits), want - 1, wpp);
    DivMonotone(rows, (want - 1) * wpp, peers);
  }

  // Every bit of a slot that is on the last page comes after their beginning.
  lemma LastPageReached(peers: nat, wpp: nat, want: nat, slot: nat, bit: nat)
    requires slot < peers && wpp > 0 && want > 0 && PageOf(peers, wpp, slot, bit) >= want - 1
    ensures bit >= FirstBitLastPage(peers, wpp, want)
  {
    var word := InterleavedWord(peers, slot, bit);
    var edge := (want - 1) * wpp;
    BelowPage(word, want - 1, wpp);
    assert edge <= word < (bit / 32 + 1) * peers by {
      assert (bit / 32 + 1) * peers == bit / 32 * peers + peers;
    }
    BelowPage(edge, bit / 32 + 1, peers);
  }

  lemma MorePages(peers: nat, wpp: nat, obits: nat, bits: nat)
    requires wpp > 0 && obits <= bits
    ensures PagesFor(peers, wpp, obits) <= PagesFor(peers, wpp, bits)
  {
    MulMonotone(Rows(obits), Rows(bits), peers);
    CeilMonotone(Rows(obits) * peers, Rows(bits) * peers, wpp);
  }

  lemma CeilMonotone(a: nat, b: nat, d: nat)
    requires a <= b && d > 0
    ensures (a + d - 1) / d <= (b + d - 1) / d
  {
    DivModParts(a + d - 1, d);
    DivMonotone((a + d - 1) / d, b + d - 1, d);
  }

  lemma PageMonotone(peers: nat, wpp: nat, slot: nat, a: nat, b: nat)
    requires wpp > 0 && a <= b
    ensures PageOf(peers, wpp, slot, a) <= PageOf(peers, wpp, slot, b)
  {
    MulMonotone(a / 32, b / 32, peers);
    var v, w := InterleavedWord(peers, slot, a), InterleavedWord(peers, slot, b);
    DivModParts(v, wpp);
    DivMonotone(v / wpp, w, wpp);
  }

  // With the guard, each new bit is reached.
  lemma CoveredBit(peers: nat, wpp: nat, obits: nat, bits: nat, slot: nat, bit: nat)
    requires slot < peers <= wpp && obits <= bit < bits
    requires TailOnLastPage(peers, wpp, obits, bits)
    ensures Covered(peers, wpp, obits, PagesFor(peers, wpp, obits), PagesFor(peers, wpp, bits), slot, bit)
  {
    hide PageOf, LastBitOnPage, FirstBitLastPage, PagesFor;
    var have, want := PagesFor(peers, wpp, obits), PagesFor(peers, wpp, bits);
    MorePages(peers, wpp, obits, bits);
    OldBitsOnOldPages(peers, wpp, bits, slot, bit);
    var page := PageOf(peers, wpp, slot, bit);
    if want > have && page >= want - 1 {
      LastPageReached(peers, wpp, want, slot, bit);
    } else if page < have {
      if obits == 0 {
        PagesForNothing(peers, wpp);
        assert false;
      }
      PageMonotone(peers, wpp, slot, obits, bit);
      LastBitOnPageIsLast(peers, wpp, slot, obits, bit);
    }
  }

  lemma PagesForNothing(peers: nat, wpp: nat)
    requires wpp > 0
    ensures PagesFor(peers, wpp, 0) == 0
  {
  }

  // Without it, the first bit of the slot on the page after the tail is not reached.
  lemma MissedBit(peers: nat, wpp: nat, obits: nat, bits: nat, slot: nat)
    requires slot < peers && 2 * peers <= wpp && 0 < obits < bits
    requires PageOf(peers, wpp, slot, obits) + 1 < PagesFor(peers, wpp, obits)
    requires LastBitOnPage(peers, wpp, slot, obits) + 1 < bits
    ensures var bit := LastBitOnPage(peers, wpp, slot, obits) + 1;
            && obits <= bit < bits
            && !Covered(peers, wpp, obits, PagesFor(peers, wpp, obits), PagesFor(peers, wpp, bits), slot, bit)
  {
    hide PagesFor;
    var have, want := PagesFor(peers, wpp, obits), PagesFor(peers, wpp, bits);
    var last := LastBitOnPage(peers, wpp, slot, obits);
    var bit := last + 1;
    LastBitOnPageIsLast(peers, wpp, slot, obits, obits);
    LastBitOnPageIsLast(peers, wpp, slot, obits, last);
    MorePages(peers, wpp, obits, bits);
    assert bit / 32 == last / 32 + 1;
    if want > have { BeforeLastPage(peers, wpp, slot, last, want); }
  }

  // The next row of a slot is complete before the last page, if its page is not the last.
  lemma BeforeLastPage(peers: nat, wpp: nat, slot: nat, last: nat, want: nat)
    requires slot < peers && 2 * peers <= wpp && (last + 1) / 32 == last / 32 + 1
    requires PageOf(peers, wpp, slot, last) < PageOf(peers, wpp, slot, last + 1) < want - 1
    ensures (want - 1) * wpp / peers >= (last + 1) / 32 + 1
  {
    var page := PageOf(peers, wpp, slot, last + 1);
    var row := (last + 1) / 32;
    assert row * peers == last / 32 * peers + peers;
    BelowPage(InterleavedWord(peers, slot, last), page, wpp);
    assert (row + 1) * peers == row * peers + peers;
    assert (page + 1) * wpp == page * wpp + wpp;
    MulMonotone(page + 1, want - 1, wpp);
    DivMonotone(row + 1, (want - 1) * wpp, peers);
  }

  /** The three fills reach every new bit of every slot if and only if the guard holds. */
  lemma CoverageExact(peers: nat, wpp: nat, obits: nat, bits: nat)
    requires 0 < peers && 2 * peers <= wpp && obits < bits
    ensures TailOnLastPage(peers, wpp, obits, bits) <==>
            forall slot, bit | 0 <= slot < peers && obits <= bit < bits ::
              Covered(peers, wpp, obits, PagesFor(peers, wpp, obits), PagesFor(peers, wpp, bits), slot, bit)
  {
    hide Covered, PageOf, LastBitOnPage, PagesFor;
    if TailOnLastPage(peers, wpp, obits, bits) {
      forall slot, bit | 0 <= slot < peers && obits <= bit < bits
        ensures Covered(peers, wpp, obits, PagesFor(peers, wpp, obits), PagesFor(peers, wpp, bits), slot, bit)
      {
        CoveredBit(peers, wpp, obits, bits, slot, bit);
      }
    } else {
      var slot :| 0 <= slot < peers && PageOf(peers, wpp, slot, obits) + 1 < PagesFor(peers, wpp, obits)
                  && LastBitOnPage(peers, wpp, slot, obits) + 1 < bits;
      MissedBit(peers, wpp, obits, bits, slot);
    }
  }

  /** The guard holds for any sizes when the number of slots divides half the words of
   *  a page, as one, two, four, eight, sixteen and thirty-two slots do.
   */
  lemma EvenRowsPerPage(peers: nat, half: nat, obits: nat, bits: nat)
    requires peers > 0 && half > 0
    ensures peers * (2 * half) > 0 && TailOnLastPage(peers, peers * (2 * half), obits, bits)
  {
    var wpp := peers * (2 * half);
    MulMonotone(1, peers, 2 * half);
    if obits > 0 {
      forall slot | 0 <= slot < peers
        ensures PageOf(peers, wpp, slot, obits) + 1 >= PagesFor(peers, wpp, obits)
      {
        PagesForBounds(peers, wpp, obits);
        EvenRow(peers, half, wpp, PagesFor(peers, wpp, obits) - 1, obits, InterleavedWord(peers, slot, obits));
      }
    }
  }

  lemma EvenRow(peers: nat, half: nat, wpp: nat, q: nat, obits: nat, word: nat)
    requires wpp == peers * (2 * half) > 0 && obits > 0 && q * wpp < Rows(obits) * peers
    requires word >= obits / 32 * peers
    ensures word / wpp >= q
  {
    var k := 2 * half;
    assert q * wpp == q * k * peers by { Reassociate(q, peers, k); }
    Cancel(q * k, Rows(obits), peers);
    PairsOnOnePage(q, half, (obits + 63) / 64);
    assert 2 * ((obits + 63) / 64) - 2 <= obits / 32;
    MulMonotone(q * k, obits / 32, peers);
    DivMonotone(q, word, wpp);
  }

  lemma Reassociate(a: nat, b: nat, c: nat)
    ensures a * (b * c) == a * c * b
  {
  }

  lemma Cancel(a: nat, b: nat, c: nat)
    requires a * c < b * c
    ensures a < b
  {
    if a >= b { MulMonotone(b, a, c); }
  }

  lemma PairsOnOnePage(q: nat, half: nat, pairs: nat)
    requires q * (2 * half) < 2 * pairs
    ensures q * (2 * half) <= 2 * pairs - 2
  {
    assert q * (2 * half) == 2 * (q * half);
  }

  /** With three slots on 4k pages it fails: growing from 10913 bits leaves bit 10944 of
   *  slot 0 as it was.
   */
  lemma ThreeSlotsMiss()
    ensures !TailOnLastPage(3, 1024, 10913, 20000)
    ensures !Covered(3, 1024, 10913, PagesFor(3, 1024, 10913), PagesFor(3, 1024, 20000), 0, 10944)
  {
    assert PageOf(3, 1024, 0, 10913) == 0;
    assert PagesFor(3, 1024, 10913) == 2;
    assert LastBitOnPage(3, 1024, 0, 10913) == 10943 by {
      ModOfShifted(-(1023 + 1), -1, 1024, 0);
    }
    MissedBit(3, 1024, 10913, 20000, 0);
  }

  // What the bit operations on one slot make of a new bit.
  predicate Touched(peers: nat, wpp: nat, obits: nat, have: nat, want: nat, setNew: bool, slot: nat, bit: nat, was: bool)
    requires peers > 0 && wpp > 0
  {
    if setNew then was || InTail(peers, wpp, obits, slot, bit) ||
                   (want > have && bit >= FirstBitLastPage(peers, wpp, want))
              else was && !InTail(peers, wpp, obits, slot, bit)
  }

  // The slots below `done` have been through that, the others not.
  ghost predicate SlotsTouched(peers: nat, wpp: nat, obits: nat, bits: nat, have: nat, want: nat, setNew: bool,
                               m: seq<bool>, m': seq<bool>, done: nat)
    requires peers > 0 && wpp > 0
  {
    forall slot, bit | 0 <= slot < peers && 0 <= bit < bits ::
      BitAt(peers, m', slot, bit) ==
      if slot < done then Touched(peers, wpp, obits, have, want, setNew, slot, bit, BitAt(peers, m, slot, bit))
                     else BitAt(peers, m, slot, bit)
  }

  // Set or clear in [lo, hi), seen slot by slot.
  lemma OpPerSlot(peers: nat, op: Op, m: seq<bool>, m': seq<bool>, slot: nat, lo: nat, hi: nat, bits: nat)
    requires slot < peers && (op.Set? || op.Clear?) && (bits + 31) / 32 * peers * 32 <= |m|
    requires Applied(peers, op, m, m', slot, lo, hi, [], lo)
    ensures forall s, bit | 0 <= s < peers && 0 <= bit < bits ::
              BitAt(peers, m', s, bit) ==
              if s == slot && lo <= bit < hi then op.Set? else BitAt(peers, m, s, bit)
  {
    hide Applied;
    forall s, bit | 0 <= s < peers && 0 <= bit < bits
      ensures BitAt(peers, m', s, bit) == if s == slot && lo <= bit < hi then op.Set? else BitAt(peers, m, s, bit)
    {
      InsideSlot(peers, s, bit, bits);
      AppliedPerSlot(peers, op, m, m', slot, lo, hi, [], lo, s, bit);
    }
  }

  // The bits [lo, hi) of the slot have the value, all others are as they were.
  ghost predicate Painted(peers: nat, m: seq<bool>, m': seq<bool>, slot: nat, lo: nat, hi: nat, value: bool, bits: nat) {
    forall s, bit | 0 <= s < peers && 0 <= bit < bits ::
      BitAt(peers, m', s, bit) == if s == slot && lo <= bit < hi then value else BitAt(peers, m, s, bit)
  }

  // Set or clear some bits of one slot.
  method Paint(b: Bitmap, slot: nat, lo: nat, last: nat, value: bool)
    requires b.Valid() && slot < b.peers && last < b.bits
    modifies b.mem, b.weight, b`needWriteout, b`lazyWriteout
    ensures Painted(b.peers, old(b.mem[..]), b.mem[..], slot, lo, last + 1, value, b.bits)
    ensures b.weight[..] == old(b.weight[..])[slot := b.weight[slot]]
    ensures DirtyPages(old(b.mem[..]), b.mem[..], b.wpp * 32) <= b.needWriteout + b.lazyWriteout
    ensures old(b.needWriteout) <= b.needWriteout && old(b.lazyWriteout) <= b.lazyWriteout
  {
    hide Applied, SlotBits, BitAt, Answers, DirtyPages;
    var nothing := new bool[0];
    assert nothing[..] == [];
    ghost var m := b.mem[..];
    var op := if value then Set else Clear;
    var _ := b.BmOp(op, slot, lo, last, nothing);
    OpPerSlot(b.peers, op, m, b.mem[..], slot, lo, b.RangeEnd(lo, last), b.bits);
  }

  lemma PaintedTail(peers: nat, wpp: nat, obits: nat, bits: nat, have: nat, want: nat, setNew: bool, m: seq<bool>,
                    m0: seq<bool>, m1: seq<bool>, m2: seq<bool>, slot: nat, pageEnd: nat)
    requires peers > 0 && wpp > 0 && obits < bits && slot < peers
    requires SlotsTouched(peers, wpp, obits, bits, have, want, setNew, m, m0, slot)
    requires if obits > 0
             then Painted(peers, m0, m1, slot, obits, pageEnd + 1, setNew, bits) &&
                  pageEnd == (if LastBitOnPage(peers, wpp, slot, obits) >= bits then bits - 1
                              else LastBitOnPage(peers, wpp, slot, obits))
             else m1 == m0
    requires if setNew && want > have then Painted(peers, m1, m2, slot, FirstBitLastPage(peers, wpp, want), bits, true, bits)
             else m2 == m1
    ensures SlotsTouched(peers, wpp, obits, bits, have, want, setNew, m, m2, slot + 1)
  {
    hide BitAt, LastBitOnPage, FirstBitLastPage;
  }

  // The bit operations on one slot.
  method GrowSlot(b: Bitmap, slot: nat, obits: nat, have: nat, want: nat, setNew: bool, ghost m: seq<bool>)
    requires b.Valid() && slot < b.peers && obits < b.bits && have == PagesFor(b.peers, b.wpp, obits) <= want
    requires SlotsTouched(b.peers, b.wpp, obits, b.bits, have, want, setNew, m, b.mem[..], slot)
    modifies b.mem, b.weight, b`needWriteout, b`lazyWriteout
    ensures SlotsTouched(b.peers, b.wpp, obits, b.bits, have, want, setNew, m, b.mem[..], slot + 1)
    ensures b.weight[..] == old(b.weight[..])[slot := old(b.weight[slot]) + if setNew then b.bits - obits else 0]
    ensures DirtyPages(old(b.mem[..]), b.mem[..], b.wpp * 32) <= b.needWriteout + b.lazyWriteout
    ensures old(b.needWriteout) <= b.needWriteout && old(b.lazyWriteout) <= b.lazyWriteout
  {
    hide PagesFor, LastBitOnPage, FirstBitLastPage, Painted, SlotsTouched, DirtyPages;
    var bmSet := b.weight[slot];
    var pageEnd := 0;
    ghost var m0 := b.mem[..];
    NothingDirty(m0, b.wpp * 32);
    if obits > 0 {
      pageEnd := LastBitOnPage(b.peers, b.wpp, slot, obits);
      if pageEnd >= b.bits {
        pageEnd := b.bits - 1;
      }
      Paint(b, slot, obits, pageEnd, setNew);
    }
    ghost var m1 := b.mem[..];
    NothingDirty(m1, b.wpp * 32);
    if setNew {
      if want > have {
        Paint(b, slot, FirstBitLastPage(b.peers, b.wpp, want), b.bits - 1, true);
      }
      bmSet := bmSet + (b.bits - obits);
    }
    DirtyUnion(m0, m1, b.mem[..], b.wpp * 32);
    PaintedTail(b.peers, b.wpp, obits, b.bits, have, want, setNew, m, m0, m1, b.mem[..], slot, pageEnd);
    b.weight[slot] := bmSet;
  }

  // Fill the pages [have, want - 1) with ones.
  method FillPages(b: Bitmap, have: nat, want: nat)
    requires b.Valid() && have <= want == b.pages
    modifies b.mem, b`needWriteout
    ensures forall at | 0 <= at < b.mem.Length ::
              b.mem[at] == (old(b.mem[at]) || have <= at / (b.wpp * 32) < want - 1)
    ensures old(b.needWriteout) <= b.needWriteout
    ensures forall p | have <= p < want - 1 :: p in b.needWriteout
  {
    var p := have;
    var bpp := b.wpp * 32;
    while p < want - 1
      invariant have <= p && (p <= want - 1 || p == have)
      invariant forall at | 0 <= at < b.mem.Length ::
                  b.mem[at] == (old(b.mem[at]) || (have <= at / bpp < p && at / bpp < want - 1))
      invariant old(b.needWriteout) <= b.needWriteout
      invariant forall q | have <= q < p && q < want - 1 :: q in b.needWriteout
    {
      PageInside(p, want, b.wpp);
      ghost var before := b.mem[..];
      forall i | 0 <= i < bpp {
        b.mem[p * bpp + i] := true;
      }
      forall at | 0 <= at < b.mem.Length
        ensures b.mem[at] == (before[at] || at / bpp == p)
      {
        PageSpan(at, p, bpp);
      }
      b.needWriteout := b.needWriteout + {p};
      p := p + 1;
    }
  }

  lemma PageInside(p: nat, pages: nat, wpp: nat)
    requires p < pages
    ensures p * (wpp * 32) + wpp * 32 <= pages * wpp * 32
  {
    MulMonotone(p + 1, pages, wpp);
    assert (p + 1) * wpp == p * wpp + wpp;
    assert p * (wpp * 32) == p * wpp * 32;
  }

  lemma PageSpan(at: nat, p: nat, bpp: nat)
    requires bpp > 0
    ensures at / bpp == p <==> p * bpp <= at < p * bpp + bpp
  {
    DivModParts(at, bpp);
    if p * bpp <= at < p * bpp + bpp {
      PageBounds(bpp, at, p);
    }
  }

  function Resized(m: seq<bool>, size: nat): seq<bool> {
    seq(size, i requires 0 <= i < size => i < |m| && m[i])
  }

  // The bitmap after growing: old bits kept, new bits set or cleared where reached.
  ghost predicate Grown(peers: nat, wpp: nat, obits: nat, bits: nat, setNew: bool, m: seq<bool>, m': seq<bool>)
    requires peers > 0 && wpp > 0
  {
    var have, want := PagesFor(peers, wpp, obits), PagesFor(peers, wpp, bits);
    forall slot, bit | 0 <= slot < peers && 0 <= bit < bits ::
      BitAt(peers, m', slot, bit) ==
      if bit < obits then BitAt(peers, m, slot, bit)
      else if setNew then BitAt(peers, m, slot, bit) || Covered(peers, wpp, obits, have, want, slot, bit)
      else BitAt(peers, m, slot, bit) && !InTail(peers, wpp, obits, slot, bit)
  }

  lemma GrownFromTouched(peers: nat, wpp: nat, obits: nat, bits: nat, setNew: bool,
                         m: seq<bool>, m1: seq<bool>, m2: seq<bool>)
    requires 0 < peers <= wpp && obits < bits && |m1| == |m2| && (bits + 31) / 32 * peers * 32 <= |m1|
    requires var have, want := PagesFor(peers, wpp, obits), PagesFor(peers, wpp, bits);
             && SlotsTouched(peers, wpp, obits, bits, have, want, setNew, m, m1, peers)
             && forall at | 0 <= at < |m1| ::
                  m2[at] == (m1[at] || (setNew && have <= at / (wpp * 32) < want - 1))
    ensures Grown(peers, wpp, obits, bits, setNew, m, m2)
  {
    hide LastBitOnPage, FirstBitLastPage, PagesFor, PageOf, Position;
    var have, want := PagesFor(peers, wpp, obits), PagesFor(peers, wpp, bits);
    forall slot, bit | 0 <= slot < peers && 0 <= bit < bits
      ensures BitAt(peers, m2, slot, bit) ==
              if bit < obits then BitAt(peers, m, slot, bit)
              else if setNew then BitAt(peers, m, slot, bit) || Covered(peers, wpp, obits, have, want, slot, bit)
              else BitAt(peers, m, slot, bit) && !InTail(peers, wpp, obits, slot, bit)
    {
      InsideSlot(peers, slot, bit, bits);
      PageOfPosition(peers, wpp, slot, bit);
      var at := Position(peers, slot, bit);
      assert BitAt(peers, m2, slot, bit) ==
             (BitAt(peers, m1, slot, bit) || (setNew && have <= PageOf(peers, wpp, slot, bit) < want - 1)) by {
        assert m2[at] == (m1[at] || (setNew && have <= at / (wpp * 32) < want - 1));
      }
      assert BitAt(peers, m1, slot, bit) ==
             Touched(peers, wpp, obits, have, want, setNew, slot, bit, BitAt(peers, m, slot, bit));
      if bit < obits {
        OldBitsOnOldPages(peers, wpp, obits, slot, bit);
        if want > have { LastPageIsNew(peers, wpp, obits, want); }
      }
    }
  }

  lemma PageOfPosition(peers: nat, wpp: nat, slot: nat, bit: nat)
    requires wpp > 0
    ensures Position(peers, slot, bit) / (wpp * 32) == PageOf(peers, wpp, slot, bit)
  {
    var word := InterleavedWord(peers, slot, bit);
    DivModParts(word, wpp);
    var p := word / wpp;
    assert p * (wpp * 32) == p * wpp * 32;
    PageBounds(wpp * 32, word * 32 + bit % 32, p);
  }

  datatype ResizeResult = Done | NoSpace | NoMemory

  // The room for the bitmap on disk, if a disk is attached.
  datatype DiskRoom = Detached | Attached(bits: nat)

  function BitsFor(capacity: nat, sectPerBit: nat): nat
    requires sectPerBit > 0
  {
    (capacity + sectPerBit - 1) / sectPerBit
  }

  lemma BitsForNothing(sectPerBit: nat)
    requires sectPerBit > 0
    ensures BitsFor(0, sectPerBit) == 0
  {
  }

  ghost predicate Sized(b: Bitmap)
    reads b
  {
    b.Valid() && b.pages == PagesFor(b.peers, b.wpp, b.bits)
  }

  lemma RoomEnough(peers: nat, wpp: nat, bits: nat)
    requires 0 < peers <= wpp
    ensures (bits + 31) / 32 * peers * 32 <= PagesFor(peers, wpp, bits) * wpp * 32
  {
    PagesForBounds(peers, wpp, bits);
    MulMonotone((bits + 31) / 32, Rows(bits), peers);
  }

  // Replace the pages: existing ones are kept, new ones are zero.
  method Reallocate(b: Bitmap, capacity: nat, bits: nat)
    requires Sized(b)
    modifies b`capacity, b`bits, b`pages, b`mem, b`needWriteout, b`lazyWriteout
    ensures Sized(b) && b.bits == bits && b.capacity == capacity && fresh(b.mem)
    ensures b.mem[..] == Resized(old(b.mem[..]), b.mem.Length)
    ensures b.needWriteout == (set p | p in old(b.needWriteout) && p < b.pages)
    ensures b.lazyWriteout == (set p | p in old(b.lazyWriteout) && p < b.pages)
  {
    hide PagesFor;
    var want := PagesFor(b.peers, b.wpp, bits);
    RoomEnough(b.peers, b.wpp, bits);
    var size := want * b.wpp * 32;
    var old' := b.mem;
    var mem := new bool[size](i requires i >= 0 reads old' => i < old'.Length && old'[i]);
    b.mem, b.pages, b.bits, b.capacity := mem, want, bits, capacity;
    b.needWriteout := set p | p in b.needWriteout && p < want;
    b.lazyWriteout := set p | p in b.lazyWriteout && p < want;
  }

  lemma {:induction false} ResizedBits(peers: nat, m: seq<bool>, m': seq<bool>, bits: nat)
    requires peers > 0 && m' == Resized(m, |m'|) && (bits + 31) / 32 * peers * 32 <= |m'|
    ensures forall slot, bit | 0 <= slot < peers && 0 <= bit < bits ::
              BitAt(peers, m', slot, bit) == BitAt(peers, m, slot, bit)
  {
    hide Position;
    forall slot, bit | 0 <= slot < peers && 0 <= bit < bits
      ensures BitAt(peers, m', slot, bit) == BitAt(peers, m, slot, bit)
    {
      InsideSlot(peers, slot, bit, bits);
    }
  }

  lemma DirtyUnion(m: seq<bool>, m1: seq<bool>, m2: seq<bool>, bpp: nat)
    requires |m| == |m1| == |m2| && bpp > 0
    ensures DirtyPages(m, m2, bpp) <= DirtyPages(m, m1, bpp) + DirtyPages(m1, m2, bpp)
  {
  }

  // All slots, then the pages between the old end and the last page.
  method Grow(b: Bitmap, obits: nat, setNew: bool, ghost m: seq<bool>)
    requires Sized(b) && obits < b.bits && b.mem[..] == Resized(m, b.mem.Length)
    modifies b.mem, b.weight, b`needWriteout, b`lazyWriteout
    ensures Grown(b.peers, b.wpp, obits, b.bits, setNew, m, b.mem[..])
    ensures forall k | 0 <= k < b.peers ::
              b.weight[k] == old(b.weight[k]) + if setNew then b.bits - obits else 0
    ensures DirtyPages(old(b.mem[..]), b.mem[..], b.wpp * 32) <= b.needWriteout + b.lazyWriteout
    ensures old(b.needWriteout) <= b.needWriteout && old(b.lazyWriteout) <= b.lazyWriteout
  {
    hide PagesFor, SlotsTouched, Grown, DirtyPages, Resized, BitAt;
    var have, want := PagesFor(b.peers, b.wpp, obits), PagesFor(b.peers, b.wpp, b.bits);
    ghost var m0, bpp := b.mem[..], b.wpp * 32;
    MorePages(b.peers, b.wpp, obits, b.bits);
    ResizedBits(b.peers, m, m0, b.bits);
    NothingTouched(b.peers, b.wpp, obits, b.bits, have, want, setNew, m, m0);
    NothingDirty(m0, bpp);
    var slot := 0;
    while slot < b.peers
      invariant 0 <= slot <= b.peers
      invariant SlotsTouched(b.peers, b.wpp, obits, b.bits, have, want, setNew, m, b.mem[..], slot)
      invariant forall k | 0 <= k < b.peers ::
                  b.weight[k] == old(b.weight[k]) + if setNew && k < slot then b.bits - obits else 0
      invariant DirtyPages(m0, b.mem[..], bpp) <= b.needWriteout + b.lazyWriteout
      invariant old(b.needWriteout) <= b.needWriteout && old(b.lazyWriteout) <= b.lazyWriteout
    {
      ghost var m1, w1 := b.mem[..], b.weight[..];
      GrowSlot(b, slot, obits, have, want, setNew, m);
      DirtyUnion(m0, m1, b.mem[..], bpp);
      assert forall k | 0 <= k < b.peers :: b.weight[k] == b.weight[..][k] && w1[k] == w1[k];
      slot := slot + 1;
    }
    ghost var m1 := b.mem[..];
    if setNew && want > have + 1 {
      FillPages(b, have, want);
      DirtyFill(m1, b.mem[..], have, want, bpp, b.needWriteout);
      DirtyUnion(m0, m1, b.mem[..], bpp);
    }
    GrownFromTouched(b.peers, b.wpp, obits, b.bits, setNew, m, m1, b.mem[..]);
  }

  lemma NothingTouched(peers: nat, wpp: nat, obits: nat, bits: nat, have: nat, want: nat, setNew: bool,
                       m: seq<bool>, m': seq<bool>)
    requires peers > 0 && wpp > 0
    requires forall slot, bit | 0 <= slot < peers && 0 <= bit < bits ::
               BitAt(peers, m', slot, bit) == BitAt(peers, m, slot, bit)
    ensures SlotsTouched(peers, wpp, obits, bits, have, want, setNew, m, m', 0)
  {
  }

  lemma DirtyFill(m: seq<bool>, m': seq<bool>, have: nat, want: nat, bpp: nat, flagged: set<nat>)
    requires |m| == |m'| && bpp > 0 && want > 0
    requires forall at | 0 <= at < |m| :: m'[at] == (m[at] || have <= at / bpp < want - 1)
    requires forall p | have <= p < want - 1 :: p in flagged
    ensures DirtyPages(m, m', bpp) <= flagged
  {
  }

  /** Fit the bitmap to a new capacity. */
  method Resize(b: Bitmap, capacity: nat, setNew: bool, room: DiskRoom, allocates: bool) returns (result: ResizeResult)
    requires Sized(b)
    modifies b, b.mem, b.weight
    ensures Sized(b) && b.weight == old(b.weight)
    ensures result == NoSpace <==>
      && capacity != old(b.capacity) && capacity != 0 && room.Attached?
      && BitsFor(capacity, b.sectPerBit) > room.bits
    ensures result == NoMemory <==>
      && capacity != old(b.capacity) && capacity != 0 && !(room.Attached? && BitsFor(capacity, b.sectPerBit) > room.bits)
      && PagesFor(b.peers, b.wpp, BitsFor(capacity, b.sectPerBit)) != old(b.pages) && !allocates
    ensures result != Done || capacity == old(b.capacity) ==>
      && b.bits == old(b.bits) && b.mem == old(b.mem)
      && b.mem[..] == old(b.mem[..]) && b.weight[..] == old(b.weight[..])
    ensures result == Done ==> b.capacity == capacity
    ensures result == Done && capacity != old(b.capacity) ==>
      b.bits == BitsFor(capacity, b.sectPerBit)
    ensures result == Done && capacity != old(b.capacity) && b.bits <= old(b.bits) ==>
      && b.WeightsExact()
      && forall slot, bit | 0 <= slot < b.peers && 0 <= bit < b.bits ::
           BitAt(b.peers, b.mem[..], slot, bit) == BitAt(b.peers, old(b.mem[..]), slot, bit)
    ensures result == Done && capacity != old(b.capacity) && b.bits > old(b.bits) ==>
      && Grown(b.peers, b.wpp, old(b.bits), b.bits, setNew, old(b.mem[..]), b.mem[..])
      && forall k | 0 <= k < b.peers ::
           b.weight[k] == old(b.weight[k]) + if setNew then b.bits - old(b.bits) else 0
    ensures DirtyPages(Resized(old(b.mem[..]), b.mem.Length), b.mem[..], b.wpp * 32) <= b.needWriteout + b.lazyWriteout
  {
    hide PagesFor, Grown, DirtyPages, BitAt, Exact, Resized, BitsFor;
    result := Done;
    ghost var m := b.mem[..];
    ResizedSame(m);
    NothingDirty(m, b.wpp * 32);
    if capacity == b.capacity {
      return;
    }
    var obits, have := b.bits, b.pages;
    var bits := BitsFor(capacity, b.sectPerBit);
    if capacity == 0 {
      BitsForNothing(b.sectPerBit);
      Reallocate(b, 0, 0);
      ghost var m1 := b.mem[..];
      forall k | 0 <= k < b.weight.Length { b.weight[k] := 0; }
      assert b.mem[..] == m1;
      NothingDirty(m1, b.wpp * 32);
      EmptyExact(b.peers, b.weight[..], b.mem[..]);
      return;
    }
    if room.Attached? && bits > room.bits {
      return NoSpace;
    }
    if PagesFor(b.peers, b.wpp, bits) != have && !allocates {
      return NoMemory;
    }
    Reallocate(b, capacity, bits);
    NothingDirty(b.mem[..], b.wpp * 32);
    if bits > obits {
      Grow(b, obits, setNew, m);
    } else {
      ResizedBits(b.peers, m, b.mem[..], bits);
      CountBits(b);
    }
  }

  lemma ResizedSame(m: seq<bool>)
    ensures Resized(m, |m|) == m
  {
  }

  lemma EmptyExact(peers: nat, weights: seq<int>, m: seq<bool>)
    requires |weights| == peers && forall k | 0 <= k < peers :: weights[k] == 0
    ensures Exact(peers, weights, m, 0)
  {
  }

  lemma {:induction false} AllOnes(w: seq<bool>)
    ensures Ones(w) <= |w| && (Ones(w) == |w| <==> false !in w)
  {
    if |w| > 0 {
      AllOnes(w[..|w| - 1]);
      assert w == w[..|w| - 1] + [w[|w| - 1]];
    }
  }

  // Nothing is set beyond the old end.
  ghost predicate PaddingClear(peers: nat, m: seq<bool>, obits: nat) {
    forall slot, bit | 0 <= slot < peers && obits <= bit :: !BitAt(peers, m, slot, bit)
  }

  // The number of set bits of a slot after growing.
  lemma SlotAfterGrowth(peers: nat, wpp: nat, obits: nat, bits: nat, setNew: bool, m: seq<bool>, m': seq<bool>, slot: nat)
    requires slot < peers <= wpp && obits < bits
    requires Grown(peers, wpp, obits, bits, setNew, m, m')
    ensures Ones(SlotBits(peers, m', slot, 0, bits)) ==
            Ones(SlotBits(peers, m, slot, 0, obits)) + Ones(SlotBits(peers, m', slot, obits, bits))
  {
    hide Ones, Covered, InTail, PagesFor, BitAt;
    CountsSplit(peers, Count, m', slot, [], 0, 0, obits, bits);
    var a, b := SlotBits(peers, m, slot, 0, obits), SlotBits(peers, m', slot, 0, obits);
    forall i | 0 <= i < obits ensures a[i] == b[i] {
      assert a[i] == BitAt(peers, m, slot, i) && b[i] == BitAt(peers, m', slot, i);
    }
    assert a == b;
  }

  // All of the new bits of a slot are counted exactly when all are set.
  lemma NewBitsOfSlot(peers: nat, m: seq<bool>, slot: nat, lo: nat, hi: nat)
    requires lo <= hi
    ensures Ones(SlotBits(peers, m, slot, lo, hi)) == hi - lo <==> forall bit | lo <= bit < hi :: BitAt(peers, m, slot, bit)
  {
    hide Ones, BitAt;
    var s := SlotBits(peers, m, slot, lo, hi);
    AllOnes(s);
    forall bit | lo <= bit < hi ensures s[bit - lo] == BitAt(peers, m, slot, bit) {
      assert s[bit - lo] == BitAt(peers, m, slot, lo + (bit - lo));
    }
    if false in s {
      var i :| 0 <= i < |s| && !s[i];
      assert s[lo + i - lo] == s[i];
    }
  }

  /** Growing with the new bits to be set, whatever stale bits were behind the old end: the
   *  cached weights are exact if and only if each new bit is reached or was set already.
   *  Under the guard that is so, and every new bit of every slot is set; without it, it is
   *  not if nothing was set behind the old end.
   */
  lemma GrowthExact(peers: nat, wpp: nat, obits: nat, bits: nat, m: seq<bool>, m': seq<bool>,
                    weights: seq<int>, weights': seq<int>)
    requires 0 < peers && 2 * peers <= wpp && obits < bits
    requires Grown(peers, wpp, obits, bits, true, m, m')
    requires Exact(peers, weights, m, obits) && |weights'| == peers
    requires forall k | 0 <= k < peers :: weights'[k] == weights[k] + (bits - obits)
    ensures Exact(peers, weights', m', bits) <==>
            forall slot, bit | 0 <= slot < peers && obits <= bit < bits ::
              BitAt(peers, m, slot, bit) || Covered(peers, wpp, obits, PagesFor(peers, wpp, obits), PagesFor(peers, wpp, bits), slot, bit)
    ensures TailOnLastPage(peers, wpp, obits, bits) ==>
            && Exact(peers, weights', m', bits)
            && forall slot, bit | 0 <= slot < peers && obits <= bit < bits :: BitAt(peers, m', slot, bit)
    ensures PaddingClear(peers, m, obits) && Exact(peers, weights', m', bits) ==> TailOnLastPage(peers, wpp, obits, bits)
  {
    hide Ones, Covered, InTail, PagesFor, BitAt, TailOnLastPage, SlotBits;
    CoverageExact(peers, wpp, obits, bits);
    forall slot | 0 <= slot < peers
      ensures weights'[slot] == Ones(SlotBits(peers, m', slot, 0, bits)) <==>
              forall bit | obits <= bit < bits :: BitAt(peers, m', slot, bit)
    {
      SlotAfterGrowth(peers, wpp, obits, bits, true, m, m', slot);
      NewBitsOfSlot(peers, m', slot, obits, bits);
    }
    var have, want := PagesFor(peers, wpp, obits), PagesFor(peers, wpp, bits);
    if Exact(peers, weights', m', bits) {
      forall slot, bit | 0 <= slot < peers && obits <= bit < bits
        ensures BitAt(peers, m, slot, bit) || Covered(peers, wpp, obits, have, want, slot, bit)
      {
        assert weights'[slot] == Ones(SlotBits(peers, m', slot, 0, bits));
        assert BitAt(peers, m', slot, bit);
      }
    }
    if forall slot, bit | 0 <= slot < peers && obits <= bit < bits ::
         BitAt(peers, m, slot, bit) || Covered(peers, wpp, obits, have, want, slot, bit) {
      forall slot | 0 <= slot < peers ensures weights'[slot] == Ones(SlotBits(peers, m', slot, 0, bits)) {
        forall bit | obits <= bit < bits ensures BitAt(peers, m', slot, bit) {
          assert BitAt(peers, m, slot, bit) || Covered(peers, wpp, obits, have, want, slot, bit);
        }
      }
    }
    if TailOnLastPage(peers, wpp, obits, bits) { SetNewBits(peers, wpp, obits, bits, m, m'); }
  }

  lemma SetNewBits(peers: nat, wpp: nat, obits: nat, bits: nat, m: seq<bool>, m': seq<bool>)
    requires 0 < peers && 2 * peers <= wpp && obits < bits && TailOnLastPage(peers, wpp, obits, bits)
    requires Grown(peers, wpp, obits, bits, true, m, m')
    ensures forall slot, bit | 0 <= slot < peers && obits <= bit < bits :: BitAt(peers, m', slot, bit)
  {
    hide Covered, InTail, PagesFor, BitAt;
    forall slot, bit | 0 <= slot < peers && obits <= bit < bits
      ensures BitAt(peers, m', slot, bit)
    {
      CoveredBit(peers, wpp, obits, bits, slot, bit);
    }
  }

  /** Growing with the new bits to be left clear: the cached weights stay exact if and only if
   *  no stale bit is left where the fill does not reach.  Under the guard that is so, and
   *  the new bits are clear, whatever the last page held.
   */
  lemma GrowthClear(peers: nat, wpp: nat, obits: nat, bits: nat, m: seq<bool>, m': seq<bool>, weights: seq<int>)
    requires 0 < peers <= wpp && obits < bits && |m| == PagesFor(peers, wpp, obits) * wpp * 32
    requires Grown(peers, wpp, obits, bits, false, m, m') && Exact(peers, weights, m, obits)
    ensures Exact(peers, weights, m', bits) <==>
            forall slot, bit | 0 <= slot < peers && obits <= bit < bits ::
              BitAt(peers, m, slot, bit) ==> InTail(peers, wpp, obits, slot, bit)
    ensures TailOnLastPage(peers, wpp, obits, bits) ==>
            && Exact(peers, weights, m', bits)
            && forall slot, bit | 0 <= slot < peers && obits <= bit < bits :: !BitAt(peers, m', slot, bit)
  {
    hide Ones, Covered, InTail, PagesFor, BitAt, TailOnLastPage, SlotBits;
    forall slot | 0 <= slot < peers
      ensures weights[slot] == Ones(SlotBits(peers, m', slot, 0, bits)) <==>
              forall bit | obits <= bit < bits :: !BitAt(peers, m', slot, bit)
    {
      SlotAfterGrowth(peers, wpp, obits, bits, false, m, m', slot);
      AllClear(peers, m', slot, obits, bits);
    }
    if Exact(peers, weights, m', bits) {
      forall slot, bit | 0 <= slot < peers && obits <= bit < bits
        ensures BitAt(peers, m, slot, bit) ==> InTail(peers, wpp, obits, slot, bit)
      {
        assert weights[slot] == Ones(SlotBits(peers, m', slot, 0, bits));
        assert !BitAt(peers, m', slot, bit);
      }
    }
    if forall slot, bit | 0 <= slot < peers && obits <= bit < bits ::
         BitAt(peers, m, slot, bit) ==> InTail(peers, wpp, obits, slot, bit) {
      forall slot | 0 <= slot < peers ensures weights[slot] == Ones(SlotBits(peers, m', slot, 0, bits)) {
        forall bit | obits <= bit < bits ensures !BitAt(peers, m', slot, bit) {
          assert BitAt(peers, m, slot, bit) ==> InTail(peers, wpp, obits, slot, bit);
        }
      }
    }
    if TailOnLastPage(peers, wpp, obits, bits) {
      forall slot, bit | 0 <= slot < peers && obits <= bit < bits ensures !BitAt(peers, m', slot, bit) {
        ClearedBit(peers, wpp, obits, bits, m, m', slot, bit);
      }
    }
  }

  lemma AllClear(peers: nat, m: seq<bool>, slot: nat, lo: nat, hi: nat)
    requires lo <= hi
    ensures Ones(SlotBits(peers, m, slot, lo, hi)) == 0 <==> forall bit | lo <= bit < hi :: !BitAt(peers, m, slot, bit)
  {
    hide BitAt, Ones;
    var s := SlotBits(peers, m, slot, lo, hi);
    forall bit | lo <= bit < hi ensures s[bit - lo] == BitAt(peers, m, slot, bit) {
      assert s[bit - lo] == BitAt(peers, m, slot, lo + (bit - lo));
    }
    SomeOne(s);
    if true in s {
      var i :| 0 <= i < |s| && s[i];
      assert s[lo + i - lo] == s[i];
    }
  }

  lemma ClearedBit(peers: nat, wpp: nat, obits: nat, bits: nat, m: seq<bool>, m': seq<bool>, slot: nat, bit: nat)
    requires slot < peers <= wpp && obits <= bit < bits && TailOnLastPage(peers, wpp, obits, bits)
    requires |m| == PagesFor(peers, wpp, obits) * wpp * 32
    requires Grown(peers, wpp, obits, bits, false, m, m')
    ensures !BitAt(peers, m', slot, bit)
  {
    hide Covered, PagesFor, LastBitOnPage, PageOf;
    var have := PagesFor(peers, wpp, obits);
    if PageOf(peers, wpp, slot, bit) >= have {
      PageOfPosition(peers, wpp, slot, bit);
      BelowPage(Position(peers, slot, bit), have, wpp * 32);
      assert have * (wpp * 32) == have * wpp * 32;
    } else {
      if obits == 0 { PagesForNothing(peers, wpp); assert false; }
      PageMonotone(peers, wpp, slot, obits, bit);
      LastBitOnPageIsLast(peers, wpp, slot, obits, bit);
    }
  }
}
