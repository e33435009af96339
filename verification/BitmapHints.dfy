/** The bitmap pages an activity log transaction has to write out first.
 *
 * A transaction names up to 64 extents that leave the log.  Their bitmap pages are
 * collected in an array of 128 entries, each page once.
 */
module BitmapHints {
  import opened Arithmetic
  import opened BitmapLayout

  const AL_UPDATES_PER_TRANSACTION: nat := 64
  const AL_EXTENT_SHIFT: nat := 22
  const PEERS_MAX: nat := 32

  /** Bits of one slot per extent: one extent is 4 MiB, and a bit stands for at least
   *  4 KiB, so this is a power of two up to 1024.
   */
  predicate ExtentBits(e: nat) {
    0 < e <= 1024 && (32 % e == 0 || e % 32 == 0)
  }

  lemma ShiftsGiveExtentBits(shift: nat)
    requires 12 <= shift <= AL_EXTENT_SHIFT
    ensures ExtentBits(Pow2(AL_EXTENT_SHIFT - shift))
  {
    var k := AL_EXTENT_SHIFT - shift;
    assert k in {0, 1, 2, 3, 4, 5, 6, 7, 8, 9, 10};
    assert Pow2(10) == 2 * (2 * (2 * Pow2(7))) && Pow2(7) == 2 * (2 * (2 * Pow2(4)))
           && Pow2(4) == 2 * (2 * (2 * Pow2(1))) && Pow2(1) == 2;
    assert Pow2(9) == 2 * Pow2(8) && Pow2(8) == 2 * Pow2(7) && Pow2(6) == 2 * Pow2(5) && Pow2(5) == 2 * Pow2(4)
           && Pow2(3) == 2 * Pow2(2) && Pow2(2) == 2 * Pow2(1);
  }

  // The pages the marking loop visits for the bits [start, end0].
  function FirstPageNr(peers: nat, wpp: nat, start: nat): nat
    requires wpp > 0
  {
    PageOf(peers, wpp, 0, start)
  }

  function LastPageNr(peers: nat, wpp: nat, bits: nat, end0: nat): nat
    requires wpp > 0 && peers > 0 && bits > 0
  {
    PageOf(peers, wpp, peers - 1, if end0 >= bits then bits - 1 else end0)
  }

  /** Between them lie the words of every slot for every bit of the range. */
  lemma RangeCovered(peers: nat, wpp: nat, bits: nat, start: nat, end0: nat, slot: nat, bit: nat)
    requires slot < peers && wpp > 0 && start <= bit <= end0 && bit < bits
    ensures FirstPageNr(peers, wpp, start) <= PageOf(peers, wpp, slot, bit) <= LastPageNr(peers, wpp, bits, end0)
  {
    var end := if end0 >= bits then bits - 1 else end0;
    MulMonotone(start / 32, bit / 32, peers);
    MulMonotone(bit / 32, end / 32, peers);
    WordOrder(InterleavedWord(peers, 0, start), InterleavedWord(peers, slot, bit), wpp);
    WordOrder(InterleavedWord(peers, slot, bit), InterleavedWord(peers, peers - 1, end), wpp);
  }

  lemma WordOrder(a: nat, b: nat, wpp: nat)
    requires wpp > 0 && a <= b
    ensures a / wpp <= b / wpp
  {
    DivModParts(a, wpp);
    DivMonotone(a / wpp, b, wpp);
  }

  /** An extent's words lie on at most two pages. */
  lemma ExtentOnTwoPages(peers: nat, wpp: nat, bits: nat, e: nat, enr: nat)
    requires 0 < peers <= PEERS_MAX && wpp >= 1024 && bits > 0 && ExtentBits(e)
    ensures LastPageNr(peers, wpp, bits, (enr + 1) * e - 1) <= FirstPageNr(peers, wpp, enr * e) + 1
  {
    var start, end0 := enr * e, (enr + 1) * e - 1;
    assert (enr + 1) * e == enr * e + e;
    var end := if end0 >= bits then bits - 1 else end0;
    ExtentRows(e, enr);
    var first, last := InterleavedWord(peers, 0, start), InterleavedWord(peers, peers - 1, end);
    MulMonotone(end / 32, end0 / 32, peers);
    MulMonotone(end0 / 32, start / 32 + 31, peers);
    assert (start / 32 + 31) * peers == start / 32 * peers + 31 * peers;
    assert last < first + 1024;
    WithinTwo(first, last, wpp);
  }

  lemma WithinTwo(a: nat, b: nat, wpp: nat)
    requires wpp > 0 && b < a + wpp
    ensures b / wpp <= a / wpp + 1
  {
    DivModParts(a, wpp);
    assert (a / wpp + 2) * wpp == a / wpp * wpp + 2 * wpp;
    BelowPage(b, a / wpp + 2, wpp);
  }

  // Rows of an extent: at most 32 when its bits are whole rows, else one.
  lemma ExtentRows(e: nat, enr: nat)
    requires ExtentBits(e)
    ensures ((enr + 1) * e - 1) / 32 <= enr * e / 32 + 31
  {
    assert (enr + 1) * e == enr * e + e;
    if e % 32 == 0 {
      var rows := e / 32;
      assert e == rows * 32;
      assert enr * e == enr * rows * 32;
    } else {
      assert e <= 32;
    }
  }

  class Hints {
    const peers: nat
    const wpp: nat
    const bits: nat
    var al: array<nat>
    var n: nat
    // the pages whose BM_PAGE_HINT_WRITEOUT flag is up
    var flagged: set<nat>

    ghost predicate Valid()
      reads this, al
    {
      && 0 < peers <= PEERS_MAX && wpp >= 1024 && bits > 0
      && al.Length == 2 * AL_UPDATES_PER_TRANSACTION && n <= al.Length
      && (forall i | 0 <= i < n :: al[i] in flagged)
      && (forall p | p in flagged :: p in al[..n])
      && (forall i, j | 0 <= i < j < n :: al[i] != al[j])
    }

    // The entry count test comes first, also for pages that are flagged already.
    method Push(page: nat)
      requires Valid() && n < al.Length
      modifies this, al
      ensures Valid() && al == old(al) && flagged == old(flagged) + {page} && old(n) <= n <= old(n) + 1
      ensures al[..old(n)] == old(al[..n])
    {
      if page !in flagged {
        flagged := flagged + {page};
        al[n] := page;
        n := n + 1;
        assert al[..n] == old(al[..n]) + [page];
      }
    }

    method MarkRange(start: nat, end0: nat)
      requires Valid()
      requires n + (LastPageNr(peers, wpp, bits, end0) - FirstPageNr(peers, wpp, start) + 1) <= al.Length
      modifies this, al
      ensures Valid() && al == old(al)
      ensures forall p :: p in flagged <==>
        p in old(flagged) || FirstPageNr(peers, wpp, start) <= p <= LastPageNr(peers, wpp, bits, end0)
      ensures old(n) <= n
      ensures n <= old(n) + if LastPageNr(peers, wpp, bits, end0) >= FirstPageNr(peers, wpp, start)
                            then LastPageNr(peers, wpp, bits, end0) - FirstPageNr(peers, wpp, start) + 1 else 0
    {
      hide PageOf;
      var page, last := FirstPageNr(peers, wpp, start), LastPageNr(peers, wpp, bits, end0);
      ghost var first := page;
      while page <= last
        invariant first <= page && (page <= last + 1 || page == first)
        invariant Valid() && al == old(al)
        invariant forall p :: p in flagged <==> p in old(flagged) || first <= p < page
        invariant old(n) <= n <= old(n) + (page - first)
      {
        Push(page);
        page := page + 1;
      }
    }

    /** The hints of one transaction: never more than the array holds, and every page that
     *  has a word of any slot for any bit of an evicted extent is among them.
     */
    method MarkTransaction(e: nat, evicted: seq<nat>)
      requires Valid() && flagged == {} && n == 0
      requires ExtentBits(e) && |evicted| <= AL_UPDATES_PER_TRANSACTION
      modifies this, al
      ensures Valid() && al == old(al)
      ensures forall k, slot, bit | 0 <= k < |evicted| && 0 <= slot < peers && 0 <= bit < bits && bit / e == evicted[k] ::
                PageOf(peers, wpp, slot, bit) in al[..n]
    {
      hide PageOf, FirstPageNr, LastPageNr;
      var k := 0;
      while k < |evicted|
        invariant 0 <= k <= |evicted| && n <= 2 * k
        invariant Valid() && al == old(al)
        invariant forall j, slot, bit | 0 <= j < k && 0 <= slot < peers && 0 <= bit < bits && bit / e == evicted[j] ::
                    PageOf(peers, wpp, slot, bit) in flagged
      {
        var enr := evicted[k];
        ExtentStart(enr, e);
        ExtentOnTwoPages(peers, wpp, bits, e, enr);
        MarkRange(enr * e, (enr + 1) * e - 1);
        forall slot, bit | 0 <= slot < peers && 0 <= bit < bits && bit / e == enr
          ensures PageOf(peers, wpp, slot, bit) in flagged
        {
          ExtentOfBit(bit, e);
          RangeCovered(peers, wpp, bits, enr * e, (enr + 1) * e - 1, slot, bit);
        }
        k := k + 1;
      }
    }
  }

  lemma ExtentStart(enr: nat, e: nat)
    requires ExtentBits(e)
    ensures (enr + 1) * e - 1 >= 0 && e > 0
  {
    assert (enr + 1) * e == enr * e + e;
  }

  lemma ExtentOfBit(bit: nat, e: nat)
    requires e > 0
    ensures bit / e * e <= bit <= (bit / e + 1) * e - 1
  {
    DivModParts(bit, e);
    assert (bit / e + 1) * e == bit / e * e + e;
  }
}
