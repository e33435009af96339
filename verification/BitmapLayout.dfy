/** Where the bits of the peers live.
 *
 * All peers share one bitmap.  Its 32-bit words are dealt out round robin: word
 * `w` belongs to slot `w % peers`.  Words are grouped into pages.  Everything
 * here is address arithmetic, in terms of the number of slots (`peers`) and the
 * number of 32-bit words in a page (`wpp`).
 */
module BitmapLayout {
  import opened Arithmetic

  function InterleavedWord(peers: nat, slot: nat, bit: nat): nat {
    bit / 32 * peers + slot
  }

  function WordToPage(wpp: nat, word: nat): nat
    requires wpp > 0
  {
    word / wpp
  }

  // The source masks an unsigned long, also a negated one; the words of a page
  // being a power of two, that is the Euclidean remainder.
  function WordInPage(wpp: nat, word: int): nat
    requires wpp > 0
  {
    word % wpp
  }

  function LastBitOnPage(peers: nat, wpp: nat, slot: nat, bit: nat): nat
    requires peers > 0 && wpp > 0
  {
    var word: int := InterleavedWord(peers, slot, bit);
    bit / 32 * 32 + 31 + WordInPage(wpp, -(word + 1)) / peers * 32
  }

  function PageOf(peers: nat, wpp: nat, slot: nat, bit: nat): nat
    requires wpp > 0
  {
    WordToPage(wpp, InterleavedWord(peers, slot, bit))
  }

  // Bit address of a slot's bit when the pages are laid out one after the other.
  function Position(peers: nat, slot: nat, bit: nat): nat {
    InterleavedWord(peers, slot, bit) * 32 + bit % 32
  }

  // The first bit after the word of a bit, as (bit | 31) + 1 gives it.
  function AfterWord(bit: nat): nat {
    bit / 32 * 32 + 32
  }

  // Does the bit at address `at` belong to `slot`, with bit number in [lo, hi)?
  predicate Mine(peers: nat, slot: nat, lo: nat, hi: nat, at: nat)
    requires peers > 0
  {
    at / 32 % peers == slot && lo <= at / 32 / peers * 32 + at % 32 < hi
  }

  lemma PositionOwner(peers: nat, slot: nat, bit: nat)
    requires slot < peers
    ensures var at := Position(peers, slot, bit);
            at / 32 % peers == slot && at / 32 / peers * 32 + at % 32 == bit
  {
    DivModUnique(bit / 32, slot, peers);
  }

  /** No two bits of no two slots share an address. */
  lemma PositionInjective(peers: nat, slot: nat, bit: nat, slot': nat, bit': nat)
    requires slot < peers && slot' < peers
    requires Position(peers, slot, bit) == Position(peers, slot', bit')
    ensures slot == slot' && bit == bit'
  {
    PositionOwner(peers, slot, bit);
    PositionOwner(peers, slot', bit');
  }

  /** Every address is some slot's bit. */
  lemma OwnerPosition(peers: nat, at: nat)
    requires peers > 0
    ensures at / 32 % peers < peers
    ensures Position(peers, at / 32 % peers, at / 32 / peers * 32 + at % 32) == at
  {
    var bit := at / 32 / peers * 32 + at % 32;
    assert bit / 32 == at / 32 / peers;
  }

  lemma SameRow(peers: nat, slot: nat, a: nat, b: nat)
    requires a / 32 == b / 32
    ensures Position(peers, slot, b) - Position(peers, slot, a) == b - a
  {
  }

  lemma Between(lo: nat, bit: nat, hi: nat)
    requires lo <= bit <= hi && lo / 32 == hi / 32
    ensures bit / 32 == lo / 32
  {
  }

  /** Bits of one slot inside one word are consecutive addresses. */
  lemma MineInWord(peers: nat, slot: nat, lo: nat, hi: nat, at: nat)
    requires slot < peers && lo <= hi && (lo < hi ==> lo / 32 == (hi - 1) / 32)
    ensures Mine(peers, slot, lo, hi, at) <==>
            Position(peers, slot, lo) <= at < Position(peers, slot, lo) + (hi - lo)
  {
    hide Position;
    var base := Position(peers, slot, lo);
    OwnerPosition(peers, at);
    if Mine(peers, slot, lo, hi, at) {
      var bit := at / 32 / peers * 32 + at % 32;
      Between(lo, bit, hi - 1);
      SameRow(peers, slot, lo, bit);
    }
    if base <= at < base + (hi - lo) {
      var bit := lo + (at - base);
      Between(lo, bit, hi - 1);
      SameRow(peers, slot, lo, bit);
      PositionOwner(peers, slot, bit);
    }
  }

  /** One slot's next word is `peers` words further on. */
  lemma NextRow(peers: nat, slot: nat, bit: nat)
    ensures Position(peers, slot, bit + 32) == Position(peers, slot, bit) + 32 * peers
  {
    assert (bit + 32) / 32 == bit / 32 + 1;
    assert (bit / 32 + 1) * peers == bit / 32 * peers + peers;
  }

  lemma PositionMonotone(peers: nat, slot: nat, a: nat, b: nat)
    requires peers > 0 && a < b
    ensures Position(peers, slot, a) < Position(peers, slot, b)
  {
    if a / 32 < b / 32 {
      assert (a / 32 + 1) * peers <= b / 32 * peers;
      assert (a / 32 + 1) * peers == a / 32 * peers + peers;
    }
  }

  /** The last bit on the page is what it is called: from `bit` upwards, exactly
   *  the bits up to it are on the page of `bit`, and the next one starts the
   *  following page.  A slot needs a word on every page for the latter.
   */
  lemma LastBitOnPageIsLast(peers: nat, wpp: nat, slot: nat, bit: nat, other: nat)
    requires slot < peers <= wpp && bit <= other
    ensures bit <= LastBitOnPage(peers, wpp, slot, bit)
    ensures PageOf(peers, wpp, slot, other) == PageOf(peers, wpp, slot, bit) <==>
            other <= LastBitOnPage(peers, wpp, slot, bit)
    ensures PageOf(peers, wpp, slot, LastBitOnPage(peers, wpp, slot, bit) + 1) ==
            PageOf(peers, wpp, slot, bit) + 1
  {
    var word: int := InterleavedWord(peers, slot, bit);
    var room := WordInPage(wpp, -(word + 1));
    RoomOnPage(wpp, word);
    var rows := room / peers;
    DivModParts(room, peers);
    RowOnPage(peers, wpp, slot, bit, rows, rows + 1);
    var ahead := other / 32 - bit / 32;
    RowOnPage(peers, wpp, slot, bit, rows, ahead);
    LastRow(bit, rows, other);
    assert PageOf(peers, wpp, slot, other) == PageOf(peers, wpp, slot, (bit / 32 + ahead) * 32);
  }

  lemma LastRow(bit: nat, rows: nat, other: nat)
    requires bit <= other
    ensures var last := bit / 32 * 32 + 31 + rows * 32;
            && bit <= last && last + 1 == (bit / 32 + (rows + 1)) * 32
            && (other <= last <==> other / 32 - bit / 32 <= rows)
  {
  }

  // Which of the following words of a slot are still on the page: with `rows`
  // more words fitting, exactly the next `rows` of them.
  lemma RowOnPage(peers: nat, wpp: nat, slot: nat, bit: nat, rows: nat, ahead: nat)
    requires slot < peers <= wpp
    requires var word := InterleavedWord(peers, slot, bit);
             rows * peers <= (word / wpp + 1) * wpp - 1 - word < rows * peers + peers
    ensures var page := PageOf(peers, wpp, slot, bit);
            var there := PageOf(peers, wpp, slot, (bit / 32 + ahead) * 32);
            (there == page <==> ahead <= rows) && (ahead == rows + 1 ==> there == page + 1)
  {
    var word := InterleavedWord(peers, slot, bit);
    RowsAhead(peers, slot, bit, ahead);
    if ahead <= rows {
      MulMonotone(ahead, rows, peers);
    } else {
      MulMonotone(rows + 1, ahead, peers);
    }
    FarWord(wpp, peers, word, rows * peers, ahead * peers, ahead <= rows, ahead == rows + 1);
  }

  lemma FarWord(wpp: nat, peers: nat, word: nat, fits: nat, step: nat, near: bool, next: bool)
    requires 0 < peers <= wpp
    requires fits <= (word / wpp + 1) * wpp - 1 - word < fits + peers
    requires if near then step <= fits else step >= fits + peers
    requires next ==> step == fits + peers
    ensures (word + step) / wpp == word / wpp <==> near
    ensures next ==> (word + step) / wpp == word / wpp + 1
  {
    var page := word / wpp;
    var base := page * wpp;
    assert base <= word < base + wpp by { DivModParts(word, wpp); }
    assert (page + 1) * wpp == base + wpp;
    assert (page + 2) * wpp == base + 2 * wpp;
    if near {
      PageBounds(wpp, word + step, page);
    } else {
      DivMonotone(page + 1, word + step, wpp);
      if next {
        PageBounds(wpp, word + step, page + 1);
      }
    }
  }

  lemma RoomOnPage(wpp: nat, word: nat)
    requires wpp > 0
    ensures WordInPage(wpp, -(word + 1)) == (word / wpp + 1) * wpp - 1 - word
  {
    var room := (word / wpp + 1) * wpp - 1 - word;
    assert (word / wpp + 1) * wpp == word / wpp * wpp + wpp;
    assert 0 <= room < wpp;
    ModOfShifted(-(word + 1), -(word / wpp + 1), wpp, room);
  }

  lemma RowsAhead(peers: nat, slot: nat, bit: nat, rows: nat)
    ensures InterleavedWord(peers, slot, (bit / 32 + rows) * 32) ==
            InterleavedWord(peers, slot, bit) + rows * peers
  {
    assert (bit / 32 + rows) * peers == bit / 32 * peers + rows * peers;
  }

  lemma PageBounds(wpp: nat, word: nat, page: nat)
    requires wpp > 0 && page * wpp <= word < page * wpp + wpp
    ensures word / wpp == page
  {
    DivModUnique(page, word - page * wpp, wpp);
  }

  lemma NextPage(page: nat, wpp: nat)
    ensures (page + 1) * (wpp * 32) == page * (wpp * 32) + wpp * 32
    ensures page * (wpp * 32) % 32 == 0
  {
    assert page * (wpp * 32) == page * wpp * 32;
    assert (page + 1) * wpp == page * wpp + wpp;
  }

  lemma BelowPage(word: nat, pages: nat, wpp: nat)
    requires wpp > 0
    ensures word < pages * wpp <==> word / wpp < pages
  {
    DivModParts(word, wpp);
    if word / wpp < pages {
      MulMonotone(word / wpp + 1, pages, wpp);
      assert (word / wpp + 1) * wpp == word / wpp * wpp + wpp;
    } else {
      MulMonotone(pages, word / wpp, wpp);
    }
  }
}
