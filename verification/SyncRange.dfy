/** Recording the outcome of a write: which bits are set and which are cleared.
 *
 * A bit stands for a block of sectors.  It has to be set if any sector of the block was
 * written, and may be cleared only if all were, as far as the device has them.
 */
module SyncRange {
  import opened Arithmetic

  // The sectors [first, last] of a device with `capacity` sectors.
  datatype Range = Range(first: nat, last: nat, capacity: nat)

  // What is left of [sector, sector + count) on the device.
  function OnDevice(sector: nat, count: nat, capacity: nat): Range
    requires 0 < count && sector < capacity
  {
    Range(sector, if sector + count - 1 < capacity then sector + count - 1 else capacity - 1, capacity)
  }

  predicate ToSet(r: Range, perBit: nat, b: int)
    requires perBit > 0
  {
    r.first / perBit <= b <= r.last / perBit
  }

  predicate ToClear(r: Range, perBit: nat, b: int)
    requires perBit > 0
  {
    (r.first + perBit - 1) / perBit <= b
    <= if r.last == r.capacity - 1 then r.last / perBit else (r.last + 1) / perBit - 1
  }

  // Sector `s` belongs to bit `b`.
  predicate Belongs(s: nat, b: nat, perBit: nat) {
    b * perBit <= s < b * perBit + perBit
  }

  lemma AtLeast(b: nat, n: nat, d: nat)
    requires d > 0
    ensures b <= n / d <==> b * d <= n
  {
    DivModParts(n, d);
    if b <= n / d { MulMonotone(b, n / d, d); }
    if b * d <= n { DivMonotone(b, n, d); }
  }

  /** A bit is set if and only if some sector of its block was written. */
  lemma SetExact(r: Range, perBit: nat, b: nat)
    requires perBit > 0 && r.first <= r.last < r.capacity
    ensures ToSet(r, perBit, b) <==> exists s: nat :: r.first <= s <= r.last && Belongs(s, b, perBit)
  {
    AtLeast(b, r.last, perBit);
    AtLeast(b + 1, r.first, perBit);
    assert (b + 1) * perBit == b * perBit + perBit;
    if ToSet(r, perBit, b) {
      var s := if r.first <= b * perBit then b * perBit else r.first;
      assert r.first <= s <= r.last && Belongs(s, b, perBit);
    }
  }

  /** A bit is cleared if and only if all sectors of its block that the device has were written. */
  lemma ClearExact(r: Range, perBit: nat, b: nat)
    requires perBit > 0 && r.first <= r.last < r.capacity && b * perBit < r.capacity
    ensures ToClear(r, perBit, b) <==> forall s: nat | Belongs(s, b, perBit) && s < r.capacity :: r.first <= s <= r.last
  {
    AtLeast(b + 1, r.last + 1, perBit);
    AtLeast(b, r.last, perBit);
    AtLeast(b + 1, r.first + perBit - 1, perBit);
    assert (b + 1) * perBit == b * perBit + perBit;
    var low, high := b * perBit, if b * perBit + perBit <= r.capacity then b * perBit + perBit - 1 else r.capacity - 1;
    assert Belongs(low, b, perBit) && Belongs(high, b, perBit);
  }

  /** What is cleared would also be set. */
  lemma ClearWithinSet(r: Range, perBit: nat, b: nat)
    requires perBit > 0 && r.first <= r.last < r.capacity && b * perBit < r.capacity && ToClear(r, perBit, b)
    ensures ToSet(r, perBit, b)
  {
    ClearExact(r, perBit, b);
    SetExact(r, perBit, b);
    assert Belongs(b * perBit, b, perBit);
  }

  // ---- all slots ----

  function BitsFrom(lo: nat, hi: int): (s: set<nat>)
    ensures forall b: nat :: b in s <==> lo <= b <= hi
    decreases hi - lo
  {
    if hi < lo then {} else BitsFrom(lo, hi - 1) + {hi}
  }

  function SetBits(r: Range, perBit: nat): (s: set<nat>)
    requires perBit > 0
    ensures forall b: nat :: b in s <==> ToSet(r, perBit, b)
  {
    BitsFrom(r.first / perBit, r.last / perBit)
  }

  function ClearBits(r: Range, perBit: nat): (s: set<nat>)
    requires perBit > 0
    ensures forall b: nat :: b in s <==> ToClear(r, perBit, b)
  {
    BitsFrom((r.first + perBit - 1) / perBit,
             if r.last == r.capacity - 1 then r.last / perBit else (r.last + 1) / perBit - 1)
  }

  function Updated(slot: set<nat>, r: Range, perBit: nat, out: bool): set<nat>
    requires perBit > 0
  {
    if out then slot + SetBits(r, perBit) else slot - ClearBits(r, perBit)
  }

  // The slots of `done` are updated, the others are not; `modified` are those that changed.
  ghost predicate UpdatedIn(slots: seq<set<nat>>, slots': seq<set<nat>>, modified: set<nat>, done: set<nat>,
                            r: Range, perBit: nat, bits: set<nat>)
    requires perBit > 0
  {
    && |slots'| == |slots|
    && (forall k | 0 <= k < |slots| :: slots'[k] == if k in done then Updated(slots[k], r, perBit, k in bits) else slots[k])
    && (forall k | 0 <= k < |slots| :: k in modified <==> slots'[k] != slots[k])
    && (forall k | k in modified :: k < |slots|)
  }

  // ---- the mask of all slots ----

  const WORD := 0x1_0000_0000
  const HALF := 0x8000_0000

  // The int of 32 bits that has these bits.
  function Int32(x: int): int {
    if x % WORD < HALF then x % WORD else x % WORD - WORD
  }

  /** (1 << n) - 1 with ints of 32 bits.  C leaves the shift open for n >= 31; here it is by n
   *  modulo 32, and overflow wraps around.
   */
  function IntMask(n: nat): int {
    Int32(Int32(Pow2(n % 32)) - 1)
  }

  predicate BitOf(x: int, k: nat) {
    x / Pow2(k) % 2 == 1
  }

  function Masked(mask: set<nat>, n: nat): set<nat> {
    set k | k in mask && BitOf(IntMask(n), k)
  }

  lemma Doubled(p: nat, q: nat)
    ensures 2 * (p * q) == (2 * p) * q
  {
  }

  lemma {:induction false} Pow2Sum(a: nat, b: nat)
    ensures Pow2(a + b) == Pow2(a) * Pow2(b)
  {
    if a > 0 {
      var c: nat := a - 1;
      Pow2Sum(c, b);
      Doubled(Pow2(c), Pow2(b));
      hide Pow2;
      assert Pow2(a) == 2 * Pow2(c) by { Pow2Next(c); }
      assert Pow2(a + b) == 2 * Pow2(c + b) by { Pow2Next(c + b); }
    }
  }

  lemma Pow2Most(a: nat, b: nat)
    requires a <= b
    ensures Pow2(a) <= Pow2(b)
  {
    Pow2Sum(b - a, a);
    MulMonotone(1, Pow2(b - a), Pow2(a));
  }

  lemma HalfIsPower()
    ensures Pow2(31) == HALF
  {
    assert Pow2(4) == 16;
    Pow2Sum(4, 4);
    Pow2Sum(8, 8);
    Pow2Sum(16, 16);
    Pow2Next(31);
    hide Pow2;
  }

  lemma IntMaskValue(n: nat)
    ensures IntMask(n) == Pow2(n % 32) - 1
  {
    HalfIsPower();
    Pow2Most(n % 32, 31);
  }

  lemma OddBelow(x: int, q: nat, d: nat)
    requires q > 0 && d > 0 && x == (2 * q) * d - 1
    ensures x / d % 2 == 1
  {
    assert (2 * q - 1) * d == (2 * q) * d - d;
    ModOfShifted(x, 2 * q - 1, d, d - 1);
  }

  lemma NothingAbove(x: nat, d: nat)
    requires x < d
    ensures x / d % 2 == 0
  {
    ModOfShifted(x, 0, d, x);
  }

  lemma BitOfOnes(m: nat, k: nat)
    ensures BitOf(Pow2(m) - 1, k) <==> k < m
  {
    hide Pow2;
    if k < m {
      Pow2Sum(m - k, k);
      Pow2Next(m - k - 1);
      OddBelow(Pow2(m) - 1, Pow2(m - k - 1), Pow2(k));
    } else {
      Pow2Most(m, k);
      NothingAbove(Pow2(m) - 1, Pow2(k));
    }
  }

  lemma MaskedSlots(n: nat, k: nat)
    ensures BitOf(IntMask(n), k) <==> k < n % 32
  {
    IntMaskValue(n);
    BitOfOnes(n % 32, k);
  }

  /** With up to 32 slots the mask has the bits of all slots if and only if there are fewer. */
  lemma MaskReaches(n: nat)
    requires 0 < n <= 32
    ensures (forall k: nat | k < n :: BitOf(IntMask(n), k)) <==> n < 32
  {
    forall k: nat | k < n ensures BitOf(IntMask(n), k) <==> k < n % 32 { MaskedSlots(n, k); }
    if n == 32 {
      MaskedSlots(32, 0);
      assert !BitOf(IntMask(32), 0);
    }
  }

  /** With 32, which is allowed, it has none. */
  lemma MaskOfThirtyTwo()
    ensures IntMask(32) == 0
  {
    IntMaskValue(32);
  }

  /** drbd_set_sync(): each slot in `mask` once, first those of the peer devices there are, as
   *  far as the mask of all slots reaches: for fewer than 32 slots that is all of them, and
   *  for 32 it is none.
   */
  method SetSync(slots: seq<set<nat>>, sector: nat, count: nat, capacity: nat, perBit: nat, bits: set<nat>, mask: set<nat>,
                 peers: seq<nat>) returns (slots': seq<set<nat>>, modified: set<nat>)
    requires perBit > 0
    ensures count == 0 || sector >= capacity ==> slots' == slots && modified == {}
    ensures count > 0 && sector < capacity ==>
      UpdatedIn(slots, slots', modified, Masked(mask, |slots|), OnDevice(sector, count, capacity), perBit, bits)
    ensures count > 0 && sector < capacity && |slots| < 32 ==>
      UpdatedIn(slots, slots', modified, mask, OnDevice(sector, count, capacity), perBit, bits)
    ensures |slots| == 32 ==> slots' == slots && modified == {}
  {
    hide Updated, BitOf, IntMask;
    slots', modified := slots, {};
    if count == 0 || sector >= capacity { return; }
    var r := OnDevice(sector, count, capacity);
    ghost var done: set<nat> := {};
    var left := Masked(mask, |slots|);
    forall k: nat ensures k in left <==> k in mask && k < |slots| % 32 { MaskedSlots(|slots|, k); }
    ghost var all := left;
    for i := 0 to |peers|
      invariant UpdatedIn(slots, slots', modified, done, r, perBit, bits) && left !! done && left + done == all
    {
      var k := peers[i];
      if k in left && k < |slots| {
        slots', modified := UpdateSlot(slots', modified, k, r, perBit, k in bits);
        left, done := left - {k}, done + {k};
      }
    }
    for k := 0 to |slots|
      invariant UpdatedIn(slots, slots', modified, done, r, perBit, bits) && left !! done && left + done == all
      invariant forall n | 0 <= n < k :: n !in left
    {
      if k in left {
        slots', modified := UpdateSlot(slots', modified, k, r, perBit, k in bits);
        left, done := left - {k}, done + {k};
      }
    }
  }

  method UpdateSlot(slots: seq<set<nat>>, modified: set<nat>, k: nat, r: Range, perBit: nat, out: bool)
    returns (slots': seq<set<nat>>, modified': set<nat>)
    requires k < |slots| && perBit > 0
    ensures slots' == slots[k := Updated(slots[k], r, perBit, out)]
    ensures modified' == modified + if slots'[k] != slots[k] then {k} else {}
  {
    slots', modified' := slots, modified;
    if out {
      slots' := slots[k := slots[k] + SetBits(r, perBit)];
    } else {
      slots' := slots[k := slots[k] - ClearBits(r, perBit)];
    }
    if slots'[k] != slots[k] { modified' := modified + {k}; }
  }
}
