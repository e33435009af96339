/** Making resync requests: one pass over the out-of-sync bits of a peer.
 *
 * Rate control, throttling and the outcome of single requests are parameters.
 */
module Resync {
  import opened Arithmetic

  // ---- sizes ----

  // 1 << __ffs(n)
  function LowBit(n: nat): (l: nat)
    requires n > 0
    ensures 0 < l <= n
  {
    if n % 2 == 1 then 1 else 2 * LowBit(n / 2)
  }

  /** optimal_bits_for_alignment(), for a largest request of `max` bits. */
  function OptimalBits(bit: nat, max: nat): (n: nat)
    requires max > 0
    ensures 0 < n <= max
  {
    if bit % max == 0 then max else LowBit(bit % max)
  }

  // 1 << (fls(value) - 1)
  function HighBit(value: nat): (h: nat)
    requires value > 0
    ensures h <= value < 2 * h
  {
    if value == 1 then 1 else 2 * HighBit(value / 2)
  }

  function RoundToPowerOf2(value: nat): (r: nat)
    ensures value > 0 ==> r > 0
  {
    if value == 0 then 0
    else
      var smaller := HighBit(value);
      var bigger := 2 * smaller;
      if value - smaller < bigger - value then smaller else bigger
  }

  function Distance(a: nat, b: nat): nat {
    if a < b then b - a else a - b
  }

  lemma {:induction false} HighBitPower(value: nat) returns (k: nat)
    requires value > 0
    ensures HighBit(value) == Pow2(k)
  {
    if value == 1 {
      k := 0;
    } else {
      k := HighBitPower(value / 2);
      k := k + 1;
    }
  }

  lemma {:induction false} PowersApart(j: nat, k: nat)
    requires j < k
    ensures 2 * Pow2(j) <= Pow2(k)
  {
    if k > j + 1 { PowersApart(j, k - 1); }
  }

  /** Rounding yields a power of two, and none is nearer. */
  lemma NearestPower(value: nat, j: nat) returns (k: nat)
    requires value > 0
    ensures RoundToPowerOf2(value) == Pow2(k)
    ensures Distance(value, RoundToPowerOf2(value)) <= Distance(value, Pow2(j))
  {
    k := HighBitPower(value);
    if j < k { PowersApart(j, k); }
    if j > k + 1 { PowersApart(k + 1, j); }
    if RoundToPowerOf2(value) != Pow2(k) { k := k + 1; }
  }

  // ---- alignment ----

  lemma {:induction false} LowBitPower(n: nat) returns (j: nat, q: nat)
    requires n > 0
    ensures LowBit(n) == Pow2(j) && n == q * Pow2(j) && q % 2 == 1
  {
    if n % 2 == 1 {
      j, q := 0, n;
    } else {
      j, q := LowBitPower(n / 2);
      assert n == q * (2 * Pow2(j));
      j := j + 1;
    }
  }

  lemma {:induction false} PowerDivides(j: nat, m: nat) returns (c: nat)
    requires j <= m
    ensures Pow2(m) == c * Pow2(j)
  {
    if j == m {
      c := 1;
    } else {
      c := PowerDivides(j, m - 1);
      assert 2 * (c * Pow2(j)) == (2 * c) * Pow2(j);
      c := 2 * c;
    }
  }

  lemma SmallerPower(j: nat, m: nat)
    requires Pow2(j) < Pow2(m)
    ensures j < m
  {
    if j > m { PowersApart(m, j); }
  }

  lemma Combined(a: nat, c: nat, p: nat, u: nat)
    ensures a * (c * u) + p * u == (a * c + p) * u
  {
    assert a * (c * u) == (a * c) * u;
  }

  lemma Cancel(a: nat, b: nat, u: nat)
    requires u > 0 && a * u == b * u
    ensures a == b
  {
    DivModUnique(a, 0, u);
    DivModUnique(b, 0, u);
  }

  lemma EvenTimes(a: nat, c: nat)
    ensures (a * (2 * c)) % 2 == 0
  {
    assert a * (2 * c) == 2 * (a * c);
  }

  lemma BelowPower(j: nat, m: nat) returns (c: nat)
    requires j < m
    ensures Pow2(m) == (2 * c) * Pow2(j)
  {
    c := PowerDivides(j + 1, m);
    assert c * (2 * Pow2(j)) == (2 * c) * Pow2(j);
  }

  lemma OddMultiple(bit: nat, a: nat, max: nat, r: nat, c: nat, p: nat, u: nat)
    requires bit == a * max + r && max == (2 * c) * u && r == p * u && p % 2 == 1
    ensures bit == (a * (2 * c) + p) * u && (a * (2 * c) + p) % 2 == 1
  {
    Combined(a, 2 * c, p, u);
    EvenTimes(a, c);
  }

  // A bit that is no multiple of the largest request: what it is a multiple of.
  lemma OptimalParts(bit: nat, m: nat) returns (j: nat, q: nat)
    requires bit % Pow2(m) != 0
    ensures OptimalBits(bit, Pow2(m)) == Pow2(j) && bit == q * Pow2(j) && q % 2 == 1
  {
    hide Pow2, LowBit;
    var max: nat := Pow2(m);
    var a: nat, r: nat := bit / max, bit % max;
    DivModParts(bit, max);
    var p: nat;
    j, p := LowBitPower(r);
    SmallerPower(j, m);
    var c := BelowPower(j, m);
    OddMultiple(bit, a, max, r, c, p, Pow2(j));
    q := a * (2 * c) + p;
  }

  /** A request of the optimal size is aligned to its size. */
  lemma OptimalAligned(bit: nat, m: nat)
    ensures bit % OptimalBits(bit, Pow2(m)) == 0
  {
    if bit % Pow2(m) != 0 {
      var j, q := OptimalParts(bit, m);
      DivModUnique(q, 0, Pow2(j));
    }
  }

  lemma OddAligned(bit: nat, m: nat, s: nat)
    requires bit % Pow2(m) != 0
    ensures bit % (OptimalBits(bit, Pow2(m)) * Pow2(s)) == 0 <==> s == 0
  {
    hide Pow2, OptimalBits;
    var j, q := OptimalParts(bit, m);
    var unit := Pow2(j);
    if s == 0 {
      DivModUnique(q, 0, unit);
      assert Pow2(0) == 1 by { One(); }
    } else {
      Pow2Next(s - 1);
      if bit % (unit * Pow2(s)) == 0 { Halved(bit, unit, Pow2(s - 1), q); }
    }
  }

  /** If a bit of the peer stands for 2^s bits, the size of a request is counted in units of the
   *  peer, and where it starts is not.  So for any start, a request of the optimal size is
   *  aligned to its size if and only if the start is a multiple of the largest request in
   *  units of the peer, or is no multiple of the largest request in bits and the units are
   *  the same.
   */
  lemma AlignedInPeerUnits(bit: nat, m: nat, s: nat)
    ensures bit % (OptimalBits(bit, Pow2(m)) * Pow2(s)) == 0 <==>
            if bit % Pow2(m) == 0 then bit % (Pow2(m) * Pow2(s)) == 0 else s == 0
  {
    if bit % Pow2(m) != 0 { OddAligned(bit, m, s); }
  }

  /** Two starts that the loop can reach at which it is not: both are multiples of the peer's
   *  unit, one is no multiple of the largest request and one is.
   */
  lemma NotAligned()
    ensures 4 % Pow2(2) == 0 && 4 % Pow2(6) != 0 && 4 % (OptimalBits(4, Pow2(6)) * Pow2(2)) != 0
    ensures 16 % Pow2(4) == 0 && 16 % (OptimalBits(16, Pow2(4)) * Pow2(4)) != 0
  {
    assert Pow2(2) == 4 && Pow2(4) == 16 by { Pow2Next(0); Pow2Next(1); Pow2Next(2); Pow2Next(3); One(); }
    assert Pow2(6) == 64 by { Pow2Next(4); Pow2Next(5); }
    AlignedInPeerUnits(4, 6, 2);
    AlignedInPeerUnits(16, 4, 4);
  }

  lemma One()
    ensures Pow2(0) == 1
  {
  }

  // A multiple of twice the unit is an even multiple.
  lemma Halved(bit: nat, unit: nat, half: nat, q: nat)
    requires unit > 0 && half > 0 && bit == q * unit && unit * (2 * half) > 0 && bit % (unit * (2 * half)) == 0
    ensures q % 2 == 0
  {
    var k := bit / (unit * (2 * half));
    DivModParts(bit, unit * (2 * half));
    assert k * (unit * (2 * half)) == (k * (2 * half)) * unit;
    Cancel(q, k * (2 * half), unit);
    EvenTimes(k, half);
  }

  // ---- one pass ----

  /** `perPeerBit` bits make up one bit of the peer's granularity; a request is at most
   *  `maxBlocks` of those; `granularity` is that of discards, in bytes, or zero.
   */
  datatype Setup = Setup(perPeerBit: nat, sectPerBit: nat, capacity: nat, maxBlocks: nat, granularity: nat)

  ghost predicate Sane(g: Setup, bits: nat) {
    && g.perPeerBit > 0 && g.sectPerBit > 0 && g.maxBlocks > 0
    && (bits > 0 ==> (bits - 1) * g.sectPerBit < g.capacity)
  }

  function BlockBytes(g: Setup): nat {
    g.sectPerBit * 512
  }

  // Bits [bit, bit + len); at the end of the device fewer sectors than that.
  datatype Request = Request(bit: nat, len: nat, sectors: nat)

  datatype Outcome = Done | Again | DiskError

  // Why a pass ends.
  datatype Stop =
    | UsedUp                    // as many bits requested as the rate allows
    | Unsuccessful              // an earlier request was
    | NoRoomForDiscard          // less is left than the granularity of discards
    | EndOfBitmap
    | Throttled
    | WouldShrink               // an adjacent request would be smaller than the last one
    | TryAgain                  // -EAGAIN
    | Failed(request: Request)  // -EIO

  predicate AnySet(bm: seq<bool>, lo: nat, hi: nat) {
    exists b :: lo <= b < hi && b < |bm| && bm[b]
  }

  predicate In(r: Request, b: nat) {
    r.bit <= b < r.bit + r.len
  }

  // Each block of the request has something to be synced.
  predicate Dense(bm: seq<bool>, start: nat, len: nat, block: nat)
    requires block > 0
    decreases len
  {
    len == 0 || (len >= block && Dense(bm, start, len - block, block) && AnySet(bm, start + len - block, start + len))
  }

  ghost predicate Ascending(issued: seq<Request>, lo: nat, hi: nat) {
    && (forall k | 0 <= k < |issued| :: lo <= issued[k].bit && issued[k].bit + issued[k].len <= hi)
    && (forall j, k | 0 <= j < k < |issued| :: issued[j].bit + issued[j].len <= issued[k].bit)
  }

  ghost predicate Covered(bm: seq<bool>, issued: seq<Request>, lo: nat, hi: nat) {
    forall b | lo <= b < hi && b < |bm| && bm[b] :: exists k :: 0 <= k < |issued| && In(issued[k], b)
  }

  predicate Proper(g: Setup, bm: seq<bool>, r: Request)
    requires g.perPeerBit > 0
  {
    && 0 < r.len <= g.perPeerBit * g.maxBlocks && Dense(bm, r.bit, r.len, g.perPeerBit)
    && r.sectors == if (r.bit + r.len) * g.sectPerBit > g.capacity then g.capacity - r.bit * g.sectPerBit else r.len * g.sectPerBit
  }

  function TotalLen(issued: seq<Request>): nat {
    if |issued| == 0 then 0 else TotalLen(issued[..|issued| - 1]) + issued[|issued| - 1].len
  }

  lemma CoverMore(bm: seq<bool>, issued: seq<Request>, lo: nat, hi: nat, r: Request)
    requires Covered(bm, issued, lo, hi) && Ascending(issued, lo, hi) && lo <= hi <= r.bit
    requires forall b | hi <= b < r.bit && b < |bm| :: !bm[b]
    ensures Covered(bm, issued + [r], lo, r.bit + r.len) && Ascending(issued + [r], lo, r.bit + r.len)
    ensures TotalLen(issued + [r]) == TotalLen(issued) + r.len
  {
    var more := issued + [r];
    forall b | lo <= b < r.bit + r.len && b < |bm| && bm[b] ensures exists k :: 0 <= k < |more| && In(more[k], b) {
      if b < hi {
        var k :| 0 <= k < |issued| && In(issued[k], b);
        assert In(more[k], b);
      } else {
        assert In(more[|issued|], b);
      }
    }
    assert more[..|issued|] == issued;
  }

  method FindNext(bm: seq<bool>, from: nat) returns (bit: nat)
    ensures from <= bit && (bit < |bm| ==> bm[bit]) && forall b | from <= b < bit && b < |bm| :: !bm[b]
  {
    bit := from;
    while bit < |bm| && !bm[bit]
      invariant from <= bit && forall b | from <= b < bit && b < |bm| :: !bm[b]
    {
      bit := bit + 1;
    }
  }

  lemma AlignDown(bit: nat, d: nat)
    requires d > 0
    ensures bit - bit % d >= 0 && (bit - bit % d) % d == 0 && bit < bit - bit % d + d
  {
    DivModParts(bit, d);
    DivModUnique(bit / d, 0, d);
  }

  lemma AlignedBelow(next: nat, bit: nat, d: nat)
    requires d > 0 && next <= bit && next % d == 0
    ensures next <= bit - bit % d
  {
    DivModParts(bit, d);
    DivModParts(next, d);
    DivMonotone(next / d, bit, d);
    MulMonotone(next / d, bit / d, d);
  }

  // The next set bit, and the start of the block of the peer that it is in.
  method Locate(bm: seq<bool>, next: nat, d: nat) returns (found: nat, bit: nat)
    requires d > 0 && next % d == 0
    ensures next <= bit <= found < bit + d && bit % d == 0
    ensures found < |bm| ==> bm[found]
    ensures forall b | next <= b < found && b < |bm| :: !bm[b]
  {
    found := FindNext(bm, next);
    AlignDown(found, d);
    AlignedBelow(next, found, d);
    bit := found - found % d;
  }

  /** Add adjacent blocks, up to the optimal size. */
  method Extend(bm: seq<bool>, bit: nat, optimal: nat, g: Setup) returns (len: nat)
    requires g.perPeerBit > 0 && optimal > 0 && AnySet(bm, bit, bit + g.perPeerBit)
    ensures 0 < len <= g.perPeerBit * optimal && len % g.perPeerBit == 0 && Dense(bm, bit, len, g.perPeerBit)
  {
    var p := g.perPeerBit;
    len := p;
    var n := optimal - 1;
    assert p * optimal == p + p * n;
    while n > 0
      invariant p <= len && len + p * n == p * optimal && n >= 0 && len % p == 0 && Dense(bm, bit, len, p)
      decreases n
    {
      if g.granularity > 0 && len * BlockBytes(g) == g.granularity { break; }
      if !AnySet(bm, bit + len, bit + len + p) { break; }
      PlusMultiple(len, p, p);
      assert p * n == p + p * (n - 1);
      len := len + p;
      n := n - 1;
    }
    if n > 0 { MulMonotone(0, n, p); }
  }

  lemma InsideDevice(g: Setup, bits: nat, found: nat, bit: nat)
    requires Sane(g, bits) && bit <= found < bits
    ensures bit * g.sectPerBit < g.capacity
  {
    MulMonotone(bit, bits - 1, g.sectPerBit);
  }

  lemma Counts(g: Setup, bits: nat)
    requires Sane(g, bits)
    ensures g.perPeerBit > 0 && g.maxBlocks > 0
  {
  }

  lemma SetAt(bm: seq<bool>, lo: nat, hi: nat, b: nat)
    requires lo <= b < hi && b < |bm| && bm[b]
    ensures AnySet(bm, lo, hi)
  {
  }

  lemma AtMost(a: nat, b: nat, p: nat)
    requires a <= b
    ensures p * a <= p * b
  {
    MulMonotone(a, b, p);
  }

  // The request at `bit`, with `left` bits still to be requested.
  method Build(bm: seq<bool>, bit: nat, ghost found: nat, left: nat, g: Setup) returns (r: Request)
    requires Sane(g, |bm|) && bit <= found < |bm| && found < bit + g.perPeerBit && bm[found] && left > 0
    ensures r.bit == bit && r.len % g.perPeerBit == 0 && Proper(g, bm, r)
  {
    hide Dense, AnySet, RoundToPowerOf2, OptimalBits, Sane;
    assert g.perPeerBit > 0 && g.maxBlocks > 0 by { Counts(g, |bm|); }
    var rate := RoundToPowerOf2(left);
    var align := OptimalBits(bit, g.maxBlocks);
    var optimal := if align < rate then align else rate;
    assert AnySet(bm, bit, bit + g.perPeerBit) by { SetAt(bm, bit, bit + g.perPeerBit, found); }
    var len := Extend(bm, bit, optimal, g);
    InsideDevice(g, |bm|, found, bit);
    AtMost(optimal, g.maxBlocks, g.perPeerBit);
    // the very last sectors, in case the device is oddly sized
    var sectors := if (bit + len) * g.sectPerBit > g.capacity then g.capacity - bit * g.sectPerBit else len * g.sectPerBit;
    r := Request(bit, len, sectors);
  }

  // What has been issued so far, and where to go on.
  ghost predicate Progress(bm: seq<bool>, g: Setup, issued: seq<Request>, lo: nat, hi: nat, i: nat)
    requires g.perPeerBit > 0
  {
    && i == TotalLen(issued) && lo <= hi && Ascending(issued, lo, hi) && Covered(bm, issued, lo, hi)
    && forall k | 0 <= k < |issued| :: Proper(g, bm, issued[k])
  }

  lemma ProgressMore(bm: seq<bool>, g: Setup, issued: seq<Request>, lo: nat, hi: nat, i: nat, r: Request)
    requires g.perPeerBit > 0 && Progress(bm, g, issued, lo, hi, i) && hi <= r.bit && Proper(g, bm, r)
    requires forall b | hi <= b < r.bit && b < |bm| :: !bm[b]
    ensures Progress(bm, g, issued + [r], lo, r.bit + r.len, i + r.len)
  {
    hide Proper;
    CoverMore(bm, issued, lo, hi, r);
  }

  ghost predicate Disjoint(issued: seq<Request>) {
    forall j, k | 0 <= j < k < |issued| :: issued[j].bit + issued[j].len <= issued[k].bit
  }

  // How far the pass has dealt with set bits.
  function Reached(stop: Stop, next: nat): nat {
    if stop.Failed? then stop.request.bit else next
  }

  // The next block of the peer with a set bit starts there.
  ghost predicate NextBlock(bm: seq<bool>, g: Setup, next: nat, bit: nat)
    requires g.perPeerBit > 0
  {
    && next <= bit && bit % g.perPeerBit == 0 && AnySet(bm, bit, bit + g.perPeerBit)
    && forall b | next <= b < bit && b < |bm| :: !bm[b]
  }

  predicate Adjacent(g: Setup, r: Request, bit: nat) {
    r.bit * g.sectPerBit + r.sectors == bit * g.sectPerBit
  }

  // The reason holds.
  ghost predicate Stopped(bm: seq<bool>, g: Setup, number: nat, throttled: nat -> bool, unsuccessful: nat -> bool,
                          outcome: nat -> Outcome, issued: seq<Request>, next: nat, stop: Stop)
    requires g.sectPerBit > 0 && g.perPeerBit > 0
  {
    var n, i := |issued|, TotalLen(issued);
    match stop
    case UsedUp => i >= number
    case Unsuccessful => n > 0 && unsuccessful(n)
    case NoRoomForDiscard => number - i < g.granularity / BlockBytes(g)
    case EndOfBitmap => next == |bm|
    case Throttled => throttled(n)
    case WouldShrink =>
      && n > 0 && number - i < issued[n - 1].sectors * 512 / BlockBytes(g)
      && exists bit :: NextBlock(bm, g, next, bit) && Adjacent(g, issued[n - 1], bit)
    case TryAgain => outcome(n).Again?
    case Failed(r) => outcome(n).DiskError? && Proper(g, bm, r) && next == r.bit + r.len
  }

  /** make_resync_request(), after it is settled how many bits may be requested: the requests
   *  ascend and are disjoint, they cover every set bit that is passed and no block without
   *  one, and what is noted as in flight is what was requested.  The pass goes on until one
   *  of the reasons to stop holds.  A disk error ends it with the number noted in advance.
   */
  method MakeRequests(bm: seq<bool>, next: nat, number: nat, g: Setup, throttled: nat -> bool, unsuccessful: nat -> bool,
                      outcome: nat -> Outcome) returns (issued: seq<Request>, next': nat, inFlight: int, stop: Stop)
    requires Sane(g, |bm|) && next % g.perPeerBit == 0
    ensures Disjoint(issued) && forall k | 0 <= k < |issued| :: next <= issued[k].bit < Reached(stop, next')
    ensures Covered(bm, issued, next, Reached(stop, next'))
    ensures forall k | 0 <= k < |issued| :: Proper(g, bm, issued[k])
    ensures inFlight == (if stop.Failed? then number else TotalLen(issued)) * g.sectPerBit
    ensures Stopped(bm, g, number, throttled, unsuccessful, outcome, issued, next', stop)
  {
    hide Proper, Progress, Covered, Disjoint;
    var p, i, size, prevSector := g.perPeerBit, 0, 0, 0;
    issued, next' := [], next;
    inFlight := number * g.sectPerBit;
    assert Progress(bm, g, [], next, next, 0) by { Nothing(bm, g, next); }
    ghost var reach := next;
    stop := UsedUp;
    while i < number
      invariant Progress(bm, g, issued, next, next', i) && next' % p == 0 && reach == next' && stop == UsedUp
      invariant forall k | 0 <= k < |issued| :: issued[k].bit < |bm|
      invariant size == if |issued| == 0 then 0 else issued[|issued| - 1].sectors * 512
      invariant |issued| > 0 ==> prevSector == issued[|issued| - 1].bit * g.sectPerBit
      decreases number - i
    {
      if |issued| > 0 && unsuccessful(|issued|) { stop := Unsuccessful; break; }
      if number - i < g.granularity / BlockBytes(g) { stop := NoRoomForDiscard; break; }
      var found, bit := Locate(bm, next', p);
      if found >= |bm| {
        next', stop := |bm|, EndOfBitmap;
        break;
      }
      if throttled(|issued|) {
        next', stop := bit, Throttled;
        break;
      }
      if prevSector + size / 512 == bit * g.sectPerBit && number - i < size / BlockBytes(g) {
        SetAt(bm, bit, bit + p, found);
        assert NextBlock(bm, g, next', bit) && Adjacent(g, issued[|issued| - 1], bit);
        stop := WouldShrink;
        break;
      }
      var r := Build(bm, bit, found, number - i, g);
      if outcome(|issued|).DiskError? {
        next', stop := bit + r.len, Failed(r);
        Finished(bm, g, issued, next, reach, i, bit);
        return;
      }
      if outcome(|issued|).Again? {
        next', stop := bit, TryAgain;
        break;
      }
      ProgressMore(bm, g, issued, next, next', i, r);
      PlusMultiple(bit, r.len, p);
      assert r.len > 0 by { Positive(g, bm, r); }
      issued := issued + [r];
      next' := bit + r.len;
      reach := next';
      prevSector, size := bit * g.sectPerBit, r.sectors * 512;
      i := i + r.len;
    }
    Finished(bm, g, issued, next, reach, i, next');
    Corrected(number, i, g.sectPerBit);
    inFlight := inFlight - (number - i) * g.sectPerBit;
  }

  lemma Corrected(number: nat, i: nat, unit: nat)
    ensures number * unit - (number - i) * unit == i * unit
  {
    assert (number - i) * unit == number * unit - i * unit;
  }

  lemma Nothing(bm: seq<bool>, g: Setup, next: nat)
    requires g.perPeerBit > 0
    ensures Progress(bm, g, [], next, next, 0)
  {
  }

  lemma Positive(g: Setup, bm: seq<bool>, r: Request)
    requires g.perPeerBit > 0 && Proper(g, bm, r)
    ensures r.len > 0
  {
  }

  lemma Finished(bm: seq<bool>, g: Setup, issued: seq<Request>, lo: nat, reach: nat, i: nat, next': nat)
    requires g.perPeerBit > 0 && Progress(bm, g, issued, lo, reach, i)
    requires next' >= reach || next' == |bm|
    requires forall b | reach <= b < next' && b < |bm| :: !bm[b]
    requires forall k | 0 <= k < |issued| :: issued[k].bit < |bm|
    ensures Covered(bm, issued, lo, next') && Disjoint(issued) && i == TotalLen(issued)
    ensures forall k | 0 <= k < |issued| :: lo <= issued[k].bit < next' && Proper(g, bm, issued[k])
  {
    hide Dense;
    forall k | 0 <= k < |issued| ensures issued[k].bit < next' { Positive(g, bm, issued[k]); }
  }

  /** A request that is cut short at the end of the device still reaches all its bits. */
  lemma ClippedReaches(g: Setup, bm: seq<bool>, r: Request, b: nat)
    requires Sane(g, |bm|) && Proper(g, bm, r) && In(r, b) && b < |bm|
    ensures b * g.sectPerBit < r.bit * g.sectPerBit + r.sectors
  {
    hide Dense;
    MulMonotone(b, |bm| - 1, g.sectPerBit);
    MulMonotone(b + 1, r.bit + r.len, g.sectPerBit);
    assert (b + 1) * g.sectPerBit == b * g.sectPerBit + g.sectPerBit;
    assert (r.bit + r.len) * g.sectPerBit == r.bit * g.sectPerBit + r.len * g.sectPerBit;
  }
}
