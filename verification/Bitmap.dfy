/** The dirty bitmap of one device, shared by all peers. */
module Bitmap {
  import opened Arithmetic
  import opened BitmapLayout
  import opened BitmapSpec

  class Bitmap {
    const peers: nat
    const wpp: nat
    const sectPerBit: nat
    var capacity: nat
    var bits: nat
    var pages: nat
    var mem: array<bool>
    var weight: array<int>
    var needWriteout: set<nat>
    var lazyWriteout: set<nat>

    ghost predicate Valid()
      reads this
    {
      && 0 < peers <= wpp && sectPerBit > 0
      && mem.Length == pages * wpp * 32
      && (bits + 31) / 32 * peers * 32 <= mem.Length
      && weight.Length == peers
    }

    // The cached weights are the numbers of set bits below `bits`.
    ghost predicate WeightsExact()
      reads this, mem, weight
    {
      Exact(peers, weight[..], mem[..], bits)
    }

    // Bit by bit over part of a word.
    method BitLoop(op: Op, base: nat, n: nat, total0: nat) returns (count: nat, total: nat)
      requires base + n <= mem.Length
      requires op.Clear? || op.Set? || op.Count?
      modifies mem
      ensures forall at | 0 <= at < mem.Length ::
                mem[at] == if base <= at < base + n then NewBit(op, old(mem[at]), false) else old(mem[at])
      ensures op.Count? ==> count == 0 && total == total0 + Ones(old(mem[base..base + n]))
      ensures !op.Count? ==> total == total0 && count == Ones(Flips(op, old(mem[base..base + n]), [], 0))
    {
      ghost var w := mem[base..base + n];
      ghost var f := Flips(op, w, [], 0);
      count, total := 0, total0;
      var i := 0;
      while i < n
        invariant 0 <= i <= n
        invariant forall at | 0 <= at < mem.Length ::
                    mem[at] == if base <= at < base + i then NewBit(op, old(mem[at]), false) else old(mem[at])
        invariant op.Count? ==> count == 0 && total == total0 + Ones(w[..i])
        invariant !op.Count? ==> total == total0 && count == Ones(f[..i])
      {
        assert w[..i + 1][..i] == w[..i] && f[..i + 1][..i] == f[..i];
        assert w[i] == mem[base + i];
        if op.Clear? {
          if mem[base + i] { count := count + 1; }
          mem[base + i] := false;
        } else if op.Set? {
          if !mem[base + i] { count := count + 1; }
          mem[base + i] := true;
        } else if mem[base + i] {
          total := total + 1;
        }
        i := i + 1;
      }
      assert w[..n] == w && f[..n] == f;
    }

    // find_next_bit_le and find_next_zero_bit_le
    method FindNext(wanted: bool, from: nat, size: nat) returns (at: nat)
      requires from <= size <= mem.Length
      ensures from <= at <= size
      ensures forall i | from <= i < at :: mem[i] != wanted
      ensures at < size ==> mem[at] == wanted
    {
      at := from;
      while at < size && mem[at] != wanted
        invariant from <= at <= size
        invariant forall i | from <= i < at :: mem[i] != wanted
      {
        at := at + 1;
      }
    }

    // A whole word at once, for the operations that change or count bits.
    method WordOp(op: Op, base: nat, extra: seq<bool>, total0: nat) returns (count: nat, total: nat)
      requires base + 32 <= mem.Length && |extra| == 32
      requires Mutates(op) || op.Count?
      modifies mem
      ensures forall at | 0 <= at < mem.Length ::
                mem[at] == if base <= at < base + 32
                           then NewBit(op, old(mem[at]), extra[at - base]) else old(mem[at])
      ensures op.Count? ==> count == 0 && total == total0 + Ones(old(mem[base..base + 32]))
      ensures !op.Count? ==> total == total0 && count == Ones(Flips(op, old(mem[base..base + 32]), extra, 0))
    {
      ghost var w := mem[base..base + 32];
      count, total := 0, total0;
      if op.Clear? {
        count := Ones(mem[base..base + 32]);
        assert Flips(op, w, extra, 0) == w;
        forall i | 0 <= i < 32 { mem[base + i] := false; }
      } else if op.Set? {
        var inverted := seq(32, i requires 0 <= i < 32 && base + 32 <= mem.Length reads this, mem => !mem[base + i]);
        count := Ones(inverted);
        assert Flips(op, w, extra, 0) == inverted;
        forall i | 0 <= i < 32 { mem[base + i] := true; }
      } else if op.Merge? {
        var added := seq(32, i requires 0 <= i < 32 && base + 32 <= mem.Length && |extra| == 32
                               reads this, mem => !mem[base + i] && extra[i]);
        count := Ones(added);
        assert Flips(op, w, extra, 0) == added;
        forall i | 0 <= i < 32 { mem[base + i] := mem[base + i] || extra[i]; }
      } else {
        total := total + Ones(mem[base..base + 32]);
      }
    }

    // The bits of a range end with the bitmap.
    function RangeEnd(start: nat, end: nat): (hi: nat)
      reads this
      ensures start <= hi && (hi == start || hi <= bits)
    {
      if start <= end < bits then end + 1 else if start < bits <= end then bits else start
    }

    /** The memory, the cached weights and the page flags after an operation on the bits
     *  [lo, hi) of a slot that gave back `result`.
     */
    twostate predicate Carried(op: Op, slot: nat, lo: nat, hi: nat, extras: seq<bool>, result: int)
      requires peers > 0 && wpp > 0 && slot < weight.Length && lo <= hi
      requires old(mem) == mem && old(weight) == weight
      reads this, mem, weight
    {
      && Applied(peers, op, old(mem[..]), mem[..], slot, lo, hi, extras, lo)
      && weight[..] == old(weight[..])[slot := old(weight[slot]) + Delta(op, result)]
      && needWriteout == old(needWriteout) +
           (if op.Set? || op.Merge? then DirtyPages(old(mem[..]), mem[..], wpp * 32) else {})
      && lazyWriteout == old(lazyWriteout) +
           if op.Clear? then DirtyPages(old(mem[..]), mem[..], wpp * 32) else {}
    }

    /** One operation on the bits [start, end] of a slot: set, clear, test, count, merge
     *  in or extract from a buffer, or find the first set or clear bit.
     */
    method BmOp(op: Op, slot: nat, start0: nat, end0: nat, buffer: array<bool>) returns (result: int)
      requires Valid() && slot < peers && buffer != mem && bits > 0
      requires op.Merge? || op.Extract? ==>
                 start0 % 32 == 0 &&
                 (start0 < RangeEnd(start0, end0) ==> AfterWord(RangeEnd(start0, end0) - 1 - start0) <= buffer.Length)
      modifies mem, weight, buffer, `needWriteout, `lazyWriteout
      ensures Carried(op, slot, start0, RangeEnd(start0, end0), old(buffer[..]), result)
      ensures if op.Extract?
              then Extracted(peers, mem[..], slot, start0, RangeEnd(start0, end0), old(buffer[..]), buffer[..])
              else buffer[..] == old(buffer[..])
      ensures Answers(op, SlotBits(peers, old(mem[..]), slot, start0, RangeEnd(start0, end0)),
                      old(buffer[..]), start0, result)
    {
      hide Applied, Extracted, AfterWord, Answers, DirtyPages, SlotBits;
      result := Sweep(op, slot, start0, end0, buffer);
      if op.Clear? {
        weight[slot] := weight[slot] - result;
      } else if op.Set? || op.Merge? {
        weight[slot] := weight[slot] + result;
      }
    }

    // The operation without the cached weight.
    method Sweep(op: Op, slot: nat, start0: nat, end0: nat, buffer: array<bool>) returns (result: int)
      requires Valid() && slot < peers && buffer != mem && bits > 0
      requires op.Merge? || op.Extract? ==>
                 start0 % 32 == 0 &&
                 (start0 < RangeEnd(start0, end0) ==> AfterWord(RangeEnd(start0, end0) - 1 - start0) <= buffer.Length)
      modifies mem, buffer, `needWriteout, `lazyWriteout
      ensures Applied(peers, op, old(mem[..]), mem[..], slot, start0, RangeEnd(start0, end0), old(buffer[..]), start0)
      ensures needWriteout == old(needWriteout) +
                if op.Set? || op.Merge? then DirtyPages(old(mem[..]), mem[..], wpp * 32) else {}
      ensures lazyWriteout == old(lazyWriteout) +
                if op.Clear? then DirtyPages(old(mem[..]), mem[..], wpp * 32) else {}
      ensures if op.Extract?
              then Extracted(peers, mem[..], slot, start0, RangeEnd(start0, end0), old(buffer[..]), buffer[..])
              else buffer[..] == old(buffer[..])
      ensures Answers(op, SlotBits(peers, old(mem[..]), slot, start0, RangeEnd(start0, end0)),
                      old(buffer[..]), start0, result)
    {
      hide Stage, Applied, Extracted, Position, BitAt, AfterWord, Flips, Ones, Answers, DirtyPages, SlotBits;
      hide InterleavedWord, Mine;
      ghost var m0, extras := mem[..], buffer[..];
      ghost var hi := RangeEnd(start0, end0);
      var end := if end0 >= bits then bits - 1 else end0;
      if op.Test? && start0 <= end {
        result := TestBit(slot, start0, hi, extras);
        AppliedReading(peers, op, m0, m0, slot, start0, hi, extras, start0);
        return;
      }
      var total, counted, found, start := PageLoop(op, slot, start0, end, buffer);
      if found {
        SearchEnds(peers, op, m0, mem[..], slot, extras, start0, start, hi, total, counted);
        return start;
      }
      SweepEnds(peers, op, m0, mem[..], slot, extras, start0, hi, total, counted);
      result := if op.FindBit? || op.FindZeroBit? then END_OF_BITMAP else if op.Count? then counted else total;
    }

    method TestBit(slot: nat, start: nat, ghost hi: nat, ghost extras: seq<bool>) returns (result: int)
      requires Valid() && slot < peers && start < bits && start < hi
      ensures Answers(Test, SlotBits(peers, mem[..], slot, start, hi), extras, start, result)
    {
      var word := InterleavedWord(peers, slot, start);
      var page: nat := WordToPage(wpp, word);
      var bitInPage: nat := WordInPage(wpp, word) * 32 + start % 32;
      FirstPage(peers, wpp, slot, start);
      StretchInside(slot, start, start + 1);
      result := if mem[page * (wpp * 32) + bitInPage] then 1 else 0;
      assert SlotBits(peers, mem[..], slot, start, hi)[0] == BitAt(peers, mem[..], slot, start);
    }

    // Page after page.
    method PageLoop(op: Op, slot: nat, start0: nat, end: nat, buffer: array<bool>)
      returns (total: nat, counted: nat, found: bool, start: nat)
      requires Valid() && slot < peers && end < bits && buffer != mem
      requires op.Test? ==> end < start0
      requires op.Merge? || op.Extract? ==>
                 start0 % 32 == 0 && (start0 <= end ==> AfterWord(end - start0) <= buffer.Length)
      modifies mem, buffer, `needWriteout, `lazyWriteout
      ensures Stage(peers, op, old(mem[..]), mem[..], slot, old(buffer[..]), start0, start0, start, total, counted)
      ensures start0 <= start
      ensures found ==>
        && (op.FindBit? || op.FindZeroBit?) && start <= end
        && BitAt(peers, old(mem[..]), slot, start) == op.FindBit?
      ensures !found ==> start == if start0 <= end then end + 1 else start0
      ensures if op.Extract? then Extracted(peers, old(mem[..]), slot, start0, start, old(buffer[..]), buffer[..])
                             else buffer[..] == old(buffer[..])
      ensures needWriteout == old(needWriteout) +
                if op.Set? || op.Merge? then DirtyPages(old(mem[..]), mem[..], wpp * 32) else {}
      ensures lazyWriteout == old(lazyWriteout) +
                if op.Clear? then DirtyPages(old(mem[..]), mem[..], wpp * 32) else {}
    {
      hide Stage, Applied, Extracted, Position, BitAt, AfterWord, Flips, Ones;
      ghost var m0, extras := mem[..], buffer[..];
      start := start0;
      var word := InterleavedWord(peers, slot, start);
      var page: nat := WordToPage(wpp, word);
      var bitInPage: nat := WordInPage(wpp, word) * 32 + start % 32;
      total, counted, found := 0, 0, false;
      FirstPage(peers, wpp, slot, start);
      AppliedNothing(peers, op, m0, slot, start0, extras, start0);
      StageBegin(peers, op, m0, m0, slot, extras, start0, start0);
      ExtractedNothing(peers, m0, slot, start0, extras);
      while start <= end
        invariant start0 <= start && (start == start0 || start <= end + 1)
        invariant start <= end ==>
          bitInPage < wpp * 32 && page * (wpp * 32) + bitInPage == Position(peers, slot, start)
        invariant op.Merge? || op.Extract? ==> start % 32 == 0 || start == end + 1
        invariant Stage(peers, op, m0, mem[..], slot, extras, start0, start0, start, total, counted)
        invariant if op.Extract? then Extracted(peers, m0, slot, start0, start, extras, buffer[..]) else buffer[..] == extras
        invariant |m0| == mem.Length
        invariant needWriteout == old(needWriteout) +
                    if op.Set? || op.Merge? then DirtyPages(m0, mem[..], wpp * 32) else {}
        invariant lazyWriteout == old(lazyWriteout) + if op.Clear? then DirtyPages(m0, mem[..], wpp * 32) else {}
        invariant !found
        decreases end + 1 - start
      {
        ghost var m1, mid := mem[..], start;
        NextPage(page, wpp);
        var count, seen;
        StageApplied(peers, op, m0, m1, slot, extras, start0, start0, start, total, counted);
        start, bitInPage, count, seen, found :=
          OpOnPage(op, slot, page * (wpp * 32), bitInPage, start, end, buffer, start0, m0, extras);
        StageReading(peers, op, m0, mem[..], slot, extras, start0, mid, start, count, seen);
        StageJoin(peers, op, m0, mem[..], slot, extras, start0, mid, start, m1, total, counted, count, seen);
        if mid < start {
          StretchInside(slot, start - 1, start);
          RoundDirties(peers, op, m0, m1, mem[..], slot, extras, start0, mid, start, count, seen, page, wpp * 32);
        }
        total, counted := total + count, counted + seen;
        if found {
          return;
        }
        if start <= end {
          bitInPage := bitInPage - wpp * 32;
        }
        if count > 0 {
          if op.Clear? {
            lazyWriteout := lazyWriteout + {page};
          } else {
            needWriteout := needWriteout + {page};
          }
        }
        page := page + 1;
      }
    }

    // One round of the page loop: the operation from `start0` on, up to the end of
    // the range or of the page mapped at `addr`, whichever comes first.
    method OpOnPage(op: Op, slot: nat, addr: nat, bitInPage0: nat, start0: nat, end: nat,
                    buffer: array<bool>, first: nat,
                    ghost m0: seq<bool>, ghost extras: seq<bool>)
      returns (start: nat, bitInPage: nat, count: nat, total: nat, found: bool)
      requires Valid() && slot < peers && first <= start0 <= end < bits && !op.Test?
      requires addr % 32 == 0 && bitInPage0 < wpp * 32 && addr + bitInPage0 == Position(peers, slot, start0)
      requires buffer != mem && |extras| == buffer.Length && (!op.Extract? ==> extras == buffer[..])
      requires op.Merge? || op.Extract? ==>
                 start0 % 32 == 0 && first % 32 == 0 && AfterWord(end - first) <= buffer.Length
      requires op.Extract? ==> Extracted(peers, m0, slot, first, start0, extras, buffer[..])
      requires |m0| == mem.Length && Applied(peers, op, m0, mem[..], slot, first, start0, extras, first)
      modifies mem, buffer
      ensures start0 <= start <= end + 1
      ensures Stage(peers, op, m0, mem[..], slot, extras, first, start0, start, count, total)
      ensures start0 < start ==> Position(peers, slot, start - 1) < addr + wpp * 32
      ensures !found ==> start0 < start
      ensures !found && start <= end ==>
        && wpp * 32 <= bitInPage < 2 * (wpp * 32)
        && addr + bitInPage == Position(peers, slot, start)
        && start % 32 == 0
      ensures found ==>
        (op.FindBit? || op.FindZeroBit?) && start <= end && BitAt(peers, m0, slot, start) == op.FindBit?
      ensures !op.Extract? ==> buffer[..] == old(buffer[..])
      ensures op.Extract? ==> Extracted(peers, m0, slot, first, start, extras, buffer[..])
    {
      hide Stage, Applied, Extracted, Position, BitAt, AfterWord;
      start, bitInPage, count, total, found := start0, bitInPage0, 0, 0, false;
      StageBegin(peers, op, m0, mem[..], slot, extras, first, start0);
      if start % 32 != 0 && AfterWord(start) <= end + 1 {
        start, bitInPage, count, total, found :=
          OpHead(op, slot, addr, bitInPage, start, end, first, m0, extras);
        if found || bitInPage >= wpp * 32 {
          return;
        }
      } else if start % 32 != 0 {
        ShortRange(start, end);
      }
      start, bitInPage, count, total, found :=
        OpWords(op, slot, addr, bitInPage, start, end, buffer, first, count, total, start0, m0, extras);
      if found || start > end || bitInPage >= wpp * 32 {
        return;
      }
      if op.Merge? || op.Extract? {
        BufferRoom(first, start, end);
      }
      var hit;
      count, total, found, hit :=
        OpTail(op, slot, addr, bitInPage, start, end, buffer, first, count, total, start0, m0, extras);
      start := if found then hit else end + 1;
    }

    // The whole words of the range that are on the page.
    method OpWords(op: Op, slot: nat, addr: nat, bitInPage0: nat, start1: nat, end: nat,
                   buffer: array<bool>, first: nat, count0: nat, total0: nat,
                   ghost start0: nat, ghost m0: seq<bool>, ghost extras: seq<bool>)
      returns (start: nat, bitInPage: nat, count: nat, total: nat, found: bool)
      requires Valid() && slot < peers && start1 <= end + 1 && end < bits && !op.Test?
      requires start1 % 32 == 0 || start1 / 32 == end / 32
      requires addr % 32 == 0 && bitInPage0 < wpp * 32 && addr + bitInPage0 == Position(peers, slot, start1)
      requires buffer != mem && |extras| == buffer.Length && (!op.Extract? ==> extras == buffer[..])
      requires op.Merge? || op.Extract? ==>
                 start1 % 32 == 0 && first % 32 == 0 &&
                 (first <= end ==> AfterWord(end - first) <= buffer.Length)
      requires op.Extract? ==> first <= start1 && Extracted(peers, m0, slot, first, start1, extras, buffer[..])
      requires |m0| == mem.Length && Stage(peers, op, m0, mem[..], slot, extras, first, start0, start1, count0, total0)
      modifies mem, buffer
      ensures start1 <= start <= end + 1
      ensures Stage(peers, op, m0, mem[..], slot, extras, first, start0, start, count, total)
      ensures start1 < start ==> Position(peers, slot, start - 1) < addr + wpp * 32
      ensures !found ==>
        && bitInPage < 2 * (wpp * 32)
        && addr + bitInPage == Position(peers, slot, start)
        && (start % 32 == 0 || start == start1)
        && (start == start1 ==> bitInPage < wpp * 32)
        && (bitInPage >= wpp * 32 || start > end || (end < start + 31 && start / 32 == end / 32))
      ensures found ==>
        (op.FindBit? || op.FindZeroBit?) && start <= end && BitAt(peers, m0, slot, start) == op.FindBit?
      ensures !op.Extract? ==> buffer[..] == old(buffer[..])
      ensures op.Extract? ==> Extracted(peers, m0, slot, first, start, extras, buffer[..])
    {
      hide Stage, Applied, Extracted, AfterWord;
      start, bitInPage, count, total, found := start1, bitInPage0, count0, total0, false;
      while start + 31 <= end
        invariant start1 <= start <= end + 1
        invariant bitInPage < wpp * 32 && addr + bitInPage == Position(peers, slot, start)
        invariant start % 32 == 0 || (start == start1 && start / 32 == end / 32)
        invariant start1 < start ==> Position(peers, slot, start - 1) < addr + wpp * 32
        invariant op.Merge? || op.Extract? ==> start % 32 == 0
        invariant Stage(peers, op, m0, mem[..], slot, extras, first, start0, start, count, total)
        invariant !op.Extract? ==> buffer[..] == old(buffer[..])
        invariant op.Extract? ==> first <= start && Extracted(peers, m0, slot, first, start, extras, buffer[..])
        invariant !found
      {
        WholeWord(start, end);
        StageReading(peers, op, m0, mem[..], slot, extras, first, start0, start, count, total);
        if op.Merge? || op.Extract? {
          BufferRoom(first, start, end);
        }
        var hit;
        count, total, found, hit :=
          OpWord(op, slot, addr, bitInPage, start, end, buffer, first, count, total, start0, m0, extras);
        if found {
          start := hit;
          return;
        }
        NextRow(peers, slot, start);
        AddWord(start);
        start := start + 32;
        bitInPage := bitInPage + 32 * peers;
        if bitInPage >= wpp * 32 {
          return;
        }
      }
      WholeWord(start, end);
    }

    // The first word of the range when the range begins in the middle of it and
    // reaches its end.
    method OpHead(op: Op, slot: nat, addr: nat, bitInPage0: nat, start0: nat, end: nat, first: nat,
                  ghost m0: seq<bool>, ghost extras: seq<bool>)
      returns (start: nat, bitInPage: nat, count: nat, total: nat, found: bool)
      requires Valid() && slot < peers && start0 % 32 != 0 && AfterWord(start0) <= end + 1 <= bits
      requires op.Clear? || op.Set? || op.Count? || op.FindBit? || op.FindZeroBit?
      requires addr % 32 == 0 && bitInPage0 < wpp * 32 && addr + bitInPage0 == Position(peers, slot, start0)
      requires |m0| == mem.Length
      requires Stage(peers, op, m0, mem[..], slot, extras, first, start0, start0, 0, 0)
      modifies mem
      ensures Stage(peers, op, m0, mem[..], slot, extras, first, start0, start, count, total)
      ensures start0 < start ==> Position(peers, slot, start - 1) < addr + wpp * 32
      ensures !found ==>
        && start0 < start == AfterWord(start0) <= end + 1 && start % 32 == 0
        && addr + bitInPage == Position(peers, slot, start)
        && bitInPage < bitInPage0 + 32 * peers
      ensures found ==>
        (op.FindBit? || op.FindZeroBit?) && start0 <= start <= end && BitAt(peers, m0, slot, start) == op.FindBit?
    {
      hide Stage, Applied, Extracted, Position, BitAt, AfterWord, Flips, Ones;
      start, bitInPage, count, total, found := start0, bitInPage0, 0, 0, false;
      var next, hi := AfterWord(bitInPage), AfterWord(start);
      ghost var m1 := mem[..];
      EndOfWord(peers, slot, start0);
      HeadLength(addr, bitInPage, start0);
      StretchInside(slot, start0, hi);
      StageReading(peers, op, m0, m1, slot, extras, first, start0, start0, 0, 0);
      if op.FindBit? || op.FindZeroBit? {
        var at := FindNext(op.FindBit?, addr + bitInPage, addr + next);
        if at < addr + next {
          found, start := true, start + (at - addr) - bitInPage;
          StageSearch(peers, op, m0, slot, extras, first, start0, start0, start);
          if start0 < start { Between(start0, start - 1, hi - 1); WordOnPage(peers, slot, start0, addr, bitInPage0, wpp, start - 1); }
          return;
        }
      } else {
        count, total := BitLoop(op, addr + bitInPage, next - bitInPage, total);
      }
      StageStepPlain(peers, op, m0, m1, mem[..], slot, extras, first, start0, start0, hi, addr + bitInPage,
                     0, 0, count, total);
      WordOnPage(peers, slot, start0, addr, bitInPage0, wpp, hi - 1);
      start := hi;
      bitInPage := next + 32 * peers - 32;
    }

    // A whole word inside the range.
    method OpWord(op: Op, slot: nat, addr: nat, bitInPage: nat, start: nat, end: nat,
                  buffer: array<bool>, first: nat, count0: nat, total0: nat,
                  ghost start0: nat, ghost m0: seq<bool>, ghost extras: seq<bool>)
      returns (count: nat, total: nat, found: bool, hit: nat)
      requires Valid() && slot < peers && start % 32 == 0 && start + 31 <= end < bits && !op.Test?
      requires addr % 32 == 0 && bitInPage < wpp * 32 && addr + bitInPage == Position(peers, slot, start)
      requires buffer != mem && |extras| == buffer.Length && (!op.Extract? ==> extras == buffer[..])
      requires op.Merge? || op.Extract? ==> first % 32 == 0 && start - first + 32 <= buffer.Length
      requires |m0| == mem.Length
      requires Stage(peers, op, m0, mem[..], slot, extras, first, start0, start, count0, total0)
      requires op.Extract? ==> Extracted(peers, m0, slot, first, start, extras, buffer[..])
      modifies mem, buffer
      ensures found ==>
        && (op.FindBit? || op.FindZeroBit?) && start <= hit <= end && BitAt(peers, m0, slot, hit) == op.FindBit?
        && Stage(peers, op, m0, mem[..], slot, extras, first, start0, hit, count, total)
        && (start < hit ==> Position(peers, slot, hit - 1) < addr + wpp * 32)
      ensures !found ==> Stage(peers, op, m0, mem[..], slot, extras, first, start0, start + 32, count, total)
      ensures Position(peers, slot, start + 31) < addr + wpp * 32
      ensures !op.Extract? ==> buffer[..] == old(buffer[..])
      ensures op.Extract? ==> Extracted(peers, m0, slot, first, start + 32, extras, buffer[..])
    {
      hide Stage, Applied, Extracted, AfterWord;
      count, total, found, hit := count0, total0, false, start;
      var p := addr + bitInPage;
      WordOnPage(peers, slot, start, addr, bitInPage, wpp, start + 31);
      ghost var m1 := mem[..];
      StretchInside(slot, start, start + 32);
      StageReading(peers, op, m0, m1, slot, extras, first, start0, start, count0, total0);
      if Mutates(op) || op.Count? {
        var word := if op.Merge? then buffer[start - first..start - first + 32] else seq(32, _ => false);
        var c, t := WordOp(op, p, word, total);
        count, total := count + c, t;
        StageStepWord(peers, op, m0, m1, mem[..], slot, extras, first, start0, start, p, word,
                      count0, total0, count, total);
      } else {
        if op.Extract? {
          forall i | 0 <= i < 32 { buffer[start - first + i] := mem[p + i]; }
          ExtractedWord(peers, m0, slot, first, start, start + 32, extras, old(buffer[..]), buffer[..]);
        } else {
          var at := FindNext(op.FindBit?, p, p + 32);
          if at < p + 32 {
            found, hit := true, start + (at - p);
            StageSearch(peers, op, m0, slot, extras, first, start0, start, hit);
            if start < hit { WordOnPage(peers, slot, start, addr, bitInPage, wpp, hit - 1); }
            return;
          }
        }
        StageStepPlain(peers, op, m0, m1, mem[..], slot, extras, first, start0, start, start + 32, p,
                       count0, total0, count, total);
      }
    }

    // What is left of the range: less than a word, all of it in one word.
    method OpTail(op: Op, slot: nat, addr: nat, bitInPage: nat, start: nat, end: nat,
                  buffer: array<bool>, first: nat, count0: nat, total0: nat,
                  ghost start0: nat, ghost m0: seq<bool>, ghost extras: seq<bool>)
      returns (count: nat, total: nat, found: bool, hit: nat)
      requires Valid() && slot < peers && start <= end < bits && end < start + 31 && start / 32 == end / 32 && !op.Test?
      requires addr % 32 == 0 && bitInPage < wpp * 32 && addr + bitInPage == Position(peers, slot, start)
      requires buffer != mem && |extras| == buffer.Length && (!op.Extract? ==> extras == buffer[..])
      requires op.Merge? || op.Extract? ==> first % 32 == start % 32 == 0 && start - first + 32 <= buffer.Length
      requires |m0| == mem.Length
      requires Stage(peers, op, m0, mem[..], slot, extras, first, start0, start, count0, total0)
      requires op.Extract? ==> Extracted(peers, m0, slot, first, start, extras, buffer[..])
      modifies mem, buffer
      ensures found ==>
        && (op.FindBit? || op.FindZeroBit?) && start <= hit <= end && BitAt(peers, m0, slot, hit) == op.FindBit?
        && Stage(peers, op, m0, mem[..], slot, extras, first, start0, hit, count, total)
        && (start < hit ==> Position(peers, slot, hit - 1) < addr + wpp * 32)
      ensures !found ==> Stage(peers, op, m0, mem[..], slot, extras, first, start0, end + 1, count, total)
      ensures Position(peers, slot, end) < addr + wpp * 32
      ensures !op.Extract? ==> buffer[..] == old(buffer[..])
      ensures op.Extract? ==> Extracted(peers, m0, slot, first, end + 1, extras, buffer[..])
    {
      hide Stage, Applied, Extracted, Position, BitAt, AfterWord, Flips, Ones;
      count, total, found, hit := count0, total0, false, start;
      WordOnPage(peers, slot, start, addr, bitInPage, wpp, end);
      if op.Merge? || op.Extract? {
        count := OpTailBuffer(op, slot, addr + bitInPage, start, end, buffer, first, count, total, start0, m0, extras);
        return;
      }
      var p, n := addr + bitInPage, end - start + 1;
      ghost var m1 := mem[..];
      StretchInside(slot, start, end + 1);
      StageReading(peers, op, m0, m1, slot, extras, first, start0, start, count0, total0);
      if op.Clear? || op.Set? || op.Count? {
        var c;
        c, total := BitLoop(op, p, n, total);
        count := count + c;
      } else {
        var at := FindNext(op.FindBit?, p, p + n);
        if at < p + n {
          found, hit := true, start + (at - p);
          Between(start, hit, end);
          StageSearch(peers, op, m0, slot, extras, first, start0, start, hit);
          if start < hit {
            Between(start, hit - 1, end);
            WordOnPage(peers, slot, start, addr, bitInPage, wpp, hit - 1);
          }
          return;
        }
      }
      StageStepPlain(peers, op, m0, m1, mem[..], slot, extras, first, start0, start, end + 1, p,
                     count0, total0, count, total);
    }

    // The last, partial word of a buffer.
    method OpTailBuffer(op: Op, slot: nat, p: nat, start: nat, end: nat,
                        buffer: array<bool>, first: nat, count0: nat, ghost total0: nat,
                        ghost start0: nat, ghost m0: seq<bool>, ghost extras: seq<bool>)
      returns (count: nat)
      requires Valid() && slot < peers && start <= end < bits && end < start + 31 && (op.Merge? || op.Extract?)
      requires p == Position(peers, slot, start)
      requires buffer != mem && |extras| == buffer.Length && (!op.Extract? ==> extras == buffer[..])
      requires first % 32 == start % 32 == 0 && start - first + 32 <= buffer.Length
      requires |m0| == mem.Length
      requires Stage(peers, op, m0, mem[..], slot, extras, first, start0, start, count0, total0)
      requires op.Extract? ==> Extracted(peers, m0, slot, first, start, extras, buffer[..])
      modifies mem, buffer
      ensures Stage(peers, op, m0, mem[..], slot, extras, first, start0, end + 1, count, total0)
      ensures op.Merge? ==> buffer[..] == old(buffer[..])
      ensures op.Extract? ==> Extracted(peers, m0, slot, first, end + 1, extras, buffer[..])
    {
      hide Stage, Applied, Extracted, Position, Flips, Ones;
      count := count0;
      var off, n := start - first, end - start + 1;
      ghost var m1 := mem[..];
      WordInside(peers, slot, start, bits);
      StageReading(peers, op, m0, m1, slot, extras, first, start0, start, count0, total0);
      if op.Merge? {
        var masked := seq(32, i requires 0 <= i < 32 && off + 32 <= buffer.Length reads buffer => i < n && buffer[off + i]);
        var c, _ := WordOp(op, p, masked, 0);
        count := count + c;
        StageMergeTail(peers, m0, m1, mem[..], slot, extras, first, start0, start, n, p, masked, count0, total0, count);
      } else {
        forall i | 0 <= i < 32 { buffer[off + i] := i < n && mem[p + i]; }
        ExtractedWord(peers, m0, slot, first, start, end + 1, extras, old(buffer[..]), buffer[..]);
        StageStepPlain(peers, op, m0, m1, mem[..], slot, extras, first, start0, start, end + 1, p,
                       count0, total0, count, total0);
      }
    }

    // Bits of a slot that are below `bits` are inside the memory.
    lemma StretchInside(slot: nat, lo: nat, hi: nat)
      requires Valid() && slot < peers && lo < hi <= bits && lo / 32 == (hi - 1) / 32
      ensures Position(peers, slot, lo) + (hi - lo) <= mem.Length
    {
      InsideSlot(peers, slot, hi - 1, bits);
      assert Position(peers, slot, hi - 1) == Position(peers, slot, lo) + (hi - 1 - lo);
    }
  }
}
