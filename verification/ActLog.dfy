/** The activity log: which extents are "hot", who holds them, and how they are activated.
 *
 * The cache of extents is the kernel's lru_cache, which is not part of the
 * repository; `TryGot`, `Got`, `PutBack` and `AllCommitted` are what is relied on.
 */
module ActLog {

  const LC_FREE: int := -1

  // One slot of the log: the extent it stands for, the one it is about to stand for
  // and the number of users.
  datatype Element = Element(number: int, newNumber: int, refs: nat)

  type Cache = seq<Element>

  predicate Changing(e: Element) {
    e.number != e.newNumber
  }

  ghost predicate WellFormed(lc: Cache) {
    && (forall i, j | 0 <= i < j < |lc| && lc[i].newNumber == lc[j].newNumber :: lc[i].newNumber == LC_FREE)
    && (forall i, j | 0 <= i < j < |lc| && lc[i].number == lc[j].number :: lc[i].number == LC_FREE)
    && (forall i | 0 <= i < |lc| && (lc[i].newNumber == LC_FREE) :: lc[i].refs == 0 && lc[i].number == LC_FREE)
  }

  // The slot an extent is found in, also if it is only about to be logged.
  function Lookup(lc: Cache, enr: nat): (i: nat)
    ensures i <= |lc|
    ensures i < |lc| ==> lc[i].newNumber == enr
    ensures i == |lc| ==> forall k | 0 <= k < |lc| :: lc[k].newNumber != enr
  {
    if |lc| == 0 then 0
    else if lc[0].newNumber == enr then 0
    else 1 + Lookup(lc[1..], enr)
  }

  function Refs(lc: Cache, enr: nat): nat {
    var i := Lookup(lc, enr);
    if i < |lc| then lc[i].refs else 0
  }

  // Is the extent in the log for good, not only about to be?
  predicate Logged(lc: Cache, enr: nat) {
    var i := Lookup(lc, enr);
    i < |lc| && !Changing(lc[i])
  }

  predicate Hit(lc: Cache, lc': Cache, enr: nat) {
    var i := Lookup(lc, enr);
    i < |lc| && lc' == lc[i := lc[i].(refs := lc[i].refs + 1)]
  }

  // lc_try_get: succeeds only on an extent that is in the log.
  predicate TryGot(lc: Cache, lc': Cache, enr: nat) {
    Logged(lc, enr) && Hit(lc, lc', enr)
  }

  predicate MissAt(lc: Cache, lc': Cache, enr: nat, i: nat) {
    && Lookup(lc, enr) == |lc| && i < |lc| && lc[i].refs == 0 && !Changing(lc[i])
    && lc' == lc[i := Element(lc[i].number, enr, 1)]
  }

  // lc_get_cumulative: one more user of an extent that is found, or an unused slot
  // that is to be changed to the extent.
  ghost predicate Got(lc: Cache, lc': Cache, enr: nat) {
    Hit(lc, lc', enr) || exists i :: MissAt(lc, lc', enr, i)
  }

  predicate PutBack(lc: Cache, lc': Cache, enr: nat) {
    var i := Lookup(lc, enr);
    i < |lc| && lc[i].refs > 0 && lc' == lc[i := lc[i].(refs := lc[i].refs - 1)]
  }

  // lc_committed
  function AllCommitted(lc: Cache): Cache {
    seq(|lc|, i requires 0 <= i < |lc| => lc[i].(number := lc[i].newNumber))
  }

  lemma LookupUnique(lc: Cache, enr: nat, i: nat)
    requires WellFormed(lc) && i < |lc| && lc[i].newNumber == enr
    ensures Lookup(lc, enr) == i
  {
  }

  // The reference count of one extent goes up by one and of no other; extents that
  // have users stay where they are.
  lemma GotRefs(lc: Cache, lc': Cache, enr: nat, x: nat)
    requires WellFormed(lc) && Got(lc, lc', enr)
    ensures WellFormed(lc') && |lc'| == |lc|
    ensures Refs(lc', x) == Refs(lc, x) + if x == enr then 1 else 0
    ensures Refs(lc, x) > 0 ==> Logged(lc', x) == Logged(lc, x)
  {
    if Hit(lc, lc', enr) {
      HitRefs(lc, lc', enr, x);
    } else {
      var i :| MissAt(lc, lc', enr, i);
      MissRefs(lc, lc', enr, i, x);
    }
  }

  lemma HitRefs(lc: Cache, lc': Cache, enr: nat, x: nat)
    requires WellFormed(lc) && Hit(lc, lc', enr)
    ensures WellFormed(lc') && |lc'| == |lc|
    ensures Refs(lc', x) == Refs(lc, x) + if x == enr then 1 else 0
    ensures Logged(lc', x) == Logged(lc, x)
  {
    SameNumbers(lc, lc', x);
  }

  lemma MissRefs(lc: Cache, lc': Cache, enr: nat, i: nat, x: nat)
    requires WellFormed(lc) && MissAt(lc, lc', enr, i)
    ensures WellFormed(lc') && |lc'| == |lc|
    ensures Refs(lc', x) == Refs(lc, x) + if x == enr then 1 else 0
    ensures Refs(lc, x) > 0 ==> Logged(lc', x) == Logged(lc, x)
  {
    LookupUnique(lc', enr, i);
    var k := Lookup(lc, x);
    if k < |lc| && k != i { LookupUnique(lc', x, k); }
  }

  lemma {:induction false} SameNumbers(lc: Cache, lc': Cache, x: nat)
    requires |lc| == |lc'| && forall i | 0 <= i < |lc| :: lc'[i].newNumber == lc[i].newNumber
    ensures Lookup(lc', x) == Lookup(lc, x)
  {
    if |lc| > 0 && lc[0].newNumber != x {
      SameNumbers(lc[1..], lc'[1..], x);
    }
  }

  lemma PutRefs(lc: Cache, lc': Cache, enr: nat, x: nat)
    requires WellFormed(lc) && PutBack(lc, lc', enr)
    ensures WellFormed(lc') && |lc'| == |lc|
    ensures Refs(lc', x) == Refs(lc, x) - if x == enr then 1 else 0
    ensures Logged(lc', x) == Logged(lc, x)
  {
    SameNumbers(lc, lc', x);
  }

  lemma CommittedRefs(lc: Cache, x: nat)
    requires WellFormed(lc)
    ensures WellFormed(AllCommitted(lc))
    ensures Refs(AllCommitted(lc), x) == Refs(lc, x)
    ensures Logged(AllCommitted(lc), x) <==> Lookup(lc, x) < |lc|
  {
    SameNumbers(lc, AllCommitted(lc), x);
  }

  // One reference on each of the extents [a, b), taken in this order.
  ghost predicate Gets(lc: Cache, lc': Cache, a: nat, b: nat)
    decreases b
  {
    if b <= a then lc' == lc
    else var c: nat := b - 1; exists mid :: Gets(lc, mid, a, c) && Got(mid, lc', c)
  }

  lemma {:induction false} GetsRefs(lc: Cache, lc': Cache, a: nat, b: nat, x: nat)
    requires WellFormed(lc) && Gets(lc, lc', a, b)
    ensures WellFormed(lc') && |lc'| == |lc|
    ensures Refs(lc', x) == Refs(lc, x) + if a <= x < b then 1 else 0
    ensures Refs(lc, x) > 0 ==> Logged(lc', x) == Logged(lc, x)
    decreases b
  {
    hide WellFormed, Refs, Logged, Got;
    if b > a {
      var mid :| Gets(lc, mid, a, b - 1) && Got(mid, lc', b - 1);
      GetsRefs(lc, mid, a, b - 1, x);
      GotRefs(mid, lc', b - 1, x);
    }
  }

  lemma OneMoreGet(lc: Cache, mid: Cache, lc': Cache, a: nat, b: nat)
    requires a <= b && Gets(lc, mid, a, b) && Got(mid, lc', b)
    ensures Gets(lc, lc', a, b + 1)
  {
    var c: nat := b + 1 - 1;
    assert Gets(lc, mid, a, c) && Got(mid, lc', c);
  }

  // One reference on each of the extents [a, b) given back.
  ghost predicate Puts(lc: Cache, lc': Cache, a: nat, b: nat)
    decreases b
  {
    if b <= a then lc' == lc
    else var c: nat := b - 1; exists mid :: Puts(lc, mid, a, c) && PutBack(mid, lc', c)
  }

  lemma {:induction false} PutsRefs(lc: Cache, lc': Cache, a: nat, b: nat, x: nat)
    requires WellFormed(lc) && Puts(lc, lc', a, b)
    ensures WellFormed(lc') && |lc'| == |lc|
    ensures Refs(lc', x) == Refs(lc, x) - if a <= x < b then 1 else 0
    ensures Logged(lc', x) == Logged(lc, x)
    decreases b
  {
    hide WellFormed, Refs, Logged, PutBack;
    if b > a {
      var mid :| Puts(lc, mid, a, b - 1) && PutBack(mid, lc', b - 1);
      PutsRefs(lc, mid, a, b - 1, x);
      PutRefs(mid, lc', b - 1, x);
    }
  }

  lemma OneMorePut(lc: Cache, mid: Cache, lc': Cache, a: nat, b: nat)
    requires a <= b && Puts(lc, mid, a, b) && PutBack(mid, lc', b)
    ensures Puts(lc, lc', a, b + 1)
  {
    var c: nat := b + 1 - 1;
    assert Puts(lc, mid, a, c) && PutBack(mid, lc', c);
  }

  // A write on its way through the log: it touches the extents [first, last];
  // `next` is where to resume an activation that stopped half way, 0 for none.
  class Interval {
    const first: nat
    const last: nat
    var next: nat

    ghost predicate Valid()
      reads this
    {
      first <= last && (next == 0 || first < next <= last)
    }

    // The extents held while waiting are [first, Resume()).
    function Resume(): nat
      reads this
    {
      if next != 0 then next else first
    }
  }

  class Log {
    var lc: Cache
    var pending: nat
    var locked: bool
    const maxPending: nat

    method TryGet(enr: nat) returns (ok: bool)
      modifies `lc
      ensures if ok then TryGot(old(lc), lc, enr) else lc == old(lc)
      ensures ok <==> Logged(old(lc), enr)
    {
      var i := Lookup(lc, enr);
      ok := i < |lc| && !Changing(lc[i]);
      if ok {
        lc := lc[i := lc[i].(refs := lc[i].refs + 1)];
      }
    }

    // The extent is not found, and no slot may be changed to it.
    ghost predicate Refused(enr: nat)
      reads this
    {
      Lookup(lc, enr) == |lc| && (locked || pending >= maxPending || forall k | 0 <= k < |lc| :: lc[k].refs > 0 || Changing(lc[k]))
    }

    // Which unused slot is taken is the business of the cache.
    method GetCumulative(enr: nat) returns (ok: bool)
      modifies `lc, `pending
      ensures if ok then Got(old(lc), lc, enr) else lc == old(lc)
      ensures ok <==> !old(Refused(enr))
      ensures pending == old(pending) + if ok && Lookup(old(lc), enr) == |old(lc)| then 1 else 0
    {
      var i := Lookup(lc, enr);
      if i < |lc| {
        lc := lc[i := lc[i].(refs := lc[i].refs + 1)];
        return true;
      }
      if locked || pending >= maxPending {
        return false;
      }
      var k := 0;
      while k < |lc| && (lc[k].refs > 0 || Changing(lc[k]))
        invariant 0 <= k <= |lc| && forall j | 0 <= j < k :: lc[j].refs > 0 || Changing(lc[j])
      {
        k := k + 1;
      }
      if k == |lc| {
        return false;
      }
      ghost var before := lc;
      lc := lc[k := Element(lc[k].number, enr, 1)];
      pending := pending + 1;
      assert MissAt(before, lc, enr, k);
      return true;
    }

    /** The fast path takes a single extent that is in the log already. */
    method BeginIoFastpath(i: Interval) returns (ok: bool)
      requires i.Valid()
      modifies `lc
      ensures ok <==> i.first == i.last && Logged(old(lc), i.first)
      ensures if ok then TryGot(old(lc), lc, i.first) else lc == old(lc)
    {
      if i.first != i.last {
        return false;
      }
      ok := TryGet(i.first);
    }

    /** Take references from where the last attempt stopped.  On failure the references
     *  taken so far are kept, and `next` says how far they reach.
     */
    method BeginIoNonblock(i: Interval) returns (ok: bool)
      requires i.Valid()
      modifies `lc, `pending, i`next
      ensures i.Valid()
      ensures Gets(old(lc), lc, old(i.Resume()), if ok then i.last + 1 else i.Resume())
      ensures old(i.Resume()) <= i.Resume() && (!ok ==> Refused(i.Resume()))
    {
      var first := i.Resume();
      var enr := first;
      while enr <= i.last
        invariant first <= enr <= i.last + 1
        invariant Gets(old(lc), lc, first, enr)
        invariant i.next == old(i.next)
      {
        ghost var before := lc;
        var got := GetCumulative(enr);
        if !got {
          if enr > first {
            i.next := enr;
          }
          return false;
        }
        OneMoreGet(old(lc), before, lc, first, enr);
        enr := enr + 1;
      }
      return true;
    }

    /** Give back one reference for each extent; one that has no user is passed over.  With a
     *  user for each of them none is.
     */
    method PutActlog(first: nat, last: nat) returns (wake: bool)
      requires WellFormed(lc)
      modifies `lc
      ensures WellFormed(lc)
      ensures forall x: nat :: Refs(lc, x) == Refs(old(lc), x) - if first <= x <= last && Refs(old(lc), x) > 0 then 1 else 0
      ensures (forall x: nat | first <= x <= last :: Refs(old(lc), x) > 0) ==> Puts(old(lc), lc, first, last + 1)
      ensures wake <==> exists x: nat :: first <= x <= last && Refs(old(lc), x) == 1
    {
      hide WellFormed, Puts, Refs;
      wake := false;
      var enr := first;
      assert Puts(lc, lc, first, first) by { NoPuts(lc, first, first); }
      while enr <= last
        invariant first <= enr && (enr <= last + 1 || enr == first) && (enr == first ==> lc == old(lc)) && WellFormed(lc)
        invariant forall x: nat :: Refs(lc, x) == Refs(old(lc), x) - if first <= x < enr && Refs(old(lc), x) > 0 then 1 else 0
        invariant (forall x: nat | first <= x < enr :: Refs(old(lc), x) > 0) ==> Puts(old(lc), lc, first, enr)
        invariant wake <==> exists x: nat :: first <= x < enr && Refs(old(lc), x) == 1
      {
        ghost var before := lc;
        var i := Lookup(lc, enr);
        RefsAt(lc, enr);
        if i < |lc| && lc[i].refs > 0 {
          lc := lc[i := lc[i].(refs := lc[i].refs - 1)];
          if lc[i].refs == 0 {
            wake := true;
          }
          assert PutBack(before, lc, enr);
          if Puts(old(lc), before, first, enr) { OneMorePut(old(lc), before, lc, first, enr); }
          PutRefs(before, lc, enr, enr);
          forall x: nat ensures Refs(lc, x) == Refs(before, x) - if x == enr then 1 else 0 {
            PutRefs(before, lc, enr, x);
          }
        }
        enr := enr + 1;
      }
      if last + 1 < first { NoPuts(lc, first, last + 1); }
    }
  }

  lemma NoPuts(lc: Cache, a: nat, b: nat)
    requires b <= a
    ensures Puts(lc, lc, a, b)
  {
  }

  lemma RefsAt(lc: Cache, enr: nat)
    ensures Refs(lc, enr) == if Lookup(lc, enr) < |lc| then lc[Lookup(lc, enr)].refs else 0
  {
  }
}
