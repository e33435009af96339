/** Data generations: the current UUID, one bitmap UUID per peer, and a short history.
 *
 * Two nodes find out how their data are related by comparing these.  So a UUID that was
 * in use has to stay somewhere, until the history is full.
 */
module Uuids {

  const UUID_JUST_CREATED: nat := 4
  const UUID_PRIMARY: nat := 1

  // A UUID without the flag of a primary, which is its lowest bit.
  function Base(v: nat): nat {
    v - v % 2
  }

  predicate Real(v: nat) {
    v != 0 && v != UUID_JUST_CREATED && v % 2 == 0
  }

  // `lost` are those that fell out of the history.
  datatype Md = Md(current: nat, self: nat, peers: seq<nat>, history: seq<nat>, lost: set<nat>)

  predicate WithPeer(md: Md, u: nat) {
    exists n :: 0 <= n < |md.peers| && n != md.self && Base(md.peers[n]) == u
  }

  predicate InHistory(md: Md, u: nat) {
    exists i :: 0 <= i < |md.history| && md.history[i] == u
  }

  /** The UUID is current, or with a peer, or in the history. */
  predicate Known(md: Md, u: nat) {
    Base(md.current) == u || WithPeer(md, u) || InHistory(md, u)
  }

  predicate Pushes(md: Md, val: nat) {
    val != UUID_JUST_CREATED && val != 0 && !Known(md, Base(val))
  }

  // _drbd_uuid_push_history()
  function Pushed(md: Md, val: nat): Md {
    if Pushes(md, val) && |md.history| > 0 then
      var last := md.history[|md.history| - 1];
      md.(history := [Base(val)] + md.history[..|md.history| - 1],
          lost := if last == 0 then md.lost else md.lost + {last})
    else md
  }

  ghost predicate Packed(history: seq<nat>) {
    forall i, j | 0 <= i < j < |history| && history[i] == 0 :: history[j] == 0
  }

  ghost predicate Distinct(history: seq<nat>) {
    forall i, j | 0 <= i < j < |history| && history[i] == history[j] :: history[i] == 0
  }

  ghost predicate Tidy(md: Md) {
    |md.history| > 0 && Distinct(md.history)
  }

  /** Whatever was known is known, or fell out of the history. */
  ghost predicate Conserves(md: Md, md': Md) {
    && md'.self == md.self && |md'.peers| == |md.peers| && |md'.history| == |md.history|
    && md.lost <= md'.lost
    && forall u | Real(u) && Known(md, u) :: Known(md', u) || u in md'.lost
  }

  lemma PushKeepsOne(md: Md, val: nat, u: nat)
    requires |md.history| > 0 && Known(md, u)
    ensures Known(Pushed(md, val), u) || u == 0 || u in Pushed(md, val).lost
  {
    var md' := Pushed(md, val);
    if Pushes(md, val) {
      var n := |md.history| - 1;
      if i :| 0 <= i < |md.history| && md.history[i] == u {
        if i < n { assert md'.history[i + 1] == u; }
      }
      if WithPeer(md, u) {
        var p :| 0 <= p < |md.peers| && p != md.self && Base(md.peers[p]) == u;
        assert md'.peers[p] == md.peers[p];
      }
    }
  }

  /** Pushing conserves, and what is pushed is known; no entry comes up twice. */
  lemma PushKeeps(md: Md, val: nat)
    requires Tidy(md)
    ensures Conserves(md, Pushed(md, val)) && Tidy(Pushed(md, val))
    ensures Real(Base(val)) && val != UUID_JUST_CREATED ==> Known(Pushed(md, val), Base(val))
    ensures forall u | u in Pushed(md, val).lost && u !in md.lost :: u == md.history[|md.history| - 1] && Pushes(md, val)
  {
    hide Known;
    var md' := Pushed(md, val);
    forall u | Real(u) && Known(md, u) ensures Known(md', u) || u in md'.lost { PushKeepsOne(md, val, u); }
    PushedKnown(md, val);
    PushedDistinct(md, val);
  }

  lemma PushedKnown(md: Md, val: nat)
    requires |md.history| > 0
    ensures Real(Base(val)) ==> Known(Pushed(md, val), Base(val))
  {
    if Pushes(md, val) { assert Pushed(md, val).history[0] == Base(val); }
  }

  lemma PushedDistinct(md: Md, val: nat)
    requires Tidy(md)
    ensures Distinct(Pushed(md, val).history)
  {
    var md' := Pushed(md, val);
    if Pushes(md, val) {
      assert forall i | 0 <= i < |md.history| :: md.history[i] != Base(val);
      assert forall i | 0 < i < |md'.history| :: md'.history[i] == md.history[i - 1];
    }
  }

  /** The history stays packed, unless the bare flag is pushed while there is no zero anywhere. */
  lemma PushPacked(md: Md, val: nat)
    requires Packed(md.history) && |md.history| > 1
    ensures Packed(Pushed(md, val).history) <==> !(val == UUID_PRIMARY && !Known(md, 0))
  {
    var md' := Pushed(md, val);
    if Pushes(md, val) {
      var n := |md.history| - 1;
      assert forall i | 0 < i <= n :: md'.history[i] == md.history[i - 1];
      if val == UUID_PRIMARY {
        assert md'.history[0] == 0 && md'.history[1] == md.history[0];
      }
    }
  }

  // All bitmap UUIDs and all history entries are in use.
  const FULL := Md(8, 0, seq(32, n => 1000 + 2 * n), seq(32, i => 100 + 2 * i), {})

  /** One such history: the bare flag is pushed, and leaves a zero in front of all entries. */
  lemma BareFlagPushed()
    ensures Packed(FULL.history) && !Packed(Pushed(FULL, UUID_PRIMARY).history)
    ensures Pushed(FULL, UUID_PRIMARY).history[..2] == [0, 100]
  {
    PushPacked(FULL, UUID_PRIMARY);
    var md := Pushed(FULL, UUID_PRIMARY);
    assert md.history[0] == 0 && md.history[1] == 100;
  }

  // ---- replacing bitmap UUIDs ----

  function WithSlot(md: Md, n: nat, uuid: nat): Md
    requires n < |md.peers|
  {
    md.(peers := md.peers[n := uuid])
  }

  // Only the UUID of the slot may go.
  lemma SlotKeeps(md: Md, n: nat, uuid: nat, u: nat)
    requires n < |md.peers| && Known(md, u)
    ensures Known(WithSlot(md, n, uuid), u) || (n != md.self && u == Base(md.peers[n]))
  {
    var md' := WithSlot(md, n, uuid);
    if WithPeer(md, u) {
      var p :| 0 <= p < |md.peers| && p != md.self && Base(md.peers[p]) == u;
      if p != n { assert md'.peers[p] == md.peers[p]; }
    }
  }

  // drbd_uuid_set_bitmap()
  function Replaced(md: Md, n: nat, uuid: nat): Md
    requires n < |md.peers|
  {
    Pushed(WithSlot(md, n, uuid), md.peers[n])
  }

  lemma ReplaceKeeps(md: Md, n: nat, uuid: nat)
    requires Tidy(md) && n < |md.peers|
    ensures Conserves(md, Replaced(md, n, uuid)) && Tidy(Replaced(md, n, uuid))
  {
    hide Known, Pushed;
    var md1 := WithSlot(md, n, uuid);
    PushKeeps(md1, md.peers[n]);
    forall u | Real(u) && Known(md, u) ensures Known(Replaced(md, n, uuid), u) || u in Replaced(md, n, uuid).lost {
      SlotKeeps(md, n, uuid, u);
    }
  }

  // __set_bitmap_slots(), for the node ids below `k`
  function SlotsSet(md: Md, val: nat, nodes: set<nat>, k: nat): Md
    requires k <= |md.peers|
    ensures |SlotsSet(md, val, nodes, k).peers| == |md.peers| && SlotsSet(md, val, nodes, k).self == md.self
  {
    if k == 0 then md
    else
      var md1 := SlotsSet(md, val, nodes, k - 1);
      var n := k - 1;
      if n != md.self && n in nodes && md1.peers[n] != val then Replaced(md1, n, val) else md1
  }

  lemma {:induction false} SlotsKeep(md: Md, val: nat, nodes: set<nat>, k: nat)
    requires Tidy(md) && k <= |md.peers|
    ensures Conserves(md, SlotsSet(md, val, nodes, k)) && Tidy(SlotsSet(md, val, nodes, k))
    ensures SlotsSet(md, val, nodes, k).current == md.current
  {
    hide Known, Pushed;
    if k > 0 {
      SlotsKeep(md, val, nodes, k - 1);
      var md1 := SlotsSet(md, val, nodes, k - 1);
      ReplaceKeeps(md1, k - 1, val);
      PushedCurrent(WithSlot(md1, k - 1, val), md1.peers[k - 1]);
    }
  }

  lemma PushedCurrent(md: Md, val: nat)
    ensures Pushed(md, val).current == md.current
  {
  }

  // ---- a new current UUID ----

  // rotate_current_into_bitmap(), for the node ids below `k`; `chosen` are the peers that
  // may miss writes from now on.
  function Rotated(md: Md, uuid: nat, chosen: set<nat>, k: nat): Md
    requires k <= |md.peers|
    ensures |Rotated(md, uuid, chosen, k).peers| == |md.peers|
    ensures Rotated(md, uuid, chosen, k) == md.(peers := Rotated(md, uuid, chosen, k).peers)
  {
    if k == 0 then md
    else
      var md1 := Rotated(md, uuid, chosen, k - 1);
      var n := k - 1;
      if n != md.self && n in chosen && (md1.peers[n] == 0 || md1.peers[n] == uuid) then WithSlot(md1, n, uuid) else md1
  }

  lemma {:induction false} RotateKeeps(md: Md, uuid: nat, chosen: set<nat>, k: nat)
    requires Tidy(md) && k <= |md.peers|
    ensures Conserves(md, Rotated(md, uuid, chosen, k)) && Tidy(Rotated(md, uuid, chosen, k))
  {
    hide Known;
    if k > 0 {
      RotateKeeps(md, uuid, chosen, k - 1);
      var md1, n := Rotated(md, uuid, chosen, k - 1), k - 1;
      var md' := Rotated(md, uuid, chosen, k);
      forall u | Real(u) && Known(md1, u) ensures Known(md', u) {
        SlotKeeps(md1, n, uuid, u);
        if md1.peers[n] == uuid { assert WithSlot(md1, n, uuid) == md1; }
      }
    }
  }

  function NewCurrent(val: nat, primary: bool): nat {
    if primary then Base(val) + UUID_PRIMARY else Base(val)
  }

  // drbd_uuid_received_new_current(), if the current UUID is to be set
  function Received(md: Md, val: nat, primary: bool, upToDate: bool, chosen: set<nat>, random: nat, slots: set<nat>): Md {
    var previous := if md.current != UUID_JUST_CREATED then md.current else random;
    var md1 := if upToDate then Rotated(md, previous, chosen, |md.peers|) else md;
    var md2 := SlotsSet(md1, val, slots, |md1.peers|);
    Pushed(md2.(current := NewCurrent(val, primary)), md.current)
  }

  /** Taking over a new current UUID conserves all, the old current one included. */
  lemma ReceivedKeeps(md: Md, val: nat, primary: bool, upToDate: bool, chosen: set<nat>, random: nat, slots: set<nat>)
    requires Tidy(md)
    ensures var md' := Received(md, val, primary, upToDate, chosen, random, slots);
            Conserves(md, md') && Tidy(md') && Known(md', Base(val)) && md'.current == NewCurrent(val, primary)
  {
    hide Known, Pushed, SlotsSet, Rotated;
    var previous := if md.current != UUID_JUST_CREATED then md.current else random;
    var md1 := if upToDate then Rotated(md, previous, chosen, |md.peers|) else md;
    RotateKeeps(md, previous, chosen, |md.peers|);
    assert Conserves(md, md);
    var md2 := SlotsSet(md1, val, slots, |md1.peers|);
    SlotsKeep(md1, val, slots, |md1.peers|);
    var md3 := md2.(current := NewCurrent(val, primary));
    var md4 := Pushed(md3, md.current);
    PushKeeps(md3, md.current);
    forall u | Real(u) && Known(md, u) ensures Known(md4, u) || u in md4.lost {
      if Known(md2, u) { CurrentReplaced(md2, NewCurrent(val, primary), u); }
    }
    PushedCurrent(md3, md.current);
    CurrentKnown(md4);
  }

  lemma CurrentReplaced(md: Md, current: nat, u: nat)
    requires Known(md, u)
    ensures Known(md.(current := current), u) || u == Base(md.current)
  {
    var md' := md.(current := current);
    if WithPeer(md, u) {
      var p :| 0 <= p < |md.peers| && p != md.self && Base(md.peers[p]) == u;
      assert md'.peers[p] == md.peers[p];
    } else if InHistory(md, u) {
      var i :| 0 <= i < |md.history| && md.history[i] == u;
      assert md'.history[i] == u;
    }
  }

  lemma CurrentKnown(md: Md)
    ensures Known(md, Base(md.current))
  {
  }

  // ---- runs ----

  datatype Op =
    | SetBitmap(n: nat, uuid: nat)
    | ReceiveCurrent(val: nat, primary: bool, upToDate: bool, chosen: set<nat>, random: nat, slots: set<nat>)

  function Apply(md: Md, op: Op): Md {
    match op
    case SetBitmap(n, uuid) => if n < |md.peers| && n != md.self then Replaced(md, n, uuid) else md
    case ReceiveCurrent(val, primary, upToDate, chosen, random, slots) =>
      Received(md, val, primary, upToDate, chosen, random, slots)
  }

  function Run(md: Md, ops: seq<Op>): Md {
    if |ops| == 0 then md else Apply(Run(md, ops[..|ops| - 1]), ops[|ops| - 1])
  }

  /** Over any sequence of such changes every UUID that was in use at any time is known at the
   *  end, or fell out of a full history; and the history holds none twice.
   */
  lemma {:induction false} UuidsConserved(md: Md, ops: seq<Op>, n: nat)
    requires Tidy(md) && n <= |ops|
    ensures Conserves(Run(md, ops[..n]), Run(md, ops)) && Tidy(Run(md, ops)) && Tidy(Run(md, ops[..n]))
    decreases |ops|
  {
    hide Known, Apply;
    if n == |ops| {
      assert ops[..n] == ops;
      if |ops| > 0 {
        UuidsConserved(md, ops[..|ops| - 1], 0);
        ApplyKeeps(Run(md, ops[..|ops| - 1]), ops[|ops| - 1]);
      }
    } else {
      var before := ops[..|ops| - 1];
      UuidsConserved(md, before, n);
      assert before[..n] == ops[..n];
      ApplyKeeps(Run(md, before), ops[|ops| - 1]);
    }
  }

  lemma ApplyKeeps(md: Md, op: Op)
    requires Tidy(md)
    ensures Conserves(md, Apply(md, op)) && Tidy(Apply(md, op))
  {
    hide Known, Received, Replaced;
    assert Conserves(md, md);
    match op
    case SetBitmap(n, uuid) => if n < |md.peers| { ReplaceKeeps(md, n, uuid); }
    case ReceiveCurrent(val, primary, upToDate, chosen, random, slots) =>
      ReceivedKeeps(md, val, primary, upToDate, chosen, random, slots);
  }

  // No UUID consists of the flag alone.
  predicate Clean(md: Md) {
    md.current != UUID_PRIMARY && forall n | 0 <= n < |md.peers| :: md.peers[n] != UUID_PRIMARY
  }

  predicate CleanOp(op: Op) {
    match op
    case SetBitmap(_, uuid) => uuid != UUID_PRIMARY
    case ReceiveCurrent(val, primary, _, _, random, _) => val != UUID_PRIMARY && random != UUID_PRIMARY && Base(val) != 0
  }

  lemma PushClean(md: Md, val: nat)
    requires Packed(md.history) && val != UUID_PRIMARY
    ensures Packed(Pushed(md, val).history) && (Clean(md) ==> Clean(Pushed(md, val)))
  {
    var md' := Pushed(md, val);
    if Pushes(md, val) && |md.history| > 0 {
      assert forall i | 0 < i < |md'.history| :: md'.history[i] == md.history[i - 1];
    }
  }

  lemma {:induction false} SlotsClean(md: Md, val: nat, nodes: set<nat>, k: nat)
    requires k <= |md.peers| && Packed(md.history) && Clean(md) && val != UUID_PRIMARY
    ensures Packed(SlotsSet(md, val, nodes, k).history) && Clean(SlotsSet(md, val, nodes, k))
  {
    hide Pushed;
    if k > 0 {
      SlotsClean(md, val, nodes, k - 1);
      var md1 := SlotsSet(md, val, nodes, k - 1);
      PushClean(WithSlot(md1, k - 1, val), md1.peers[k - 1]);
    }
  }

  lemma {:induction false} RotateClean(md: Md, uuid: nat, chosen: set<nat>, k: nat)
    requires k <= |md.peers| && Clean(md) && uuid != UUID_PRIMARY
    ensures Clean(Rotated(md, uuid, chosen, k))
  {
    if k > 0 { RotateClean(md, uuid, chosen, k - 1); }
  }

  lemma ApplyClean(md: Md, op: Op)
    requires Packed(md.history) && Clean(md) && CleanOp(op)
    ensures Packed(Apply(md, op).history) && Clean(Apply(md, op))
  {
    hide Pushed, SlotsSet, Rotated;
    match op
    case SetBitmap(n, uuid) =>
      if n < |md.peers| { PushClean(WithSlot(md, n, uuid), md.peers[n]); }
    case ReceiveCurrent(val, primary, upToDate, chosen, random, slots) =>
      var previous := if md.current != UUID_JUST_CREATED then md.current else random;
      var md1 := if upToDate then Rotated(md, previous, chosen, |md.peers|) else md;
      RotateClean(md, previous, chosen, |md.peers|);
      SlotsClean(md1, val, slots, |md1.peers|);
      var md2 := SlotsSet(md1, val, slots, |md1.peers|);
      PushClean(md2.(current := NewCurrent(val, primary)), md.current);
  }

  /** And unless a bare flag is handed in, the entries of the history stay packed. */
  lemma {:induction false} HistoryPacked(md: Md, ops: seq<Op>)
    requires Packed(md.history) && Clean(md) && forall i | 0 <= i < |ops| :: CleanOp(ops[i])
    ensures Packed(Run(md, ops).history) && Clean(Run(md, ops))
    decreases |ops|
  {
    hide Apply, CleanOp;
    if |ops| > 0 {
      HistoryPacked(md, ops[..|ops| - 1]);
      ApplyClean(Run(md, ops[..|ops| - 1]), ops[|ops| - 1]);
    }
  }

  // ---- the meta data ----

  class MetaData {
    const self: nat
    var current: nat
    var peers: array<nat>      // bitmap_uuid, by node id
    var history: array<nat>
    ghost var lost: set<nat>

    ghost predicate Valid()
      reads this
    {
      history.Length > 0 && history != peers
    }

    ghost function View(): Md
      reads this, peers, history
    {
      Md(current, self, peers[..], history[..], lost)
    }

    // Is the UUID current, or with a peer, or in the history?
    method IsKnown(u: nat) returns (known: bool)
      ensures known == Known(View(), u)
    {
      if u == Base(current) { return true; }
      for n := 0 to peers.Length
        invariant forall p | 0 <= p < n && p != self :: Base(peers[p]) != u
      {
        if n != self && u == Base(peers[n]) {
          assert View().peers[n] == peers[n];
          return true;
        }
      }
      for i := 0 to history.Length
        invariant forall k | 0 <= k < i :: history[k] != u
      {
        if history[i] == u {
          assert View().history[i] == u;
          return true;
        }
      }
      known := false;
    }

    // Make room at the front of the history.
    method Shift(val: nat)
      requires history.Length > 0
      modifies history
      ensures history[..] == [val] + old(history[..])[..history.Length - 1]
    {
      var i := history.Length - 1;
      while i > 0
        invariant 0 <= i < history.Length
        invariant forall k | 0 <= k <= i :: history[k] == old(history[k])
        invariant forall k | i < k < history.Length :: history[k] == old(history[k - 1])
      {
        history[i] := history[i - 1];
        i := i - 1;
      }
      history[i] := val;
    }

    method PushHistory(val: nat)
      requires Valid()
      modifies history, this`lost
      ensures View() == Pushed(old(View()), val)
    {
      hide Known;
      if val == UUID_JUST_CREATED || val == 0 { return; }
      var known := IsKnown(Base(val));
      if known { return; }
      ghost var before := View();
      ghost var last := history[history.Length - 1];
      Shift(Base(val));
      lost := if last == 0 then lost else lost + {last};
      assert peers[..] == before.peers;
    }

    method SetBitmap(n: nat, uuid: nat)
      requires Valid() && n < peers.Length
      modifies peers, history, this`lost
      ensures View() == Replaced(old(View()), n, uuid)
    {
      var previous := peers[n];
      peers[n] := uuid;
      assert View() == WithSlot(old(View()), n, uuid);
      if previous != 0 { PushHistory(previous); }
    }

    method SetBitmapSlots(val: nat, nodes: set<nat>)
      requires Valid()
      modifies peers, history, this`lost
      ensures View() == SlotsSet(old(View()), val, nodes, peers.Length)
    {
      hide Pushed;
      for n := 0 to peers.Length
        invariant View() == SlotsSet(old(View()), val, nodes, n)
      {
        if n != self && n in nodes && peers[n] != val {
          SetBitmap(n, val);
        }
      }
    }

    method RotateCurrent(uuid: nat, chosen: set<nat>)
      requires Valid()
      modifies peers
      ensures View() == Rotated(old(View()), uuid, chosen, peers.Length)
    {
      for n := 0 to peers.Length
        invariant View() == Rotated(old(View()), uuid, chosen, n)
      {
        if n != self && n in chosen && (peers[n] == 0 || peers[n] == uuid) {
          ghost var before := View();
          peers[n] := uuid;
          assert View() == WithSlot(before, n, uuid);
        }
      }
    }

    method ReceivedNewCurrent(val: nat, primary: bool, upToDate: bool, chosen: set<nat>, random: nat, slots: set<nat>)
      requires Valid()
      modifies this`current, this`lost, peers, history
      ensures View() == Received(old(View()), val, primary, upToDate, chosen, random, slots)
    {
      hide Pushed, SlotsSet, Rotated;
      var old_ := current;
      if upToDate { RotateCurrent(if current != UUID_JUST_CREATED then current else random, chosen); }
      SetBitmapSlots(val, slots);
      current := NewCurrent(val, primary);
      // also if no slot got it: a peer may still have it as its current one
      PushHistory(old_);
    }
  }
}
