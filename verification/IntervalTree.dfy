/** The tree of request intervals: ordered by start sector and identity, with the highest
 *  end of each subtree noted at its root.
 *
 * Nodes are values; a pointer that walks down is a subtree together with the path to it.
 * Balancing is done by the kernel's red-black trees; here any rotations may be made.
 */
module IntervalTree {
  import opened Wrappers

  /** `size` is in bytes; `id` stands for the address. */
  datatype Interval = Interval(sector: nat, size: nat, id: nat)

  function End(i: Interval): nat {
    i.sector + i.size / 512
  }

  datatype Tree = Leaf | Node(left: Tree, i: Interval, end: nat, right: Tree)

  function InOrder(t: Tree): seq<Interval> {
    match t
    case Leaf => []
    case Node(left, i, _, right) => InOrder(left) + [i] + InOrder(right)
  }

  predicate Less(a: Interval, b: Interval) {
    a.sector < b.sector || (a.sector == b.sector && a.id < b.id)
  }

  ghost predicate Sorted(s: seq<Interval>) {
    forall i, j | 0 <= i < j < |s| :: Less(s[i], s[j])
  }

  function Max(a: nat, b: nat): nat {
    if a < b then b else a
  }

  function MaxEnd(t: Tree): nat {
    if t.Leaf? then 0 else t.end
  }

  // What RB_DECLARE_CALLBACKS_MAX computes for a node from its children.
  function Computed(left: Tree, i: Interval, right: Tree): nat {
    Max(End(i), Max(MaxEnd(left), MaxEnd(right)))
  }

  predicate Augmented(t: Tree) {
    t.Node? ==> Augmented(t.left) && Augmented(t.right) && t.end == Computed(t.left, t.i, t.right)
  }

  ghost predicate Valid(t: Tree) {
    Sorted(InOrder(t)) && Augmented(t)
  }

  /** The note at the root is the highest end of all intervals below. */
  lemma {:induction false} HighestEnd(t: Tree)
    requires Augmented(t)
    ensures forall a | a in InOrder(t) :: End(a) <= MaxEnd(t)
    ensures t.Node? ==> exists a :: a in InOrder(t) && End(a) == MaxEnd(t)
  {
    if t.Node? {
      HighestEnd(t.left);
      HighestEnd(t.right);
      assert t.i in InOrder(t);
      if t.end == End(t.i) {
      } else if t.end == MaxEnd(t.left) {
        var a :| a in InOrder(t.left) && End(a) == MaxEnd(t.left);
        assert a in InOrder(t);
      } else {
        var a :| a in InOrder(t.right) && End(a) == MaxEnd(t.right);
        assert a in InOrder(t);
      }
    }
  }

  // ---- rotations ----

  function RotateRight(t: Tree): Tree {
    if t.Node? && t.left.Node? then
      var low := Node(t.left.right, t.i, Computed(t.left.right, t.i, t.right), t.right);
      Node(t.left.left, t.left.i, t.end, low)
    else t
  }

  function RotateLeft(t: Tree): Tree {
    if t.Node? && t.right.Node? then
      var low := Node(t.left, t.i, Computed(t.left, t.i, t.right.left), t.right.left);
      Node(low, t.right.i, t.end, t.right.right)
    else t
  }

  /** Rotations keep the order and the notes. */
  lemma RotatedRight(t: Tree)
    ensures InOrder(RotateRight(t)) == InOrder(t)
    ensures Augmented(t) ==> Augmented(RotateRight(t))
  {
    if t.Node? && t.left.Node? {
      assert InOrder(RotateRight(t)) == InOrder(t.left.left) + [t.left.i] + (InOrder(t.left.right) + [t.i] + InOrder(t.right));
      if Augmented(t) {
        assert Augmented(t.left);
        assert Augmented(RotateRight(t).right);
      }
    }
  }

  lemma RotatedLeft(t: Tree)
    ensures InOrder(RotateLeft(t)) == InOrder(t)
    ensures Augmented(t) ==> Augmented(RotateLeft(t))
  {
    if t.Node? && t.right.Node? {
      assert InOrder(RotateLeft(t)) == (InOrder(t.left) + [t.i] + InOrder(t.right.left)) + [t.right.i] + InOrder(t.right.right);
      if Augmented(t) {
        assert Augmented(t.right);
        assert Augmented(RotateLeft(t).left);
      }
    }
  }

  // A rotation at the node that one reaches by going left (true) or right.
  datatype Turn = Turn(to: seq<bool>, right: bool)

  function TurnedAt(t: Tree, to: seq<bool>, right: bool): Tree
    decreases |to|
  {
    if t.Leaf? then t
    else if to == [] then if right then RotateRight(t) else RotateLeft(t)
    else if to[0] then t.(left := TurnedAt(t.left, to[1..], right))
    else t.(right := TurnedAt(t.right, to[1..], right))
  }

  function Rebalanced(t: Tree, turns: seq<Turn>): Tree
    decreases |turns|
  {
    if turns == [] then t else Rebalanced(TurnedAt(t, turns[0].to, turns[0].right), turns[1..])
  }

  lemma {:induction false} TurnKeeps(t: Tree, to: seq<bool>, right: bool)
    ensures InOrder(TurnedAt(t, to, right)) == InOrder(t)
    ensures MaxEnd(TurnedAt(t, to, right)) == MaxEnd(t)
    ensures Augmented(t) ==> Augmented(TurnedAt(t, to, right))
    decreases |to|
  {
    if t.Node? {
      if to == [] {
        RotatedRight(t);
        RotatedLeft(t);
      } else if to[0] {
        TurnKeeps(t.left, to[1..], right);
      } else {
        TurnKeeps(t.right, to[1..], right);
      }
    }
  }

  /** Whatever rotations the balancing chooses, wherever in the tree. */
  lemma {:induction false} RebalancingKeeps(t: Tree, turns: seq<Turn>)
    requires Valid(t)
    ensures Valid(Rebalanced(t, turns)) && InOrder(Rebalanced(t, turns)) == InOrder(t)
    decreases |turns|
  {
    hide InOrder, Sorted, Augmented;
    if turns != [] {
      TurnKeeps(t, turns[0].to, turns[0].right);
      RebalancingKeeps(TurnedAt(t, turns[0].to, turns[0].right), turns[1..]);
    }
  }

  // ---- paths ----

  datatype Crumb = WentLeft(i: Interval, end: nat, right: Tree) | WentRight(left: Tree, i: Interval, end: nat)

  function Fill(c: Crumb, t: Tree): Tree {
    match c
    case WentLeft(i, end, right) => Node(t, i, end, right)
    case WentRight(left, i, end) => Node(left, i, end, t)
  }

  // The whole tree, from a subtree and the path to it.
  function Plug(path: seq<Crumb>, t: Tree): Tree
    decreases |path|
  {
    if |path| == 0 then t else Plug(path[..|path| - 1], Fill(path[|path| - 1], t))
  }

  function Prefix(path: seq<Crumb>): seq<Interval> {
    if |path| == 0 then []
    else
      var c := path[|path| - 1];
      Prefix(path[..|path| - 1]) + if c.WentRight? then InOrder(c.left) + [c.i] else []
  }

  function Suffix(path: seq<Crumb>): seq<Interval> {
    if |path| == 0 then []
    else
      var c := path[|path| - 1];
      (if c.WentLeft? then [c.i] + InOrder(c.right) else []) + Suffix(path[..|path| - 1])
  }

  lemma {:induction false} PlugInOrder(path: seq<Crumb>, t: Tree)
    ensures InOrder(Plug(path, t)) == Prefix(path) + InOrder(t) + Suffix(path)
    decreases |path|
  {
    if |path| > 0 {
      var c := path[|path| - 1];
      var rest := path[..|path| - 1];
      PlugInOrder(rest, Fill(c, t));
      if c.WentLeft? {
        Regroup(Prefix(rest), [], InOrder(t), [c.i] + InOrder(c.right), Suffix(rest));
        assert InOrder(Fill(c, t)) == [] + InOrder(t) + ([c.i] + InOrder(c.right));
      } else {
        Regroup(Prefix(rest), InOrder(c.left) + [c.i], InOrder(t), [], Suffix(rest));
        assert InOrder(Fill(c, t)) == (InOrder(c.left) + [c.i]) + InOrder(t) + [];
      }
    }
  }

  function Raised(c: Crumb, e: nat): Crumb {
    c.(end := Max(c.end, e))
  }

  function AllRaised(path: seq<Crumb>, e: nat): seq<Crumb> {
    seq(|path|, k requires 0 <= k < |path| => Raised(path[k], e))
  }

  lemma {:induction false} RaisedSame(path: seq<Crumb>, e: nat)
    ensures Prefix(AllRaised(path, e)) == Prefix(path) && Suffix(AllRaised(path, e)) == Suffix(path)
  {
    if |path| > 0 {
      RaisedSame(path[..|path| - 1], e);
      assert AllRaised(path, e)[..|path| - 1] == AllRaised(path[..|path| - 1], e);
    }
  }

  // Raising the notes along the path accounts for one more interval that ends at `e`.
  lemma {:induction false} RaisedAugmented(path: seq<Crumb>, t: Tree, t': Tree, e: nat)
    requires Augmented(Plug(path, t)) && Augmented(t') && MaxEnd(t') == Max(MaxEnd(t), e)
    ensures Augmented(Plug(AllRaised(path, e), t'))
    decreases |path|
  {
    if |path| > 0 {
      var n := |path| - 1;
      var c := path[n];
      AugmentedInside(path[..n], Fill(c, t));
      RaisedAugmented(path[..n], Fill(c, t), Fill(Raised(c, e), t'), e);
      assert AllRaised(path, e)[..n] == AllRaised(path[..n], e);
    }
  }

  lemma {:induction false} AugmentedInside(path: seq<Crumb>, t: Tree)
    requires Augmented(Plug(path, t))
    ensures Augmented(t)
    decreases |path|
  {
    if |path| > 0 { AugmentedInside(path[..|path| - 1], Fill(path[|path| - 1], t)); }
  }

  // ---- insertion ----

  ghost predicate Around(path: seq<Crumb>, x: Interval) {
    (forall a | a in Prefix(path) :: Less(a, x)) && (forall a | a in Suffix(path) :: Less(x, a))
  }

  lemma Descend(path: seq<Crumb>, node: Tree, x: Interval)
    requires node.Node? && Sorted(InOrder(Plug(path, node))) && Around(path, x)
    ensures Less(x, node.i) ==> Around(path + [WentLeft(node.i, node.end, node.right)], x)
                                && Plug(path + [WentLeft(node.i, node.end, node.right)], node.left) == Plug(path, node)
    ensures Less(node.i, x) ==> Around(path + [WentRight(node.left, node.i, node.end)], x)
                                && Plug(path + [WentRight(node.left, node.i, node.end)], node.right) == Plug(path, node)
    ensures forall a | a in InOrder(node.left) :: Less(a, node.i)
    ensures forall a | a in InOrder(node.right) :: Less(node.i, a)
  {
    PlugInOrder(path, node);
    SortedParts(Prefix(path), InOrder(node.left), node.i, InOrder(node.right), Suffix(path));
    var l, r := WentLeft(node.i, node.end, node.right), WentRight(node.left, node.i, node.end);
    assert (path + [l])[..|path|] == path && (path + [r])[..|path|] == path;
  }

  lemma SortedParts(p: seq<Interval>, a: seq<Interval>, i: Interval, b: seq<Interval>, s: seq<Interval>)
    requires Sorted(p + (a + [i] + b) + s)
    ensures (forall x | x in a :: Less(x, i)) && (forall x | x in b :: Less(i, x))
  {
    var all := p + (a + [i] + b) + s;
    var k := |p| + |a|;
    assert all[k] == i;
    forall x | x in a ensures Less(x, i) {
      var n :| 0 <= n < |a| && a[n] == x;
      assert all[|p| + n] == x;
    }
    forall x | x in b ensures Less(i, x) {
      var n :| 0 <= n < |b| && b[n] == x;
      assert all[k + 1 + n] == x;
    }
  }

  /** Insert an interval; the notes on the way down are raised, and the rotations `turns` are
   *  made.  Returns false, with the tree as it was, if and only if the interval is there already.
   */
  method Insert(t: Tree, x: Interval, turns: seq<Turn>) returns (t': Tree, ok: bool)
    requires Valid(t)
    ensures Valid(t')
    ensures !ok <==> exists a :: a in InOrder(t) && !Less(a, x) && !Less(x, a)
    ensures ok ==> exists k :: 0 <= k <= |InOrder(t)| && InOrder(t') == InOrder(t)[..k] + [x] + InOrder(t)[k..]
    ensures !ok ==> InOrder(t') == InOrder(t)
  {
    hide InOrder, Sorted, Plug, AllRaised, Around, Augmented;
    ghost var steps: seq<Crumb> := [];     // the path before its notes are raised
    var path: seq<Crumb> := [];
    var node, e := t, End(x);
    assert Plug([], t) == t && AllRaised([], e) == [] && Around([], x) by { Start(t, e, x); }
    while node.Node?
      invariant Plug(steps, node) == t && path == AllRaised(steps, e) && Around(steps, x)
      decreases node
    {
      Descend(steps, node, x);
      var end := Max(node.end, e);
      if Less(x, node.i) {
        RaisedMore(steps, WentLeft(node.i, node.end, node.right), e);
        steps := steps + [WentLeft(node.i, node.end, node.right)];
        path := path + [WentLeft(node.i, end, node.right)];
        node := node.left;
      } else if Less(node.i, x) {
        RaisedMore(steps, WentRight(node.left, node.i, node.end), e);
        steps := steps + [WentRight(node.left, node.i, node.end)];
        path := path + [WentRight(node.left, node.i, end)];
        node := node.right;
      } else {
        InsideTree(steps, node);
        t', ok := t, false;
        return;
      }
    }
    var grown := Plug(path, Node(Leaf, x, e, Leaf));
    AtLeaf(t, steps, x);
    RebalancingKeeps(grown, turns);
    t', ok := Rebalanced(grown, turns), true;
  }

  lemma Start(t: Tree, e: nat, x: Interval)
    ensures Plug([], t) == t && AllRaised([], e) == [] && Around([], x)
  {
  }

  lemma RaisedMore(path: seq<Crumb>, c: Crumb, e: nat)
    ensures AllRaised(path + [c], e) == AllRaised(path, e) + [Raised(c, e)]
  {
  }

  lemma InsideTree(path: seq<Crumb>, node: Tree)
    requires node.Node?
    ensures node.i in InOrder(Plug(path, node))
  {
    PlugInOrder(path, node);
    assert node.i in InOrder(node);
  }

  lemma AtLeaf(t: Tree, steps: seq<Crumb>, x: Interval)
    requires Valid(t) && Plug(steps, Leaf) == t && Around(steps, x)
    ensures var t' := Plug(AllRaised(steps, End(x)), Node(Leaf, x, End(x), Leaf));
            && Valid(t')
            && (forall a | a in InOrder(t) :: Less(a, x) || Less(x, a))
            && exists k :: 0 <= k <= |InOrder(t)| && InOrder(t') == InOrder(t)[..k] + [x] + InOrder(t)[k..]
  {
    hide Plug, AllRaised, Sorted, Prefix, Suffix, Augmented;
    var leaf, path := Node(Leaf, x, End(x), Leaf), AllRaised(steps, End(x));
    var p, s := Prefix(steps), Suffix(steps);
    assert InOrder(t) == p + s by { PlugInOrder(steps, Leaf); }
    assert InOrder(Plug(path, leaf)) == p + [x] + s by {
      PlugInOrder(path, leaf);
      RaisedSame(steps, End(x));
    }
    assert Augmented(Plug(path, leaf)) by {
      assert Augmented(leaf) by { OneAugmented(x); }
      RaisedAugmented(steps, Leaf, leaf, End(x));
    }
    Inserted(p, s, x);
    assert (p + s)[..|p|] == p && (p + s)[|p|..] == s;
    forall a | a in InOrder(t) ensures Less(a, x) || Less(x, a) { assert a in p || a in s; }
  }

  lemma OneAugmented(x: Interval)
    ensures Augmented(Node(Leaf, x, End(x), Leaf))
  {
  }

  lemma Inserted(p: seq<Interval>, s: seq<Interval>, x: Interval)
    requires Sorted(p + s) && (forall a | a in p :: Less(a, x)) && (forall a | a in s :: Less(x, a))
    ensures Sorted(p + [x] + s)
  {
    var was, now := p + s, p + [x] + s;
    forall i, j | 0 <= i < j < |now| ensures Less(now[i], now[j]) {
      if i < |p| { assert now[i] == p[i] == was[i]; }
      if j < |p| { assert now[j] == was[j]; }
      if j > |p| { assert now[j] == s[j - |p| - 1] == was[j - 1]; }
      if i > |p| { assert now[i] == was[i - 1]; }
    }
  }

  // A subtree that keeps its note may be replaced without a change above.
  lemma {:induction false} SameNote(path: seq<Crumb>, t: Tree, t': Tree)
    requires Augmented(Plug(path, t)) && Augmented(t') && MaxEnd(t') == MaxEnd(t)
    ensures Augmented(Plug(path, t'))
    decreases |path|
  {
    if |path| > 0 {
      var n := |path| - 1;
      AugmentedInside(path[..n], Fill(path[n], t));
      SameNote(path[..n], Fill(path[n], t), Fill(path[n], t'));
    }
  }

  lemma SizeKeepsOrder(path: seq<Crumb>, node: Tree, size: nat)
    requires node.Node? && Sorted(InOrder(Plug(path, node)))
    ensures Sorted(InOrder(Plug(path, node.(i := node.i.(size := size)))))
  {
    hide Sorted, Plug, Prefix, Suffix;
    var now, p, s := node.(i := node.i.(size := size)), Prefix(path) + InOrder(node.left), InOrder(node.right) + Suffix(path);
    SizeInSorted(p, node.i, s, size);
    assert InOrder(Plug(path, node)) == p + [node.i] + s by { PlugParts(path, node); }
    assert InOrder(Plug(path, now)) == p + [now.i] + s by { PlugParts(path, now); }
  }

  lemma PlugParts(path: seq<Crumb>, node: Tree)
    requires node.Node?
    ensures InOrder(Plug(path, node)) == (Prefix(path) + InOrder(node.left)) + [node.i] + (InOrder(node.right) + Suffix(path))
  {
    hide Plug, Prefix, Suffix;
    PlugInOrder(path, node);
    Regroup(Prefix(path), InOrder(node.left), [node.i], InOrder(node.right), Suffix(path));
  }

  lemma Regroup(p: seq<Interval>, l: seq<Interval>, m: seq<Interval>, r: seq<Interval>, s: seq<Interval>)
    ensures p + (l + m + r) + s == (p + l) + m + (r + s)
  {
  }

  lemma SizeInSorted(p: seq<Interval>, i: Interval, s: seq<Interval>, size: nat)
    ensures Sorted(p + [i] + s) ==> Sorted(p + [i.(size := size)] + s)
  {
    var was, now := p + [i] + s, p + [i.(size := size)] + s;
    if Sorted(was) {
      forall a, b | 0 <= a < b < |now| ensures Less(now[a], now[b]) {
        assert Less(was[a], was[b]);
        assert now[a] == (if a == |p| then was[a].(size := size) else was[a]);
        assert now[b] == (if b == |p| then was[b].(size := size) else was[b]);
      }
    }
  }

  /** Change the size of one interval, `path` down in the tree: notes are computed again on the
   *  way up, until one does not change.
   */
  method UpdateSize(path: seq<Crumb>, node: Tree, size: nat) returns (t: Tree)
    requires node.Node? && Valid(Plug(path, node))
    ensures Valid(t)
    ensures InOrder(t) == Prefix(path) + InOrder(node.(i := node.i.(size := size))) + Suffix(path)
  {
    var rest, was, now := path, node, node.(i := node.i.(size := size));
    AugmentedInside(path, node);
    PlugInOrder(path, now);
    ghost var want := InOrder(Plug(path, now));
    SizeKeepsOrder(path, node, size);
    // only the note of `now` may be wrong
    while true
      invariant was.Node? && now.Node? && Augmented(Plug(rest, was)) && Augmented(was)
      invariant Augmented(now.left) && Augmented(now.right) && now.end == was.end
      invariant InOrder(Plug(rest, now)) == want
      decreases |rest|
    {
      var end := Computed(now.left, now.i, now.right);
      if end == now.end { break; }
      var fixed := now.(end := end);
      PlugInOrder(rest, now);
      PlugInOrder(rest, fixed);
      if |rest| == 0 {
        return fixed;
      }
      var c := rest[|rest| - 1];
      rest := rest[..|rest| - 1];
      was, now := Fill(c, was), Fill(c, fixed);
      AugmentedInside(rest, was);
    }
    SameNote(rest, was, now);
    t := Plug(rest, now);
  }

  // ---- searching ----

  predicate Overlaps(a: Interval, sector: nat, end: nat) {
    a.sector < end && sector < End(a)
  }

  /** The reference: a linear scan. */
  function Overlapping(s: seq<Interval>, sector: nat, end: nat): seq<Interval> {
    if |s| == 0 then []
    else (if Overlaps(s[0], sector, end) then [s[0]] else []) + Overlapping(s[1..], sector, end)
  }

  // The first one at or after position `k`, or the length.
  ghost predicate IsFirst(s: seq<Interval>, k: nat, r: nat, sector: nat, end: nat) {
    && k <= r <= |s|
    && (forall i | k <= i < r :: !Overlaps(s[i], sector, end))
    && (r < |s| ==> Overlaps(s[r], sector, end))
  }

  // No overlap to the left, or none but to the left.
  lemma LeftDecides(t: Tree, sector: nat, end: nat, a: Interval)
    requires t.Node? && Valid(t) && a in InOrder(t) && Overlaps(a, sector, end)
    ensures sector < MaxEnd(t.left) ==> exists b :: b in InOrder(t.left) && Overlaps(b, sector, end)
    ensures sector >= MaxEnd(t.left) ==> a !in InOrder(t.left)
  {
    HighestEnd(t.left);
    if t.left.Node? && sector < MaxEnd(t.left) {
      var m :| m in InOrder(t.left) && End(m) == MaxEnd(t.left);
      if a !in InOrder(t.left) {
        LeftBefore(t, m, a);
        assert Overlaps(m, sector, end);
      }
    }
  }

  lemma LeftBefore(t: Tree, m: Interval, a: Interval)
    requires t.Node? && Valid(t) && m in InOrder(t.left) && a in InOrder(t) && a !in InOrder(t.left)
    ensures m.sector <= a.sector
  {
    var l, s := InOrder(t.left), InOrder(t);
    var i :| 0 <= i < |l| && l[i] == m;
    var j :| 0 <= j < |s| && s[j] == a;
    assert forall k | 0 <= k < |l| :: s[k] == l[k];
    assert i < j;
  }

  // The node a search is at, with what is left and right of it.
  ghost predicate SearchedSoFar(all: seq<Interval>, p: seq<Interval>, node: Tree, s: seq<Interval>, sector: nat, end: nat) {
    && all == p + InOrder(node) + s
    && (forall a | a in p :: !Overlaps(a, sector, end))
    && ((exists a :: a in s && Overlaps(a, sector, end)) ==> exists a :: a in InOrder(node) && Overlaps(a, sector, end))
  }

  lemma GoLeft(all: seq<Interval>, p: seq<Interval>, node: Tree, s: seq<Interval>, sector: nat, end: nat)
    requires SearchedSoFar(all, p, node, s, sector, end) && node.Node? && Valid(node) && sector < MaxEnd(node.left)
    ensures SearchedSoFar(all, p, node.left, [node.i] + InOrder(node.right) + s, sector, end)
  {
    var s' := [node.i] + InOrder(node.right) + s;
    assert all == p + InOrder(node.left) + s';
    if a :| a in s' && Overlaps(a, sector, end) {
      assert exists b :: b in InOrder(node) && Overlaps(b, sector, end) by {
        if a !in s { assert a in InOrder(node); }
      }
      var b :| b in InOrder(node) && Overlaps(b, sector, end);
      LeftDecides(node, sector, end, b);
    }
  }

  // Neither in the left subtree nor at the node.
  lemma GoRight(all: seq<Interval>, p: seq<Interval>, node: Tree, s: seq<Interval>, sector: nat, end: nat)
    requires SearchedSoFar(all, p, node, s, sector, end) && node.Node? && Valid(node)
    requires sector >= MaxEnd(node.left) && !Overlaps(node.i, sector, end)
    ensures SearchedSoFar(all, p + InOrder(node.left) + [node.i], node.right, s, sector, end)
  {
    NotLeft(node, sector, end);
    assert all == p + InOrder(node.left) + [node.i] + InOrder(node.right) + s;
    if a :| a in s && Overlaps(a, sector, end) {
      var b :| b in InOrder(node) && Overlaps(b, sector, end);
      assert b in InOrder(node.right);
    }
  }

  lemma NotLeft(node: Tree, sector: nat, end: nat)
    requires node.Node? && Valid(node) && sector >= MaxEnd(node.left)
    ensures forall a | a in InOrder(node.left) :: !Overlaps(a, sector, end)
  {
    HighestEnd(node.left);
  }

  lemma AroundRoot(t: Tree)
    requires t.Node? && Valid(t)
    ensures forall a | a in InOrder(t.right) :: Less(t.i, a)
  {
    var l, r, s := InOrder(t.left), InOrder(t.right), InOrder(t);
    hide InOrder;
    forall k | 0 <= k < |r| ensures Less(t.i, r[k]) { assert s[|l|] == t.i && s[|l| + 1 + k] == r[k]; }
  }

  // The node starts behind the end, and so does all to its right.
  lemma NoneBelow(node: Tree, sector: nat, end: nat)
    requires node.Node? && Valid(node) && sector >= MaxEnd(node.left) && sector < node.i.sector && !Overlaps(node.i, sector, end)
    ensures forall a | a in InOrder(node) :: !Overlaps(a, sector, end)
  {
    NotLeft(node, sector, end);
    AroundRoot(node);
    hide Valid;
    assert forall a | a in InOrder(node) :: a in InOrder(node.left) || a == node.i || a in InOrder(node.right);
  }

  lemma Behind(all: seq<Interval>, p: seq<Interval>, node: Tree, s: seq<Interval>, sector: nat, end: nat)
    requires SearchedSoFar(all, p, node, s, sector, end) && node.Node? && Valid(node)
    requires sector >= MaxEnd(node.left) && sector < node.i.sector && !Overlaps(node.i, sector, end)
    ensures forall a | a in all :: !Overlaps(a, sector, end)
  {
    NoneBelow(node, sector, end);
    hide Valid, InOrder, Overlaps;
  }

  lemma ValidParts(t: Tree)
    requires t.Node? && Valid(t)
    ensures Valid(t.left) && Valid(t.right)
  {
    var l, r, s := InOrder(t.left), InOrder(t.right), InOrder(t);
    assert forall i | 0 <= i < |l| :: s[i] == l[i];
    assert forall i | 0 <= i < |r| :: s[|l| + 1 + i] == r[i];
  }

  /** The first interval in order that overlaps; `pos` is its place in the order. */
  method FindOverlap(t: Tree, sector: nat, size: nat) returns (r: Option<Interval>, pos: nat)
    requires Valid(t)
    ensures IsFirst(InOrder(t), 0, pos, sector, sector + size / 512)
    ensures r == if pos < |InOrder(t)| then Some(InOrder(t)[pos]) else None
  {
    hide Valid, SearchedSoFar, Overlaps;
    var end := sector + size / 512;
    var node, skipped := t, 0;
    ghost var p, s: seq<Interval> := [], [];
    assert SearchedSoFar(InOrder(t), p, node, s, sector, end) by { AtRoot(t, sector, end); }
    while node.Node?
      invariant Valid(node) && SearchedSoFar(InOrder(t), p, node, s, sector, end) && skipped == |p|
      decreases node
    {
      ValidParts(node);
      if node.left.Node? && sector < node.left.end {
        GoLeft(InOrder(t), p, node, s, sector, end);
        s := [node.i] + InOrder(node.right) + s;
        node := node.left;
      } else if Overlaps(node.i, sector, end) {
        FoundHere(InOrder(t), p, node, s, sector, end);
        return Some(node.i), skipped + |InOrder(node.left)|;
      } else if sector >= node.i.sector {
        GoRight(InOrder(t), p, node, s, sector, end);
        p := p + InOrder(node.left) + [node.i];
        skipped := skipped + |InOrder(node.left)| + 1;
        node := node.right;
      } else {
        Behind(InOrder(t), p, node, s, sector, end);
        return None, |InOrder(t)|;
      }
    }
    NoneAtLeaf(InOrder(t), p, s, sector, end);
    r, pos := None, |InOrder(t)|;
  }

  lemma AtRoot(t: Tree, sector: nat, end: nat)
    ensures SearchedSoFar(InOrder(t), [], t, [], sector, end)
  {
  }

  lemma FoundHere(all: seq<Interval>, p: seq<Interval>, node: Tree, s: seq<Interval>, sector: nat, end: nat)
    requires SearchedSoFar(all, p, node, s, sector, end) && node.Node? && Valid(node)
    requires sector >= MaxEnd(node.left) && Overlaps(node.i, sector, end)
    ensures var pos := |p| + |InOrder(node.left)|; IsFirst(all, 0, pos, sector, end) && pos < |all| && all[pos] == node.i
  {
    NotLeft(node, sector, end);
    var pos := |p| + |InOrder(node.left)|;
    assert all == (p + InOrder(node.left)) + [node.i] + InOrder(node.right) + s;
    forall i | 0 <= i < pos ensures !Overlaps(all[i], sector, end) {
      assert all[i] == (p + InOrder(node.left))[i];
      assert all[i] in p || all[i] in InOrder(node.left);
    }
  }

  lemma NoneAtLeaf(all: seq<Interval>, p: seq<Interval>, s: seq<Interval>, sector: nat, end: nat)
    requires SearchedSoFar(all, p, Leaf, s, sector, end)
    ensures forall a | a in all :: !Overlaps(a, sector, end)
  {
  }

  /** The next one in order: rb_next() goes to the next place. */
  method NextOverlap(t: Tree, from: nat, sector: nat, size: nat) returns (pos: nat)
    requires Valid(t) && from < |InOrder(t)|
    ensures IsFirst(InOrder(t), from + 1, pos, sector, sector + size / 512)
  {
    var s, end := InOrder(t), sector + size / 512;
    pos := from + 1;
    while pos < |s|
      invariant from < pos <= |s| && forall i | from < i < pos :: !Overlaps(s[i], sector, end)
    {
      if s[pos].sector >= end {
        assert forall i | pos < i < |s| :: Less(s[pos], s[i]);
        return |s|;
      }
      if sector < End(s[pos]) { return; }
      pos := pos + 1;
    }
  }

  lemma {:induction false} ScanFrom(s: seq<Interval>, k: nat, r: nat, sector: nat, end: nat)
    requires IsFirst(s, k, r, sector, end)
    ensures Overlapping(s[k..], sector, end) ==
            if r < |s| then [s[r]] + Overlapping(s[r + 1..], sector, end) else []
    decreases r - k
  {
    if k < r {
      ScanFrom(s, k + 1, r, sector, end);
      assert s[k..][1..] == s[k + 1..];
    } else if r < |s| {
      assert s[r..][1..] == s[r + 1..];
    }
  }

  /** drbd_for_each_overlap visits exactly what a linear scan finds, in that order. */
  method ForEachOverlap(t: Tree, sector: nat, size: nat) returns (visited: seq<Interval>)
    requires Valid(t)
    ensures visited == Overlapping(InOrder(t), sector, sector + size / 512)
  {
    hide Valid, Overlaps, InOrder, Overlapping;
    var s := InOrder(t);
    ghost var end := sector + size / 512;
    var i, pos := FindOverlap(t, sector, size);
    visited := [];
    ghost var k := 0;
    assert s[0..] == s;
    while pos < |s|
      invariant k <= |s| && IsFirst(s, k, pos, sector, end)
      invariant visited + Overlapping(s[k..], sector, end) == Overlapping(s, sector, end)
      decreases |s| - pos
    {
      ScanFrom(s, k, pos, sector, end);
      visited := visited + [s[pos]];
      k := pos + 1;
      pos := NextOverlap(t, pos, sector, size);
    }
    ScanFrom(s, k, pos, sector, end);
  }

  /** What the scan yields: each overlapping interval, and nothing else. */
  lemma {:induction false} ScanExact(s: seq<Interval>, sector: nat, end: nat, a: Interval)
    ensures a in Overlapping(s, sector, end) <==> a in s && Overlaps(a, sector, end)
    ensures Sorted(s) ==> Sorted(Overlapping(s, sector, end))
  {
    if |s| > 0 {
      ScanExact(s[1..], sector, end, a);
      assert s == [s[0]] + s[1..];
      if Sorted(s) {
        assert Sorted(s[1..]);
        forall b | b in Overlapping(s[1..], sector, end) ensures Less(s[0], b) {
          ScanExact(s[1..], sector, end, b);
          var n :| 0 <= n < |s[1..]| && s[1..][n] == b;
          assert s[n + 1] == b;
        }
      }
    }
  }
}
