/** The names of the leaves of a bridged tree (src/lib/workspaceBridge.ts), which stay the same from call to call. */
module BridgedNames {
  import opened Prelude
  import opened Workspace
  import opened WorkspaceRuns
  import opened LegacyFold
  import opened PrunedTrees
  import P = Panels
  import Nary = SplitTree
  import B = Bridge
  import Laws = BridgeLaws

  /** The ids of the leaf nodes, in the order of the leaves. */
  function LeafNodeIds(t: TreeNode): seq<string> {
    match t
    case LeafNode(id, _) => [id]
    case SplitNode(_, _, _, a, b) => LeafNodeIds(a) + LeafNodeIds(b)
  }

  function IdsOf(tree: Option<TreeNode>): seq<string> {
    if tree.None? then [] else LeafNodeIds(tree.value)
  }

  function PartsIds(parts: seq<Part>): seq<string> {
    if parts == [] then [] else IdsOf(parts[0].tree) + PartsIds(parts[1..])
  }

  /** The names that go with the panels. */
  function LeafNames(ps: seq<P.Panel>): seq<string> {
    if ps == [] then [] else ["leaf-" + ps[0].id] + LeafNames(ps[1..])
  }

  lemma {:induction false} LeafNamesConcat(a: seq<P.Panel>, b: seq<P.Panel>)
    ensures LeafNames(a + b) == LeafNames(a) + LeafNames(b)
  {
    if a == [] {
      assert a + b == b;
    } else {
      assert (a + b)[0] == a[0] && (a + b)[1..] == a[1..] + b;
      LeafNamesConcat(a[1..], b);
    }
  }

  lemma {:induction false} KeptIds(parts: seq<Part>)
    ensures PartsIds(Kept(parts)) == PartsIds(parts)
  {
    if parts != [] {
      var kept, rest := Kept(parts[1..]), PartsIds(parts[1..]);
      KeptIds(parts[1..]);
      if parts[0].tree.Some? {
        assert Kept(parts) == [parts[0]] + kept && ([parts[0]] + kept)[1..] == kept;
      } else {
        assert Kept(parts) == [] + kept == kept && [] + rest == rest;
      }
    }
  }

  lemma {:induction false} FoldIds(d: Nary.Direction, parts: seq<Part>, sizes: seq<real>, start: nat, lo: real,
      hi: real, name: Namer)
    requires (forall i :: 0 <= i < |parts| ==> parts[i].tree.Some?) && |parts| == |sizes| > 0
    ensures LeafNodeIds(Fold(d, Trees(parts), sizes, start, lo, hi, name)) == PartsIds(parts)
  {
    assert PartsIds(parts) == LeafNodeIds(parts[0].tree.value) + PartsIds(parts[1..]);
    if |parts| == 1 {
      assert PartsIds(parts[1..]) == [];
    } else {
      assert Trees(parts)[1..] == Trees(parts[1..]);
      FoldIds(d, parts[1..], sizes[1..], start + 1, lo, hi, name);
    }
  }

  lemma CombineIds(d: Nary.Direction, parts: seq<Part>, sizes: seq<real>, lo: real, hi: real, name: Namer)
    ensures IdsOf(Combine(d, parts, sizes, lo, hi, name).tree) == PartsIds(parts)
  {
    var kept := Kept(parts);
    KeptHaveTrees(parts);
    KeptIds(parts);
    if |kept| == 1 {
      assert kept[1..] == [];
    } else if |kept| > 1 {
      FoldIds(d, kept, if |sizes| == |kept| then sizes else EqualShares(|kept|), 0, lo, hi, name);
    }
  }

  lemma LeafNamed(p: P.Panel, focused: Option<string>, r: B.Registry, c: B.Context)
    requires KeysAreIds(r) && Distinct(Laws.Offered(p), r)
    ensures IdsOf(B.LeafSpec(p, focused, r, c).0.tree) == LeafNames(Viewed([p], BridgeView()))
  {
    Laws.LeafConverted(p, focused, r, c);
    assert [p][1..] == [];
    if B.Converts(p) {
      Laws.ShownIsOffered(p);
      assert Viewed([p], BridgeView()) == [p] + Viewed([], BridgeView()) == [p];
    }
  }

  /** The leaf of a panel is named after the panel. */
  lemma {:induction false} BridgedLeafNames(n: Nary.Node, focused: Option<string>, r: B.Registry, c: B.Context)
    requires KeysAreIds(r) && Distinct(Laws.OfferedAll(Nary.Flatten(n)), r)
    ensures IdsOf(B.NodeSpec(n, focused, r, c).0.tree) == LeafNames(Viewed(Nary.Flatten(n), BridgeView()))
    decreases n
  {
    match n
    case Leaf(p) =>
      assert Laws.OfferedAll([p]) == Laws.Offered(p) + Laws.OfferedAll([]) == Laws.Offered(p);
      LeafNamed(p, focused, r, c);
    case Split(d, cs, sizes) =>
      BridgedLeafNamesIn(cs, focused, r, c);
      CombineIds(d, B.NodesSpec(cs, focused, r, c).0, sizes, B.BRIDGE_MIN, B.BRIDGE_MAX, B.NameSplit(c));
  }

  lemma {:induction false} BridgedLeafNamesIn(ns: seq<Nary.Node>, focused: Option<string>, r: B.Registry, c: B.Context)
    requires KeysAreIds(r) && Distinct(Laws.OfferedAll(Nary.FlattenAll(ns)), r)
    ensures PartsIds(B.NodesSpec(ns, focused, r, c).0) == LeafNames(Viewed(Nary.FlattenAll(ns), BridgeView()))
    decreases ns
  {
    if ns != [] {
      var (part, r1) := B.NodeSpec(ns[0], focused, r, c);
      var (parts, r2) := B.NodesSpec(ns[1..], focused, r1, c);
      var a, b := Nary.Flatten(ns[0]), Nary.FlattenAll(ns[1..]);
      Laws.NodeConverted(ns[0], focused, r, c);
      Laws.OfferedConcat(a, b);
      DistinctStep(Laws.OfferedAll(a), Laws.OfferedAll(b), LeavesOf(part.tree), r, r1);
      BridgedLeafNames(ns[0], focused, r, c);
      BridgedLeafNamesIn(ns[1..], focused, r1, c);
      assert ([part] + parts)[1..] == parts;
      ViewedConcat(a, b, BridgeView());
      LeafNamesConcat(Viewed(a, BridgeView()), Viewed(b, BridgeView()));
    }
  }
}
