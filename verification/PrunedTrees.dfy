/**
 * What the two translations make of a grid in which some panels show no surface: the trees of the grid without
 * those panels, as src/lib/workspaceBridge.ts and src/lib/workspaceState.ts fold them.
 */
module PrunedTrees {
  import opened Prelude
  import opened Workspace
  import opened WorkspaceRuns
  import opened Geometry
  import opened LegacyFold
  import P = Panels
  import Nary = SplitTree
  import Grid = PanelGrid
  import Restore = GridRestore
  import B = Bridge
  import Laws = BridgeLaws
  import M = Migration
  import Agree = ConvertersAgree
  import Sizes = RestoredGeometry

  // ----- Pruning -----

  /** What a translation shows of a panel: the panel, with the tab it shows, or nothing. */
  type View = P.Panel -> Option<P.Panel>

  /**
   * The grid's tree without the panels of which nothing is shown. A split of which one child is left is that
   * child; one that lost children gives the others equal shares.
   */
  function Prune(n: Nary.Node, view: View): Option<Nary.Node>
    decreases n
  {
    match n
    case Leaf(p) => if view(p).Some? then Some(Nary.Leaf(view(p).value)) else None
    case Split(d, cs, sizes) =>
      var kept := PruneAll(cs, view);
      if |kept| == 0 then None
      else if |kept| == 1 then Some(kept[0])
      else Some(Nary.Split(d, kept, if |kept| == |sizes| then sizes else EqualShares(|kept|)))
  }

  function PruneAll(ns: seq<Nary.Node>, view: View): (r: seq<Nary.Node>)
    ensures |r| <= |ns|
    decreases ns
  {
    if ns == [] then []
    else
      var head := Prune(ns[0], view);
      (if head.Some? then [head.value] else []) + PruneAll(ns[1..], view)
  }

  /** The panels that are shown, in order. */
  function Viewed(ps: seq<P.Panel>, view: View): seq<P.Panel> {
    if ps == [] then [] else (if view(ps[0]).Some? then [view(ps[0]).value] else []) + Viewed(ps[1..], view)
  }

  lemma {:induction false} ViewedConcat(a: seq<P.Panel>, b: seq<P.Panel>, view: View)
    ensures Viewed(a + b, view) == Viewed(a, view) + Viewed(b, view)
  {
    if a == [] {
      assert a + b == b;
    } else {
      assert (a + b)[0] == a[0] && (a + b)[1..] == a[1..] + b;
      ViewedConcat(a[1..], b, view);
      RegroupPanels(if view(a[0]).Some? then [view(a[0]).value] else [], Viewed(a[1..], view), Viewed(b, view));
    }
  }

  lemma RegroupPanels(a: seq<P.Panel>, b: seq<P.Panel>, c: seq<P.Panel>)
    ensures a + (b + c) == a + b + c
  {
  }

  /** Pruning keeps exactly the shown panels, in on-screen order. */
  lemma {:induction false} PruneFlatten(n: Nary.Node, view: View)
    ensures Nary.Shown(Prune(n, view)) == Viewed(Nary.Flatten(n), view)
    decreases n
  {
    match n
    case Leaf(p) =>
      assert Viewed([p], view) == (if view(p).Some? then [view(p).value] else []) + Viewed([p][1..], view);
    case Split(_, cs, _) =>
      PruneAllFlatten(cs, view);
      var kept := PruneAll(cs, view);
      if |kept| == 1 {
        assert Nary.FlattenAll(kept) == Nary.Flatten(kept[0]) + Nary.FlattenAll(kept[1..]);
      }
  }

  lemma {:induction false} PruneAllFlatten(ns: seq<Nary.Node>, view: View)
    ensures Nary.FlattenAll(PruneAll(ns, view)) == Viewed(Nary.FlattenAll(ns), view)
    decreases ns
  {
    if ns != [] {
      var head, rest := Prune(ns[0], view), PruneAll(ns[1..], view);
      PruneFlatten(ns[0], view);
      PruneAllFlatten(ns[1..], view);
      ViewedConcat(Nary.Flatten(ns[0]), Nary.FlattenAll(ns[1..]), view);
      if head.Some? {
        assert ([head.value] + rest)[1..] == rest;
      } else {
        assert [] + rest == rest;
      }
    }
  }

  /** Where every panel is shown as it is, and every split has several children, nothing is pruned. */
  lemma {:induction false} PruneNothing(n: Nary.Node, view: View)
    requires Nary.WellFormed(n) && forall p :: p in Nary.Flatten(n) ==> view(p) == Some(p)
    ensures Prune(n, view) == Some(n)
    decreases n
  {
    match n
    case Leaf(p) => assert p in [p];
    case Split(_, cs, _) => PruneNothingIn(cs, view);
  }

  lemma {:induction false} PruneNothingIn(ns: seq<Nary.Node>, view: View)
    requires Nary.WellFormedAll(ns) && forall p :: p in Nary.FlattenAll(ns) ==> view(p) == Some(p)
    ensures PruneAll(ns, view) == ns
    decreases ns
  {
    if ns != [] {
      PruneNothing(ns[0], view);
      PruneNothingIn(ns[1..], view);
      assert ns == [ns[0]] + ns[1..];
    }
  }

  // ----- A conversion is the plain fold of the pruned tree -----

  /** The converted tree is, up to node ids, the right fold of the pruned one; one is missing where the other is. */
  ghost predicate IsPlain(tree: Option<TreeNode>, n: Option<Nary.Node>, lo: real, hi: real) {
    && (tree.Some? <==> n.Some?)
    && (n.Some? ==> Positive(n.value) && Erase(tree.value) == PlainTree(n.value, lo, hi))
  }

  ghost predicate ArePruned(parts: seq<Part>, ns: seq<Nary.Node>, view: View, lo: real, hi: real)
    decreases ns
  {
    && |parts| == |ns|
    && (ns == [] ||
        (IsPlain(parts[0].tree, Prune(ns[0], view), lo, hi) && ArePruned(parts[1..], ns[1..], view, lo, hi)))
  }

  lemma {:induction false} KeptArePlain(parts: seq<Part>, ns: seq<Nary.Node>, view: View, lo: real, hi: real)
    requires ArePruned(parts, ns, view, lo, hi)
    ensures PositiveAll(PruneAll(ns, view)) && ArePlain(Kept(parts), PruneAll(ns, view), lo, hi)
    decreases ns
  {
    if ns != [] {
      var head, rest, kept := Prune(ns[0], view), PruneAll(ns[1..], view), Kept(parts[1..]);
      KeptArePlain(parts[1..], ns[1..], view, lo, hi);
      if head.Some? {
        assert ([head.value] + rest)[1..] == rest && ([parts[0]] + kept)[1..] == kept;
      } else {
        assert [] + rest == rest && [] + kept == kept;
      }
    }
  }

  lemma SharesPositive(n: nat)
    requires n > 0
    ensures AllPositive(EqualShares(n))
  {
    ConstantPositive(EqualShares(n), 1.0 / n as real);
  }

  /** The fold of the children that are left, with the saved shares or equal ones. */
  lemma CombineIsPruned(d: Nary.Direction, cs: seq<Nary.Node>, sizes: seq<real>, parts: seq<Part>, view: View,
                        lo: real, hi: real, name: Namer)
    requires AllPositive(sizes) && ArePruned(parts, cs, view, lo, hi)
    ensures IsPlain(Combine(d, parts, sizes, lo, hi, name).tree, Prune(Nary.Split(d, cs, sizes), view), lo, hi)
  {
    KeptArePlain(parts, cs, view, lo, hi);
    var kept, ns := Kept(parts), PruneAll(cs, view);
    KeptHaveTrees(parts);
    if |kept| == 1 {
      assert IsPlain(kept[0].tree, Some(ns[0]), lo, hi);
    } else if |kept| > 1 {
      SharesPositive(|kept|);
      FoldIsPlain(d, kept, ns, if |sizes| == |kept| then sizes else EqualShares(|kept|), 0, lo, hi, name);
    }
  }

  /** The ids are distinct and new. */
  ghost predicate Distinct(ids: seq<string>, r: map<string, SurfaceRecord>) {
    NoRepeats(ids) && forall s :: s in ids ==> s !in r
  }

  lemma DistinctStep(a: seq<string>, b: seq<string>, leaves: seq<string>, r: map<string, SurfaceRecord>,
                     r1: map<string, SurfaceRecord>)
    requires Distinct(a + b, r) && Converted(leaves, a, r, r1)
    ensures Distinct(a, r) && Distinct(b, r1)
  {
    NoRepeatsConcat(a, b);
    forall s | s in a ensures s !in r {
      assert s in a + b;
    }
    forall s | s in b ensures s !in r1 {
      assert s in a + b;
    }
  }

  // ----- The bridge -----

  /** The bridge shows a panel if the tab it shows is a surface. */
  function BridgeView(): View {
    (p: P.Panel) => if B.Converts(p) then Some(p) else None
  }

  lemma LeafPruned(p: P.Panel, focused: Option<string>, r: B.Registry, c: B.Context)
    requires KeysAreIds(r) && Distinct(Laws.Offered(p), r)
    ensures IsPlain(B.LeafSpec(p, focused, r, c).0.tree, Prune(Nary.Leaf(p), BridgeView()), B.BRIDGE_MIN, B.BRIDGE_MAX)
  {
    Laws.LeafConverted(p, focused, r, c);
    if B.Converts(p) {
      Laws.ShownIsOffered(p);
    }
  }

  /** Whatever panels show no surface: the bridged tree is the fold of the pruned one. */
  lemma {:induction false} NodePruned(n: Nary.Node, focused: Option<string>, r: B.Registry, c: B.Context)
    requires Positive(n) && KeysAreIds(r) && Distinct(Laws.OfferedAll(Nary.Flatten(n)), r)
    ensures IsPlain(B.NodeSpec(n, focused, r, c).0.tree, Prune(n, BridgeView()), B.BRIDGE_MIN, B.BRIDGE_MAX)
    decreases n
  {
    match n
    case Leaf(p) =>
      assert Laws.OfferedAll([p]) == Laws.Offered(p) + Laws.OfferedAll([]) == Laws.Offered(p);
      LeafPruned(p, focused, r, c);
    case Split(d, cs, sizes) =>
      NodesPruned(cs, focused, r, c);
      CombineIsPruned(d, cs, sizes, B.NodesSpec(cs, focused, r, c).0, BridgeView(), B.BRIDGE_MIN, B.BRIDGE_MAX,
                      B.NameSplit(c));
  }

  lemma {:induction false} NodesPruned(ns: seq<Nary.Node>, focused: Option<string>, r: B.Registry, c: B.Context)
    requires PositiveAll(ns) && KeysAreIds(r) && Distinct(Laws.OfferedAll(Nary.FlattenAll(ns)), r)
    ensures ArePruned(B.NodesSpec(ns, focused, r, c).0, ns, BridgeView(), B.BRIDGE_MIN, B.BRIDGE_MAX)
    decreases ns
  {
    if ns != [] {
      var (part, r1) := B.NodeSpec(ns[0], focused, r, c);
      var (parts, r2) := B.NodesSpec(ns[1..], focused, r1, c);
      var a, b := Nary.Flatten(ns[0]), Nary.FlattenAll(ns[1..]);
      Laws.NodeConverted(ns[0], focused, r, c);
      Laws.OfferedConcat(a, b);
      DistinctStep(Laws.OfferedAll(a), Laws.OfferedAll(b), LeavesOf(part.tree), r, r1);
      NodePruned(ns[0], focused, r, c);
      NodesPruned(ns[1..], focused, r1, c);
      assert ([part] + parts)[1..] == parts;
    }
  }

  // ----- The migration -----

  /** A panel with nothing but the tab of that id. */
  function OnlyTab(p: P.Panel, id: string): P.Panel {
    p.(id := id, tabs := None, activeTabId := None)
  }

  /** The migration shows a panel if any of its tabs is a surface, by the one it takes for active. */
  function MigrationView(): View {
    (p: P.Panel) => if M.SurfaceTabs(p) == [] then None else Some(OnlyTab(p, M.ActiveEntry(p).tab.id))
  }

  lemma {:induction false} EntryListed(entries: seq<M.SurfaceTab>, e: M.SurfaceTab)
    requires e in entries
    ensures e.tab.id in M.TabIds(entries)
  {
    if entries[0] != e {
      EntryListed(entries[1..], e);
    }
  }

  lemma LeafMigrated(p: P.Panel, focused: Option<string>, path: seq<nat>, r: M.Registry, c: M.Context)
    requires KeysAreIds(r.active) && Distinct(M.TabIds(M.SurfaceTabs(p)), r.active)
    ensures IsPlain(M.LeafSpec(p, focused, path, r, c).0.tree, Prune(Nary.Leaf(p), MigrationView()),
                    MIN_RATIO, MAX_RATIO)
  {
    if M.SurfaceTabs(p) != [] {
      EntryListed(M.SurfaceTabs(p), M.ActiveEntry(p));
    }
  }

  lemma {:induction false} NodeMigrated(n: Nary.Node, focused: Option<string>, path: seq<nat>, r: M.Registry,
      c: M.Context)
    requires Positive(n) && KeysAreIds(r.active) && Distinct(M.SurfaceIdsOf(Nary.Flatten(n)), r.active)
    ensures IsPlain(M.NodeSpec(n, focused, path, r, c).0.tree, Prune(n, MigrationView()), MIN_RATIO, MAX_RATIO)
    decreases n
  {
    match n
    case Leaf(p) =>
      var ids := M.TabIds(M.SurfaceTabs(p));
      assert M.SurfaceIdsOf([p]) == ids + M.SurfaceIdsOf([]) == ids;
      LeafMigrated(p, focused, path, r, c);
    case Split(d, cs, sizes) =>
      NodesMigrated(cs, focused, path, 0, r, c);
      CombineIsPruned(d, cs, sizes, M.NodesSpec(cs, focused, path, 0, r, c).0, MigrationView(), MIN_RATIO, MAX_RATIO,
                      M.NameSplit(path, c));
  }

  lemma {:induction false} NodesMigrated(ns: seq<Nary.Node>, focused: Option<string>, path: seq<nat>, i: nat,
      r: M.Registry, c: M.Context)
    requires PositiveAll(ns) && KeysAreIds(r.active) && Distinct(M.SurfaceIdsOf(Nary.FlattenAll(ns)), r.active)
    ensures ArePruned(M.NodesSpec(ns, focused, path, i, r, c).0, ns, MigrationView(), MIN_RATIO, MAX_RATIO)
    decreases ns
  {
    if ns != [] {
      var (part, r1) := M.NodeSpec(ns[0], focused, path + [i], r, c);
      var (parts, r2) := M.NodesSpec(ns[1..], focused, path, i + 1, r1, c);
      var a, b := Nary.Flatten(ns[0]), Nary.FlattenAll(ns[1..]);
      M.NodeConverted(ns[0], focused, path + [i], r, c);
      M.SurfaceIdsConcat(a, b);
      DistinctStep(M.SurfaceIdsOf(a), M.SurfaceIdsOf(b), LeavesOf(part.tree), r.active, r1.active);
      NodeMigrated(ns[0], focused, path + [i], r, c);
      NodesMigrated(ns[1..], focused, path, i + 1, r1, c);
      assert ([part] + parts)[1..] == parts;
    }
  }

  // ----- Sizes on screen -----

  /** What is pruned away takes no room: the bridged tree shows the panels that are left, each once. */
  lemma BridgedIsPruned(legacy: Grid.GridState, c: B.Context)
    requires legacy.root.Some? && Positive(legacy.root.value)
    requires NoRepeats(Laws.OfferedAll(Nary.Flatten(legacy.root.value)))
    ensures var tree, pruned := B.BridgeSpec(legacy, c).visibleTree, Prune(legacy.root.value, BridgeView());
            && IsPlain(tree, pruned, B.BRIDGE_MIN, B.BRIDGE_MAX)
            && (tree.Some? ==> UniqueLeaves(tree.value) && Leaves(tree.value) == SurfaceIds(Nary.Flatten(pruned.value)))
  {
    var n := legacy.root.value;
    NodePruned(n, legacy.activePanelId, map[], c);
    Laws.NodeConverted(n, legacy.activePanelId, map[], c);
    var tree, pruned := B.BridgeSpec(legacy, c).visibleTree, Prune(n, BridgeView());
    if tree.Some? {
      EraseLeaves(tree.value);
      PlainTreeLeaves(pruned.value, B.BRIDGE_MIN, B.BRIDGE_MAX);
      UniqueLeavesMeaning(tree.value);
    }
  }

  /**
   * When the shown tab ids are distinct, and whatever panels show no surface: the map of leaf sizes gives every
   * other panel exactly its size in the pruned grid if and only if no share of that falls out of [0.1, 0.9].
   */
  lemma PrunedSizesExactly(legacy: Grid.GridState, c: B.Context, w: real, h: real)
    requires legacy.root.Some? && Positive(legacy.root.value) && w > 0.0 && h > 0.0
    requires NoRepeats(Laws.OfferedAll(Nary.Flatten(legacy.root.value)))
    ensures var tree, pruned := B.BridgeSpec(legacy, c).visibleTree, Prune(legacy.root.value, BridgeView());
            && (tree.Some? <==> pruned.Some?)
            && (pruned.Some? ==>
                  && Positive(pruned.value)
                  && (Sizes.KeepsSizes(pruned.value, tree.value, w, h)
                      <==> InBand(pruned.value, B.BRIDGE_MIN, B.BRIDGE_MAX)))
  {
    BridgedIsPruned(legacy, c);
    var tree, pruned := B.BridgeSpec(legacy, c).visibleTree, Prune(legacy.root.value, BridgeView());
    if tree.Some? {
      EraseBoxes(tree.value, w, h);
      GeometryPreservedExactly(pruned.value, B.BRIDGE_MIN, B.BRIDGE_MAX, w, h);
      Sizes.SizesAreBoxes(pruned.value, tree.value, w, h);
    }
  }

  // ----- When the translations agree -----

  /** Both views show the panel by the same tab, or neither shows it. */
  predicate SameView(p: P.Panel, a: View, b: View) {
    && (a(p).Some? <==> b(p).Some?)
    && (a(p).Some? ==> SurfaceId(a(p).value) == SurfaceId(b(p).value))
  }

  /** Trees of the same shape and sizes whose panels show the same tabs. */
  predicate SameTree(a: Nary.Node, b: Nary.Node)
    decreases a
  {
    match a
    case Leaf(p) => b.Leaf? && SurfaceId(p) == SurfaceId(b.panel)
    case Split(d, cs, sizes) => b.Split? && d == b.direction && sizes == b.sizes && SameTrees(cs, b.children)
  }

  predicate SameTrees(a: seq<Nary.Node>, b: seq<Nary.Node>)
    decreases a
  {
    |a| == |b| && (a == [] || (SameTree(a[0], b[0]) && SameTrees(a[1..], b[1..])))
  }

  lemma {:induction false} SamePruned(n: Nary.Node, a: View, b: View)
    requires forall p :: p in Nary.Flatten(n) ==> SameView(p, a, b)
    ensures Prune(n, a).Some? <==> Prune(n, b).Some?
    ensures Prune(n, a).Some? ==> SameTree(Prune(n, a).value, Prune(n, b).value)
    decreases n
  {
    match n
    case Leaf(p) =>
      assert p in Nary.Flatten(n);
      assert SameView(p, a, b);
    case Split(_, cs, _) =>
      SamePrunedAll(cs, a, b);
      FirstIsSame(PruneAll(cs, a), PruneAll(cs, b));
  }

  lemma FirstIsSame(a: seq<Nary.Node>, b: seq<Nary.Node>)
    requires SameTrees(a, b)
    ensures |a| == |b| && (a != [] ==> SameTree(a[0], b[0]))
  {
  }

  lemma {:induction false} SamePrunedAll(ns: seq<Nary.Node>, a: View, b: View)
    requires forall p :: p in Nary.FlattenAll(ns) ==> SameView(p, a, b)
    ensures SameTrees(PruneAll(ns, a), PruneAll(ns, b))
    decreases ns
  {
    if ns != [] {
      SamePruned(ns[0], a, b);
      SamePrunedAll(ns[1..], a, b);
      var x, y, xs, ys := Prune(ns[0], a), Prune(ns[0], b), PruneAll(ns[1..], a), PruneAll(ns[1..], b);
      if x.Some? {
        assert ([x.value] + xs)[1..] == xs && ([y.value] + ys)[1..] == ys;
      } else {
        assert [] + xs == xs && [] + ys == ys;
      }
    }
  }

  lemma {:induction false} SamePlain(a: Nary.Node, b: Nary.Node, lo: real, hi: real)
    requires SameTree(a, b) && Positive(a) && Positive(b)
    ensures PlainTree(a, lo, hi) == PlainTree(b, lo, hi)
    decreases a
  {
    if a.Split? {
      SamePlainAll(a.children, b.children, lo, hi);
    }
  }

  lemma {:induction false} SamePlainAll(a: seq<Nary.Node>, b: seq<Nary.Node>, lo: real, hi: real)
    requires SameTrees(a, b) && PositiveAll(a) && PositiveAll(b)
    ensures PlainTrees(a, lo, hi) == PlainTrees(b, lo, hi)
    decreases a
  {
    if a != [] {
      SamePlain(a[0], b[0], lo, hi);
      SamePlainAll(a[1..], b[1..], lo, hi);
    }
  }

  /** A panel with a surface among its tabs shows one. */
  predicate ShowsItsSurface(p: P.Panel) {
    M.SurfaceTabs(p) != [] ==> B.Converts(p)
  }

  lemma ViewsAgree(p: P.Panel)
    requires Restore.Canonical(p)
    ensures B.Converts(p) ==> M.SurfaceTabs(p) != []
    ensures ShowsItsSurface(p) ==> SameView(p, BridgeView(), MigrationView())
  {
    if B.Converts(p) {
      Agree.PanelsAgree(p);
    }
  }

  /** The migration shows at least the panels the bridge shows, and more if one does not show its surface. */
  lemma {:induction false} ViewedMore(ps: seq<P.Panel>)
    requires Restore.CanonicalAll(ps)
    ensures |Viewed(ps, BridgeView())| <= |Viewed(ps, MigrationView())|
    ensures (exists p :: p in ps && !ShowsItsSurface(p)) ==>
              |Viewed(ps, BridgeView())| < |Viewed(ps, MigrationView())|
  {
    if ps != [] {
      ViewsAgree(ps[0]);
      ViewedMore(ps[1..]);
    }
  }

  /** The two trees are the same up to node ids, or both missing. */
  predicate SameShape(a: Option<TreeNode>, b: Option<TreeNode>) {
    (a.Some? <==> b.Some?) && (a.Some? ==> Erase(a.value) == Erase(b.value))
  }

  lemma ShownCount(tree: Option<TreeNode>, n: Nary.Node, view: View, lo: real, hi: real)
    requires IsPlain(tree, Prune(n, view), lo, hi)
    ensures |LeavesOf(tree)| == |Viewed(Nary.Flatten(n), view)|
  {
    PruneFlatten(n, view);
    if tree.Some? {
      EraseLeaves(tree.value);
      PlainTreeLeaves(Prune(n, view).value, lo, hi);
    }
  }

  lemma SameShapeSameCount(a: Option<TreeNode>, b: Option<TreeNode>)
    requires SameShape(a, b)
    ensures |LeavesOf(a)| == |LeavesOf(b)|
  {
    if a.Some? {
      EraseLeaves(a.value);
      EraseLeaves(b.value);
    }
  }

  /** Two folds of the same pruned tree, in the two bands. */
  lemma SameShapeExactly(a: Option<TreeNode>, b: Option<TreeNode>, n: Option<Nary.Node>, m: Option<Nary.Node>)
    requires IsPlain(a, n, B.BRIDGE_MIN, B.BRIDGE_MAX) && IsPlain(b, m, MIN_RATIO, MAX_RATIO)
    requires (n.Some? <==> m.Some?) && (n.Some? ==> SameTree(n.value, m.value))
    ensures SameShape(a, b) <==> n.Some? ==> InBand(n.value, B.BRIDGE_MIN, B.BRIDGE_MAX)
  {
    if n.Some? {
      SamePlain(n.value, m.value, MIN_RATIO, MAX_RATIO);
      if InBand(n.value, B.BRIDGE_MIN, B.BRIDGE_MAX) {
        WiderBandAgrees(n.value, B.BRIDGE_MIN, B.BRIDGE_MAX, MIN_RATIO, MAX_RATIO);
      } else if SameShape(a, b) {
        Agree.BandsAgreeOnlyIf(n.value, B.BRIDGE_MIN, B.BRIDGE_MAX, MIN_RATIO, MAX_RATIO);
      }
    }
  }

  lemma {:induction false} DistinctTabs(ps: seq<P.Panel>)
    requires Restore.CanonicalAll(ps) && NoRepeats(M.SurfaceIdsOf(ps))
    ensures NoRepeats(Laws.OfferedAll(ps))
    ensures forall s :: s in Laws.OfferedAll(ps) ==> s in M.SurfaceIdsOf(ps)
  {
    if ps != [] {
      var head, rest := M.TabIds(M.SurfaceTabs(ps[0])), M.SurfaceIdsOf(ps[1..]);
      NoRepeatsConcat(head, rest);
      DistinctTabs(ps[1..]);
      if B.Converts(ps[0]) {
        Agree.PanelsAgree(ps[0]);
      }
      assert Laws.Offered(ps[0]) == head || Laws.Offered(ps[0]) == [];
      NoRepeatsConcat(Laws.Offered(ps[0]), Laws.OfferedAll(ps[1..]));
    }
  }

  /**
   * On a grid of canonical panels with distinct surface tabs, whatever other panels there are: the two
   * translations give the same tree up to node ids exactly when every panel with a surface among its tabs shows
   * one, and no share of the pruned tree falls out of the bridge's band.
   */
  lemma PrunedAgreeExactly(legacy: Grid.GridState, b: B.Context, m: M.Context)
    requires legacy.root.Some? && Positive(legacy.root.value)
    requires Restore.CanonicalAll(Nary.Flatten(legacy.root.value))
    requires NoRepeats(M.SurfaceIdsOf(Nary.Flatten(legacy.root.value)))
    ensures var bridged, migrated := B.BridgeSpec(legacy, b).visibleTree, M.MigrateSpec(legacy, m).visibleTree;
            var n, pruned := legacy.root.value, Prune(legacy.root.value, BridgeView());
            SameShape(bridged, migrated) <==>
              && (forall p :: p in Nary.Flatten(n) ==> ShowsItsSurface(p))
              && (pruned.Some? ==> InBand(pruned.value, B.BRIDGE_MIN, B.BRIDGE_MAX))
  {
    var n, ps := legacy.root.value, Nary.Flatten(legacy.root.value);
    var bridged, migrated := B.BridgeSpec(legacy, b).visibleTree, M.MigrateSpec(legacy, m).visibleTree;
    DistinctTabs(ps);
    NodePruned(n, legacy.activePanelId, map[], b);
    NodeMigrated(n, legacy.activePanelId, [], M.Registry(map[], 0), m);
    if forall p :: p in ps ==> ShowsItsSurface(p) {
      AllSameView(ps);
      SamePruned(n, BridgeView(), MigrationView());
      SameShapeExactly(bridged, migrated, Prune(n, BridgeView()), Prune(n, MigrationView()));
    } else {
      ViewedMore(ps);
      ShownCount(bridged, n, BridgeView(), B.BRIDGE_MIN, B.BRIDGE_MAX);
      ShownCount(migrated, n, MigrationView(), MIN_RATIO, MAX_RATIO);
      if SameShape(bridged, migrated) {
        SameShapeSameCount(bridged, migrated);
      }
    }
  }

  lemma AllSameView(ps: seq<P.Panel>)
    requires Restore.CanonicalAll(ps) && forall p :: p in ps ==> ShowsItsSurface(p)
    ensures forall p :: p in ps ==> SameView(p, BridgeView(), MigrationView())
  {
    forall p | p in ps ensures SameView(p, BridgeView(), MigrationView()) {
      var i :| 0 <= i < |ps| && ps[i] == p;
      assert Restore.Canonical(ps[i]);
      ViewsAgree(p);
    }
  }
}
