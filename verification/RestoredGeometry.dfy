/**
 * Geometry of restored grids: which of them the translations to the workspace model keep in their exact sizes,
 * read off the saved sizes (src/lib/panelGrid.ts, src/lib/workspaceBridge.ts, src/lib/layoutCapacity.ts).
 */
module RestoredGeometry {
  import opened Prelude
  import opened Panels
  import opened SplitTree
  import opened Geometry
  import opened GridNormalize
  import opened GridRestore
  import Grid = PanelGrid
  import W = Workspace
  import L = LegacyFold
  import B = Bridge
  import M = Migration
  import BridgeLaws
  import ConvertersAgree

  // ----- Restored sizes -----

  lemma {:induction false} LargeArePositive(sizes: seq<real>)
    requires forall i :: 0 <= i < |sizes| ==> sizes[i] > 0.0
    ensures AllPositive(sizes)
  {
    if sizes != [] {
      LargeArePositive(sizes[1..]);
    }
  }

  lemma EqualArePositive(n: nat)
    requires n > 0
    ensures AllPositive(EqualShares(n))
  {
    var share := 1.0 / n as real;
    assert share > 0.0;
    LargeArePositive(EqualShares(n));
  }

  /** A restored tree has a positive size for every child. */
  lemma {:induction false} RestoredIsPositive(n: Node)
    requires SizesOk(n) && WellFormed(n)
    ensures Positive(n)
    decreases n
  {
    if n.Split? {
      RestoredArePositive(n.children);
      if ValidSizes(n.sizes) {
        LargeArePositive(n.sizes);
      } else {
        EqualArePositive(|n.children|);
      }
    }
  }

  lemma {:induction false} RestoredArePositive(ns: seq<Node>)
    requires SizesOkAll(ns) && WellFormedAll(ns)
    ensures PositiveAll(ns)
    decreases ns
  {
    if ns != [] {
      RestoredIsPositive(ns[0]);
      RestoredArePositive(ns[1..]);
    }
  }

  /** Among accepted sizes only the first can meet the bridge's clamp, and only when the sum exceeds 1. */
  lemma FirstDecides(sizes: seq<real>)
    requires ValidSizes(sizes) && |sizes| >= 2
    ensures InBandSizes(sizes, B.BRIDGE_MIN, B.BRIDGE_MAX) <==> FitsFirst(sizes, B.BRIDGE_MIN, B.BRIDGE_MAX)
    ensures Sum(sizes) <= 1.0 ==> FitsFirst(sizes, B.BRIDGE_MIN, B.BRIDGE_MAX)
  {
    LargeSizesInBand(sizes[1..], B.BRIDGE_MIN);
    if Sum(sizes) <= 1.0 {
      LargeSizesInBand(sizes, B.BRIDGE_MIN);
    }
  }

  /** What can be read off a restored tree: accepted sizes whose first one fits, or at most ten equal shares. */
  ghost predicate FitsBridge(n: Node)
    decreases n
  {
    match n
    case Leaf(_) => true
    case Split(_, cs, sizes) =>
      (if ValidSizes(sizes) then sizes != [] && FitsFirst(sizes, B.BRIDGE_MIN, B.BRIDGE_MAX) else |cs| <= 10)
      && FitBridge(cs)
  }

  ghost predicate FitBridge(ns: seq<Node>)
    decreases ns
  {
    ns == [] || (FitsBridge(ns[0]) && FitBridge(ns[1..]))
  }

  /** Exactly those restored trees lie in the bridge's band. */
  lemma {:induction false} RestoredInBandExactly(n: Node)
    requires SizesOk(n) && WellFormed(n)
    ensures InBand(n, B.BRIDGE_MIN, B.BRIDGE_MAX) <==> FitsBridge(n)
    decreases n
  {
    if n.Split? {
      RestoredInBandAll(n.children);
      if ValidSizes(n.sizes) {
        FirstDecides(n.sizes);
      } else {
        EqualSharesInBand(|n.children|);
      }
    }
  }

  lemma {:induction false} RestoredInBandAll(ns: seq<Node>)
    requires SizesOkAll(ns) && WellFormedAll(ns)
    ensures InBandAll(ns, B.BRIDGE_MIN, B.BRIDGE_MAX) <==> FitBridge(ns)
    decreases ns
  {
    if ns != [] {
      RestoredInBandExactly(ns[0]);
      RestoredInBandAll(ns[1..]);
    }
  }

  lemma EqualSharesInBand(n: nat)
    requires n >= 2
    ensures InBandSizes(EqualShares(n), B.BRIDGE_MIN, B.BRIDGE_MAX) <==> n <= 10
  {
    var share := 1.0 / n as real;
    assert share > 0.0;
    EqualSizesInBand(EqualShares(n), share, B.BRIDGE_MIN);
  }

  /** The failing family is not empty: these sizes are accepted on restore, and the bridge clamps the first. */
  lemma AcceptedButClamped(sizes: seq<real>)
    requires sizes == [0.1, 0.92]
    ensures ValidSizes(sizes) && !InBandSizes(sizes, B.BRIDGE_MIN, B.BRIDGE_MAX)
  {
    assert sizes[1..] == [0.92] && [0.92][1..] == [];
    assert Sum(sizes) == 0.1 + Sum(sizes[1..]) == 0.1 + (0.92 + Sum([0.92][1..]));
  }

  // ----- Every panel's size -----

  lemma {:induction false} NaryBoxesFollowPanels(n: Node, w: real, h: real)
    requires Positive(n)
    ensures |NaryBoxes(n, w, h)| == |Flatten(n)|
    ensures forall i :: 0 <= i < |Flatten(n)| ==> NaryBoxes(n, w, h)[i].surfaceId == SurfaceId(Flatten(n)[i])
    decreases n
  {
    if n.Split? {
      NaryBoxesInFollow(n.children, n.direction, Shares(AlongW(n.direction, w, h), n.sizes), AlongH(n.direction, w, h));
    }
  }

  lemma {:induction false} NaryBoxesInFollow(ns: seq<Node>, d: Direction, extents: seq<real>, cross: real)
    requires PositiveAll(ns) && |extents| == |ns|
    ensures |NaryBoxesIn(ns, d, extents, cross)| == |FlattenAll(ns)|
    ensures forall i :: 0 <= i < |FlattenAll(ns)| ==>
              NaryBoxesIn(ns, d, extents, cross)[i].surfaceId == SurfaceId(FlattenAll(ns)[i])
    decreases ns
  {
    if ns != [] {
      NaryBoxesFollowPanels(ns[0], AlongW(d, extents[0], cross), AlongH(d, extents[0], cross));
      NaryBoxesInFollow(ns[1..], d, extents[1..], cross);
    }
  }

  /** The size the map of leaf sizes gives the i-th visible panel is its size in the grid. */
  predicate KeepsSize(n: Node, sizes: map<string, LeafSize>, i: nat, w: real, h: real)
    requires Positive(n)
  {
    i < |Flatten(n)| && i < |NaryBoxes(n, w, h)| ==>
      var id, box := SurfaceId(Flatten(n)[i]), NaryBoxes(n, w, h)[i];
      id in sizes && sizes[id] == LeafSize(box.width, box.height)
  }

  ghost predicate KeepsSizes(n: Node, tree: W.TreeNode, w: real, h: real)
    requires Positive(n)
  {
    forall i :: 0 <= i < |Flatten(n)| ==> KeepsSize(n, Put(map[], Boxes(tree, w, h)), i, w, h)
  }

  /** Where the leaves are the panels' surfaces, all sizes agree exactly when the boxes do. */
  lemma SizesAreBoxes(n: Node, tree: W.TreeNode, w: real, h: real)
    requires Positive(n) && W.UniqueLeaves(tree) && W.Leaves(tree) == SurfaceIds(Flatten(n))
    ensures KeepsSizes(n, tree, w, h) <==> Boxes(tree, w, h) == NaryBoxes(n, w, h)
  {
    NaryBoxesFollowPanels(n, w, h);
    BoxesFollowLeaves(tree, w, h);
    var boxes, grid, sizes := Boxes(tree, w, h), NaryBoxes(n, w, h), Put(map[], Boxes(tree, w, h));
    forall i | 0 <= i < |Flatten(n)|
      ensures KeepsSize(n, sizes, i, w, h) <==> boxes[i] == grid[i]
    {
      LeafSizesAreBoxes(tree, w, h, i);
      BridgeLaws.SurfaceIdsAt(Flatten(n), i);
    }
    if KeepsSizes(n, tree, w, h) {
      forall i | 0 <= i < |boxes| ensures boxes[i] == grid[i] {
        assert KeepsSize(n, sizes, i, w, h);
      }
    }
  }

  /** The tree the renderer gets has the panels' surfaces as leaves, each once. */
  lemma BridgedLeaves(legacy: Grid.GridState, c: B.Context)
    requires legacy.root.Some? && Positive(legacy.root.value) && BridgeLaws.Fresh(Flatten(legacy.root.value), map[])
    ensures var tree := B.BridgeSpec(legacy, c).visibleTree;
            tree.Some? && W.UniqueLeaves(tree.value) && W.Leaves(tree.value) == SurfaceIds(Flatten(legacy.root.value))
  {
    var n := legacy.root.value;
    BridgeLaws.NodePlain(n, legacy.activePanelId, map[], c);
    BridgeLaws.NodeLeaves(n, legacy.activePanelId, map[], c);
    BridgeLaws.NodeConverted(n, legacy.activePanelId, map[], c);
    W.UniqueLeavesMeaning(B.BridgeSpec(legacy, c).visibleTree.value);
  }

  /** For any positive grid: all panels get their exact size if and only if no share falls out of the band. */
  lemma BridgedSizesExactly(legacy: Grid.GridState, c: B.Context, w: real, h: real)
    requires legacy.root.Some? && Positive(legacy.root.value) && BridgeLaws.Fresh(Flatten(legacy.root.value), map[])
    requires w > 0.0 && h > 0.0
    ensures var tree := B.BridgeSpec(legacy, c).visibleTree;
            && tree.Some?
            && (KeepsSizes(legacy.root.value, tree.value, w, h)
                <==> InBand(legacy.root.value, B.BRIDGE_MIN, B.BRIDGE_MAX))
  {
    BridgedLeaves(legacy, c);
    BridgeLaws.BridgePreservesGeometryExactly(legacy, c, w, h);
    SizesAreBoxes(legacy.root.value, B.BridgeSpec(legacy, c).visibleTree.value, w, h);
  }

  /**
   * A grid whose shares are at least the minimum and sum to 1 in every split is rendered with every panel in
   * exactly its width and height.
   */
  lemma ProportionedSizesAreKept(legacy: Grid.GridState, c: B.Context, w: real, h: real)
    requires legacy.root.Some? && Proportioned(legacy.root.value, MIN_SPLIT_SIZE)
    requires BridgeLaws.Fresh(Flatten(legacy.root.value), map[]) && w > 0.0 && h > 0.0
    ensures Positive(legacy.root.value)
    ensures var tree := B.BridgeSpec(legacy, c).visibleTree;
            tree.Some? && KeepsSizes(legacy.root.value, tree.value, w, h)
  {
    ProportionedInBand(legacy.root.value, MIN_SPLIT_SIZE);
    BridgedSizesExactly(legacy, c, w, h);
  }

  /** A restored grid is rendered in its exact sizes if and only if its saved sizes fit the bridge. */
  lemma RestoredSizesExactly(legacy: Grid.GridState, c: B.Context, w: real, h: real)
    requires NormalForm(legacy) && legacy.root.Some? && BridgeLaws.Fresh(Flatten(legacy.root.value), map[])
    requires w > 0.0 && h > 0.0
    ensures Positive(legacy.root.value)
    ensures var tree := B.BridgeSpec(legacy, c).visibleTree;
            && tree.Some?
            && (KeepsSizes(legacy.root.value, tree.value, w, h) <==> FitsBridge(legacy.root.value))
  {
    RestoredIsPositive(legacy.root.value);
    BridgedSizesExactly(legacy, c, w, h);
    RestoredInBandExactly(legacy.root.value);
  }

  /** On a restored grid the two translations give the same tree if and only if its saved sizes fit the bridge. */
  lemma RestoredConvertersAgree(legacy: Grid.GridState, b: B.Context, m: M.Context)
    requires NormalForm(legacy) && legacy.root.Some? && BridgeLaws.Fresh(Flatten(legacy.root.value), map[])
    ensures var bridged, migrated := B.BridgeSpec(legacy, b).visibleTree, M.MigrateSpec(legacy, m).visibleTree;
            && bridged.Some? && migrated.Some?
            && W.Leaves(bridged.value) == W.Leaves(migrated.value)
            && (L.Erase(bridged.value) == L.Erase(migrated.value) <==> FitsBridge(legacy.root.value))
  {
    RestoredIsPositive(legacy.root.value);
    RestoredInBandExactly(legacy.root.value);
    ConvertersAgree.ConvertersAgreeExactly(legacy, b, m);
  }

  /**
   * Eleven equal panels in a row, which eleven insertions leave behind: the bridge does not render them in their
   * sizes, the migration keeps them exactly, and so the two trees differ.
   */
  lemma ElevenPanels(legacy: Grid.GridState, ps: seq<Panel>, d: Direction, b: B.Context, m: M.Context, w: real, h: real)
    requires |ps| == 11 && legacy.root == Some(Split(d, LeafRow(ps), EqualShares(11)))
    requires BridgeLaws.Fresh(Flatten(legacy.root.value), map[]) && CanonicalAll(Flatten(legacy.root.value)) && w > 0.0
    requires h > 0.0
    ensures Positive(legacy.root.value)
    ensures var bridged, migrated := B.BridgeSpec(legacy, b).visibleTree, M.MigrateSpec(legacy, m).visibleTree;
            && bridged.Some? && migrated.Some?
            && !KeepsSizes(legacy.root.value, bridged.value, w, h)
            && Boxes(migrated.value, w, h) == NaryBoxes(legacy.root.value, w, h)
            && L.Erase(bridged.value) != L.Erase(migrated.value)
  {
    var n := legacy.root.value;
    EqualPanelsPreserved(ps, d, B.BRIDGE_MIN, w, h);
    EqualPanelsPreserved(ps, d, W.MIN_RATIO, w, h);
    GeometryPreservedExactly(n, B.BRIDGE_MIN, B.BRIDGE_MAX, w, h);
    BridgedSizesExactly(legacy, b, w, h);
    ConvertersAgree.ConvertersAgreeExactly(legacy, b, m);
    ConvertersAgree.MigratedPlain(n, legacy.activePanelId, [], M.Registry(map[], 0), m);
    L.EraseBoxes(M.MigrateSpec(legacy, m).visibleTree.value, w, h);
  }
}
