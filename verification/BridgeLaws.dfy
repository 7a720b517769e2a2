/** What the bridge from grid to workspace keeps: surfaces, leaf order, geometry, focus and the way back. */
module BridgeLaws {
  import opened Prelude
  import opened Workspace
  import opened WorkspaceRuns
  import opened Geometry
  import opened LegacyFold
  import opened Bridge
  import P = Panels
  import Nary = SplitTree
  import Grid = PanelGrid
  import M = Migration

  // ----- The registry -----

  /** The ids a panel in a tree puts into the registry: its surface tabs, if it shows a surface at all. */
  function Offered(p: P.Panel): seq<string> {
    if !Converts(p) then []
    else if p.tabs.Some? && |p.tabs.value| > 1 then M.TabIds(OtherTabs(p))
    else [SurfaceId(p)]
  }

  function OfferedAll(ps: seq<P.Panel>): seq<string> {
    if ps == [] then [] else Offered(ps[0]) + OfferedAll(ps[1..])
  }

  /** A hidden panel registers only the tab it shows. */
  function HiddenIds(ps: seq<P.Panel>): seq<string> {
    if ps == [] then [] else (if Converts(ps[0]) then [SurfaceId(ps[0])] else []) + HiddenIds(ps[1..])
  }

  lemma {:induction false} OfferedConcat(a: seq<P.Panel>, b: seq<P.Panel>)
    ensures OfferedAll(a + b) == OfferedAll(a) + OfferedAll(b)
  {
    if a == [] {
      assert a + b == b;
    } else {
      assert (a + b)[1..] == a[1..] + b;
      OfferedConcat(a[1..], b);
    }
  }

  lemma {:induction false} RegisterTabsLaws(entries: seq<M.SurfaceTab>, shown: string, r: Registry, c: Context)
    requires KeysAreIds(r)
    ensures var r' := RegisterTabs(entries, shown, r, c);
            && KeysAreIds(r')
            && (forall k :: k in r ==> k in r' && r'[k] == r[k])
            && (forall k :: k in r' <==> k in r || (k in M.TabIds(entries) && k != shown))
    decreases entries
  {
    if entries != [] {
      var id := entries[0].tab.id;
      var next := if id == shown || id in r then r else r[id := TabToSurface(entries[0], c)];
      RegisterTabsLaws(entries[1..], shown, next, c);
    }
  }

  lemma {:induction false} SurfaceTabListed(tabs: seq<P.PanelTab>, tab: P.PanelTab)
    requires tab in tabs && M.MapLegacyKind(tab.kind).Some?
    ensures tab.id in M.TabIds(M.SurfaceTabsOf(tabs))
  {
    var kind := M.MapLegacyKind(tabs[0].kind);
    var head := if kind.Some? then [M.SurfaceTab(tabs[0], kind.value)] else [];
    assert M.SurfaceTabsOf(tabs) == head + M.SurfaceTabsOf(tabs[1..]);
    if tabs[0] != tab {
      SurfaceTabListed(tabs[1..], tab);
      assert head == [] ==> M.SurfaceTabsOf(tabs) == M.SurfaceTabsOf(tabs[1..]);
      assert head != [] ==> M.SurfaceTabsOf(tabs)[1..] == M.SurfaceTabsOf(tabs[1..]);
    }
  }

  lemma ShownIsOffered(p: P.Panel)
    requires Converts(p)
    ensures SurfaceId(p) in Offered(p)
  {
    if p.tabs.Some? && |p.tabs.value| > 1 {
      SurfaceTabListed(p.tabs.value, P.ActiveTab(p));
    }
  }

  /** A panel in a tree gets its leaf exactly when it shows a surface that is not taken. */
  lemma LeafConverted(p: P.Panel, focused: Option<string>, r: Registry, c: Context)
    requires KeysAreIds(r)
    ensures var (part, r') := LeafSpec(p, focused, r, c);
            && Converted(LeavesOf(part.tree), Offered(p), r, r')
            && FocusInside(part) && PartRatios(part, BRIDGE_MIN, BRIDGE_MAX)
            && part.tree == (if !Converts(p) || SurfaceId(p) in r then None
                             else Some(LeafNode("leaf-" + p.id, SurfaceId(p))))
  {
    if Converts(p) {
      RegisterTabsLaws(OtherTabs(p), SurfaceId(p), r, c);
      ShownIsOffered(p);
    }
  }

  lemma {:induction false} NodeConverted(n: Nary.Node, focused: Option<string>, r: Registry, c: Context)
    requires KeysAreIds(r)
    ensures var (part, r') := NodeSpec(n, focused, r, c);
            && Converted(LeavesOf(part.tree), OfferedAll(Nary.Flatten(n)), r, r')
            && FocusInside(part) && PartRatios(part, BRIDGE_MIN, BRIDGE_MAX)
    decreases n
  {
    match n
    case Leaf(p) =>
      LeafConverted(p, focused, r, c);
      assert OfferedAll([p]) == Offered(p) + OfferedAll([]) == Offered(p);
    case Split(d, cs, sizes) =>
      NodesConverted(cs, focused, r, c);
      CombineLaws(d, NodesSpec(cs, focused, r, c).0, sizes, BRIDGE_MIN, BRIDGE_MAX, NameSplit(c));
  }

  lemma {:induction false} NodesConverted(ns: seq<Nary.Node>, focused: Option<string>, r: Registry, c: Context)
    requires KeysAreIds(r)
    ensures var (parts, r') := NodesSpec(ns, focused, r, c);
            && Converted(PartsLeaves(parts), OfferedAll(Nary.FlattenAll(ns)), r, r')
            && AllFocusInside(parts) && AllRatios(parts, BRIDGE_MIN, BRIDGE_MAX)
    decreases ns
  {
    if ns != [] {
      var (part, r1) := NodeSpec(ns[0], focused, r, c);
      var (parts, r2) := NodesSpec(ns[1..], focused, r1, c);
      NodeConverted(ns[0], focused, r, c);
      NodesConverted(ns[1..], focused, r1, c);
      assert ([part] + parts)[1..] == parts;
      OfferedConcat(Nary.Flatten(ns[0]), Nary.FlattenAll(ns[1..]));
      ConvertedTwice(LeavesOf(part.tree), PartsLeaves(parts), OfferedAll(Nary.Flatten(ns[0])),
                     OfferedAll(Nary.FlattenAll(ns[1..])), r, r1, r2);
    }
  }

  lemma {:induction false} HiddenConverted(ps: seq<P.Panel>, r: Registry, c: Context)
    requires KeysAreIds(r)
    ensures Converted([], HiddenIds(ps), r, HiddenSpec(ps, r, c))
    decreases ps
  {
    if ps != [] {
      var surface := PanelToSurface(ps[0], c);
      var r1 := if surface.None? || surface.value.id in r then r else r[surface.value.id := surface.value];
      var head := if Converts(ps[0]) then [SurfaceId(ps[0])] else [];
      assert Converted([], head, r, r1);
      HiddenConverted(ps[1..], r1, c);
      ConvertedTwice([], [], head, HiddenIds(ps[1..]), r, r1, HiddenSpec(ps[1..], r1, c));
      var none: seq<string> := [];
      assert none + none == none;
    }
  }

  function AllLeaves(trees: seq<TreeNode>): seq<string> {
    if trees == [] then [] else Leaves(trees[0]) + AllLeaves(trees[1..])
  }

  predicate AllWithin(trees: seq<TreeNode>, lo: real, hi: real) {
    forall i :: 0 <= i < |trees| ==> RatiosWithin(trees[i], lo, hi)
  }

  lemma {:induction false} StashedConverted(groups: seq<Nary.Node>, r: Registry, c: Context)
    requires KeysAreIds(r)
    ensures var (trees, r') := StashedSpec(groups, r, c);
            && Converted(AllLeaves(trees), OfferedAll(Nary.FlattenAll(groups)), r, r')
            && AllWithin(trees, BRIDGE_MIN, BRIDGE_MAX)
    decreases groups
  {
    if groups != [] {
      var (part, r1) := NodeSpec(groups[0], None, r, c);
      var (trees, r2) := StashedSpec(groups[1..], r1, c);
      NodeConverted(groups[0], None, r, c);
      StashedConverted(groups[1..], r1, c);
      OfferedConcat(Nary.Flatten(groups[0]), Nary.FlattenAll(groups[1..]));
      ConvertedTwice(LeavesOf(part.tree), AllLeaves(trees), OfferedAll(Nary.Flatten(groups[0])),
                     OfferedAll(Nary.FlattenAll(groups[1..])), r, r1, r2);
      ConsLeaves(part.tree, trees);
    }
  }

  lemma ConsLeaves(tree: Option<TreeNode>, trees: seq<TreeNode>)
    ensures AllLeaves((if tree.Some? then [tree.value] else []) + trees) == LeavesOf(tree) + AllLeaves(trees)
  {
    if tree.Some? {
      assert ([tree.value] + trees)[1..] == trees;
    } else {
      assert [] + trees == trees;
    }
  }

  // ----- Any grid -----

  /** Every id the bridge puts into the registry: visible, hidden, stashed. */
  function AllIds(legacy: Grid.GridState): seq<string> {
    OfferedAll(Nary.Shown(legacy.root)) + HiddenIds(legacy.hidden) + OfferedAll(Nary.FlattenAll(legacy.stashed))
  }

  lemma BridgeConverted(legacy: Grid.GridState, c: Context)
    ensures var s := BridgeSpec(legacy, c);
            && Converted(LeavesOf(s.visibleTree) + AllLeaves(s.stashedGroups), AllIds(legacy), map[], s.active)
            && AllWithin(s.stashedGroups, BRIDGE_MIN, BRIDGE_MAX)
            && (s.visibleTree.Some? ==> RatiosWithin(s.visibleTree.value, BRIDGE_MIN, BRIDGE_MAX))
            && (s.focused.Some? ==> s.focused.value in LeavesOf(s.visibleTree))
  {
    var (part, r) := RootSpec(legacy.root, legacy.activePanelId, c);
    var r1 := HiddenSpec(legacy.hidden, r, c);
    var (trees, r2) := StashedSpec(legacy.stashed, r1, c);
    if legacy.root.Some? {
      NodeConverted(legacy.root.value, legacy.activePanelId, map[], c);
    }
    HiddenConverted(legacy.hidden, r, c);
    StashedConverted(legacy.stashed, r1, c);
    var a, b := OfferedAll(Nary.Shown(legacy.root)), HiddenIds(legacy.hidden);
    ConvertedTwice(LeavesOf(part.tree), [], a, b, map[], r, r1);
    assert LeavesOf(part.tree) + [] == LeavesOf(part.tree);
    ConvertedTwice(LeavesOf(part.tree), AllLeaves(trees), a + b, OfferedAll(Nary.FlattenAll(legacy.stashed)),
                   map[], r1, r2);
  }

  /**
   * Whatever the grid: every leaf, visible or stashed, is a registered surface with one leaf in all trees
   * together; every registered surface is one that the grid offered; records sit under their own id; the focus
   * is visible; and every ratio lies in the bridge's band.
   */
  lemma BridgeEstablishes(legacy: Grid.GridState, c: Context)
    ensures var s := BridgeSpec(legacy, c);
            var leaves := LeavesOf(s.visibleTree) + AllLeaves(s.stashedGroups);
            && KeysAreIds(s.active) && NoRepeats(leaves)
            && (forall id :: id in leaves ==> id in s.active)
            && (forall id :: id in s.active ==> id in AllIds(legacy))
            && (s.focused.Some? ==> s.focused.value in LeavesOf(s.visibleTree))
            && (s.visibleTree.Some? ==> RatiosWithin(s.visibleTree.value, BRIDGE_MIN, BRIDGE_MAX))
            && AllWithin(s.stashedGroups, BRIDGE_MIN, BRIDGE_MAX)
            && (forall id :: id in HistoryIds(s.history) <==> id in HiddenIds(legacy.closed))
            && (DistinctHistory(s.history) <==> NoRepeats(HiddenIds(legacy.closed)))
  {
    BridgeConverted(legacy, c);
    HistoryOf(legacy.closed, c);
  }

  /** The history holds the shown surfaces of the closed panels, in order, repetitions included. */
  lemma {:induction false} HistoryOf(ps: seq<P.Panel>, c: Context)
    ensures forall id :: id in HistoryIds(HistorySpec(ps, c)) <==> id in HiddenIds(ps)
    ensures DistinctHistory(HistorySpec(ps, c)) <==> NoRepeats(HiddenIds(ps))
  {
    if ps != [] {
      HistoryOf(ps[1..], c);
      var rest := HistorySpec(ps[1..], c);
      if Converts(ps[0]) {
        var head := ClosedSurface(PanelToSurface(ps[0], c).value, c.now);
        assert ([head] + rest)[1..] == rest;
        NoRepeatsConcat([SurfaceId(ps[0])], HiddenIds(ps[1..]));
      } else {
        assert [] + rest == rest && [] + HiddenIds(ps[1..]) == HiddenIds(ps[1..]);
      }
    }
  }

  /**
   * A bridged state satisfies the workspace invariant exactly when the closed panels show distinct surfaces,
   * none of them registered, and something is focused if anything is visible.
   */
  lemma BridgedInvExactly(legacy: Grid.GridState, c: Context)
    ensures var s := BridgeSpec(legacy, c);
            Inv(s) <==>
              && NoRepeats(HiddenIds(legacy.closed))
              && (forall id :: id in HiddenIds(legacy.closed) ==> id !in s.active)
              && (s.visibleTree.Some? ==> s.focused.Some?)
  {
    BridgeEstablishes(legacy, c);
    var s := BridgeSpec(legacy, c);
    NoRepeatsConcat(LeavesOf(s.visibleTree), AllLeaves(s.stashedGroups));
    assert forall id :: id in LeavesOf(s.visibleTree) ==> id in LeavesOf(s.visibleTree) + AllLeaves(s.stashedGroups);
    if s.visibleTree.Some? {
      var tree := s.visibleTree.value;
      UniqueLeavesMeaning(tree);
      LeafSetIsLeaves(tree);
      M.RatiosWiden(tree, BRIDGE_MIN, BRIDGE_MAX, MIN_RATIO - RATIO_EPSILON, MAX_RATIO + RATIO_EPSILON);
    }
    assert HistoryIds(s.history) !! s.active.Keys <==> forall id :: id in HiddenIds(legacy.closed) ==> id !in s.active;
  }

  /** The failing family is not empty: two closed panels that show the same tab. */
  lemma BridgedInvCanFail(c: Context)
    ensures exists legacy :: Grid.Inv(legacy) && !Inv(BridgeSpec(legacy, c))
  {
    var p := P.Panel("p", P.Chat, "P", None, None, None, 0.0, None, None, None);
    var t := P.PanelToTab(p.(id := "t"));
    var a, b := p.(tabs := Some([t])), p.(id := "q", tabs := Some([t]));
    var legacy := Grid.GridState(None, None, [a, b], [], []);
    assert [a, b][1..] == [b] && [b][1..] == [];
    forall id ensures Grid.Count(legacy, id) == (if id == "p" then 1 else 0) + if id == "q" then 1 else 0 {
      assert P.CountId([b], id) == (if id == "q" then 1 else 0) + P.CountId([], id);
      assert P.CountId([a, b], id) == (if id == "p" then 1 else 0) + P.CountId([b], id);
    }
    assert Grid.Inv(legacy);
    assert HiddenIds([b]) == ["t"] + HiddenIds([]) == ["t"];
    assert HiddenIds([a, b]) == ["t"] + ["t"];
    NoRepeatsConcat(["t"], ["t"]);
    assert "t" in ["t"];
    BridgedInvExactly(legacy, c);
  }

  /** For a valid grid whose live panels all show surfaces under distinct ids: exactly when history is apart too. */
  lemma BridgedInvOfDistinct(legacy: Grid.GridState, c: Context)
    requires Grid.Inv(legacy) && AllConvert(LivePanels(legacy)) && NoRepeats(AllIds(legacy))
    requires Named(Nary.Shown(legacy.root))
    ensures Inv(BridgeSpec(legacy, c)) <==> NoRepeats(AllIds(legacy) + HiddenIds(legacy.closed))
  {
    BridgedInvExactly(legacy, c);
    BridgeExactly(legacy, c);
    NoRepeatsConcat(AllIds(legacy), HiddenIds(legacy.closed));
    var s := BridgeSpec(legacy, c);
    if legacy.root.Some? {
      assert SurfaceOf(Nary.Shown(legacy.root), legacy.activePanelId).Some?;
    }
    assert (forall id :: id in HiddenIds(legacy.closed) ==> id !in s.active)
        <==> (forall id :: id in AllIds(legacy) ==> id !in HiddenIds(legacy.closed));
  }

  // ----- Grids whose panels all convert -----

  ghost predicate AllConvert(ps: seq<P.Panel>) {
    forall p :: p in ps ==> Converts(p)
  }

  /** Every panel shows a surface, and all tab ids are new and distinct. */
  ghost predicate Fresh(ps: seq<P.Panel>, r: Registry) {
    AllConvert(ps) && NoRepeats(OfferedAll(ps)) && forall s :: s in OfferedAll(ps) ==> s !in r
  }

  lemma FreshStep(a: seq<P.Panel>, b: seq<P.Panel>, leaves: seq<string>, r: Registry, r1: Registry)
    requires Fresh(a + b, r) && Converted(leaves, OfferedAll(a), r, r1)
    ensures Fresh(a, r) && Fresh(b, r1)
  {
    OfferedConcat(a, b);
    NoRepeatsConcat(OfferedAll(a), OfferedAll(b));
    forall s | s in OfferedAll(b) ensures s !in r1 {
      assert s in OfferedAll(a + b);
    }
    forall s | s in OfferedAll(a) ensures s !in r {
      assert s in OfferedAll(a + b);
    }
    forall p | p in a || p in b ensures Converts(p) {
      assert p in a + b;
    }
  }

  /** The first panel of a fresh list converts, and its surface is not taken. */
  lemma FreshLeaf(p: P.Panel, r: Registry)
    requires Fresh([p], r)
    ensures Converts(p) && SurfaceId(p) !in r
  {
    assert p in [p];
    ShownIsOffered(p);
    assert OfferedAll([p]) == Offered(p) + OfferedAll([]) == Offered(p);
  }

  /** Nothing is dropped: the leaves are the panels' shown tabs in on-screen order. */
  lemma {:induction false} NodeLeaves(n: Nary.Node, focused: Option<string>, r: Registry, c: Context)
    requires KeysAreIds(r) && Fresh(Nary.Flatten(n), r)
    ensures LeavesOf(NodeSpec(n, focused, r, c).0.tree) == SurfaceIds(Nary.Flatten(n))
    decreases n
  {
    match n
    case Leaf(p) =>
      FreshLeaf(p, r);
      LeafConverted(p, focused, r, c);
      assert SurfaceIds([p]) == [SurfaceId(p)] + SurfaceIds([]);
    case Split(d, cs, sizes) =>
      NodesLeaves(cs, focused, r, c);
      NodesConverted(cs, focused, r, c);
      CombineLaws(d, NodesSpec(cs, focused, r, c).0, sizes, BRIDGE_MIN, BRIDGE_MAX, NameSplit(c));
  }

  lemma {:induction false} NodesLeaves(ns: seq<Nary.Node>, focused: Option<string>, r: Registry, c: Context)
    requires KeysAreIds(r) && Fresh(Nary.FlattenAll(ns), r)
    ensures PartsLeaves(NodesSpec(ns, focused, r, c).0) == SurfaceIds(Nary.FlattenAll(ns))
    decreases ns
  {
    if ns != [] {
      var (part, r1) := NodeSpec(ns[0], focused, r, c);
      var (parts, r2) := NodesSpec(ns[1..], focused, r1, c);
      NodeConverted(ns[0], focused, r, c);
      FreshStep(Nary.Flatten(ns[0]), Nary.FlattenAll(ns[1..]), LeavesOf(part.tree), r, r1);
      NodeLeaves(ns[0], focused, r, c);
      NodesLeaves(ns[1..], focused, r1, c);
      assert ([part] + parts)[1..] == parts;
      SurfaceIdsConcat(Nary.Flatten(ns[0]), Nary.FlattenAll(ns[1..]));
    }
  }

  /** Up to node ids, the bridged tree is the right fold of the grid's tree in the bridge's band. */
  lemma {:induction false} NodePlain(n: Nary.Node, focused: Option<string>, r: Registry, c: Context)
    requires Positive(n) && KeysAreIds(r) && Fresh(Nary.Flatten(n), r)
    ensures var tree := NodeSpec(n, focused, r, c).0.tree;
            tree.Some? && Erase(tree.value) == PlainTree(n, BRIDGE_MIN, BRIDGE_MAX)
    decreases n
  {
    match n
    case Leaf(p) =>
      FreshLeaf(p, r);
      LeafConverted(p, focused, r, c);
    case Split(_, cs, _) =>
      NodesPlain(cs, focused, r, c);
      CombineIsPlain(n, NodesSpec(cs, focused, r, c).0, BRIDGE_MIN, BRIDGE_MAX, NameSplit(c));
  }

  lemma {:induction false} NodesPlain(ns: seq<Nary.Node>, focused: Option<string>, r: Registry, c: Context)
    requires PositiveAll(ns) && KeysAreIds(r) && Fresh(Nary.FlattenAll(ns), r)
    ensures ArePlain(NodesSpec(ns, focused, r, c).0, ns, BRIDGE_MIN, BRIDGE_MAX)
    decreases ns
  {
    if ns != [] {
      var (part, r1) := NodeSpec(ns[0], focused, r, c);
      var (parts, r2) := NodesSpec(ns[1..], focused, r1, c);
      NodeConverted(ns[0], focused, r, c);
      FreshStep(Nary.Flatten(ns[0]), Nary.FlattenAll(ns[1..]), LeavesOf(part.tree), r, r1);
      NodePlain(ns[0], focused, r, c);
      NodesPlain(ns[1..], focused, r1, c);
      assert ([part] + parts)[1..] == parts;
    }
  }

  /**
   * The renderer's geometry: when every visible panel shows a surface and the tab ids are distinct, the bridged
   * tree gives every panel exactly its size in the grid if and only if no share falls out of [0.1, 0.9].
   */
  lemma BridgePreservesGeometryExactly(legacy: Grid.GridState, c: Context, w: real, h: real)
    requires legacy.root.Some? && Positive(legacy.root.value) && Fresh(Nary.Flatten(legacy.root.value), map[])
    requires w > 0.0 && h > 0.0
    ensures var tree := BridgeSpec(legacy, c).visibleTree;
            && tree.Some?
            && (Boxes(tree.value, w, h) == NaryBoxes(legacy.root.value, w, h)
                <==> InBand(legacy.root.value, BRIDGE_MIN, BRIDGE_MAX))
  {
    var n, tree := legacy.root.value, BridgeSpec(legacy, c).visibleTree;
    NodePlain(n, legacy.activePanelId, map[], c);
    EraseBoxes(tree.value, w, h);
    GeometryPreservedExactly(n, BRIDGE_MIN, BRIDGE_MAX, w, h);
  }

  // ----- Focus -----

  ghost predicate Named(ps: seq<P.Panel>) {
    forall p :: p in ps ==> SurfaceId(p) != ""
  }

  /** The surface of the panel with the given id. */
  function SurfaceOf(ps: seq<P.Panel>, id: Option<string>): Option<string> {
    if id.None? then None
    else
      var p := P.Find(ps, id.value);
      if p.Some? then Some(SurfaceId(p.value)) else None
  }

  /** The focused panel's surface is focused. */
  lemma {:induction false} NodeFocus(n: Nary.Node, focused: Option<string>, r: Registry, c: Context)
    requires KeysAreIds(r) && Fresh(Nary.Flatten(n), r) && Named(Nary.Flatten(n)) && P.Unique(Nary.Flatten(n))
    ensures NodeSpec(n, focused, r, c).0.focus == SurfaceOf(Nary.Flatten(n), focused)
    decreases n
  {
    match n
    case Leaf(p) =>
      FreshLeaf(p, r);
      LeafConverted(p, focused, r, c);
    case Split(d, cs, sizes) =>
      NodesFocus(cs, focused, r, c);
      NodesConverted(cs, focused, r, c);
      CombinedFocus(d, NodesSpec(cs, focused, r, c).0, sizes, BRIDGE_MIN, BRIDGE_MAX, NameSplit(c));
  }

  lemma {:induction false} NodesFocus(ns: seq<Nary.Node>, focused: Option<string>, r: Registry, c: Context)
    requires KeysAreIds(r) && Fresh(Nary.FlattenAll(ns), r) && Named(Nary.FlattenAll(ns))
    requires P.Unique(Nary.FlattenAll(ns))
    ensures var parts := NodesSpec(ns, focused, r, c).0;
            && (forall i :: 0 <= i < |parts| ==> parts[i].focus != Some(""))
            && LastFocus(parts) == SurfaceOf(Nary.FlattenAll(ns), focused)
    decreases ns
  {
    if ns != [] {
      var (part, r1) := NodeSpec(ns[0], focused, r, c);
      var (parts, r2) := NodesSpec(ns[1..], focused, r1, c);
      var a, b := Nary.Flatten(ns[0]), Nary.FlattenAll(ns[1..]);
      NodeConverted(ns[0], focused, r, c);
      FreshStep(a, b, LeavesOf(part.tree), r, r1);
      P.UniqueConcat(a, b);
      assert Named(a) && Named(b) by {
        assert forall p :: p in a || p in b ==> p in a + b;
      }
      NodeFocus(ns[0], focused, r, c);
      NodesFocus(ns[1..], focused, r1, c);
      assert ([part] + parts)[1..] == parts;
      if focused.Some? {
        P.FindConcat(a, b, focused.value);
      }
    }
  }

  // ----- The way back -----

  lemma {:induction false} PanelShowingAt(ps: seq<P.Panel>, i: nat)
    requires i < |ps| && forall j :: 0 <= j < i ==> SurfaceId(ps[j]) != SurfaceId(ps[i])
    ensures PanelShowing(ps, SurfaceId(ps[i])) == Some(ps[i].id)
  {
    if i > 0 {
      PanelShowingAt(ps[1..], i - 1);
    }
  }

  lemma {:induction false} SurfaceIdsAt(ps: seq<P.Panel>, i: nat)
    requires i < |ps|
    ensures SurfaceIds(ps)[i] == SurfaceId(ps[i])
  {
    if i > 0 {
      SurfaceIdsAt(ps[1..], i - 1);
    }
  }

  lemma {:induction false} ShownAreOffered(ps: seq<P.Panel>)
    requires AllConvert(ps) && NoRepeats(OfferedAll(ps))
    ensures NoRepeats(SurfaceIds(ps)) && forall s :: s in SurfaceIds(ps) ==> s in OfferedAll(ps)
  {
    if ps != [] {
      NoRepeatsConcat(Offered(ps[0]), OfferedAll(ps[1..]));
      ShownAreOffered(ps[1..]);
      ShownIsOffered(ps[0]);
      NoRepeatsConcat([SurfaceId(ps[0])], SurfaceIds(ps[1..]));
    }
  }

  lemma {:induction false} HiddenIdsAreSurfaceIds(ps: seq<P.Panel>)
    requires AllConvert(ps)
    ensures HiddenIds(ps) == SurfaceIds(ps)
  {
    if ps != [] {
      HiddenIdsAreSurfaceIds(ps[1..]);
    }
  }

  function LivePanels(legacy: Grid.GridState): seq<P.Panel> {
    Nary.Shown(legacy.root) + legacy.hidden + Nary.FlattenAll(legacy.stashed)
  }

  lemma LiveSurfacesDistinct(legacy: Grid.GridState)
    requires AllConvert(LivePanels(legacy)) && NoRepeats(AllIds(legacy))
    ensures NoRepeats(SurfaceIds(LivePanels(legacy)))
  {
    var a, b, d := Nary.Shown(legacy.root), legacy.hidden, Nary.FlattenAll(legacy.stashed);
    assert AllConvert(a) && AllConvert(b) && AllConvert(d) by {
      assert forall p :: p in a || p in b || p in d ==> p in a + b + d;
    }
    NoRepeatsConcat(OfferedAll(a) + HiddenIds(b), OfferedAll(d));
    NoRepeatsConcat(OfferedAll(a), HiddenIds(b));
    ShownAreOffered(a);
    HiddenIdsAreSurfaceIds(b);
    ShownAreOffered(d);
    SurfaceIdsConcat(a + b, d);
    SurfaceIdsConcat(a, b);
    NoRepeatsConcat(SurfaceIds(a), SurfaceIds(b));
    NoRepeatsConcat(SurfaceIds(a) + SurfaceIds(b), SurfaceIds(d));
  }

  /**
   * Where the live panels show distinct tabs, every visible, hidden or stashed panel, of whatever kind, is
   * found again from the tab it shows.
   */
  lemma SurfaceLeadsBack(legacy: Grid.GridState, i: nat)
    requires NoRepeats(SurfaceIds(LivePanels(legacy))) && i < |LivePanels(legacy)|
    ensures PanelShowing(Grid.AllPanels(legacy), SurfaceId(LivePanels(legacy)[i])) == Some(LivePanels(legacy)[i].id)
  {
    var live := LivePanels(legacy);
    assert Grid.AllPanels(legacy) == live + legacy.closed;
    forall j | 0 <= j < i ensures SurfaceId(live[j]) != SurfaceId(live[i]) {
      SurfaceIdsAt(live, i);
      SurfaceIdsAt(live, j);
    }
    PanelShowingAt(Grid.AllPanels(legacy), i);
  }

  // ----- The whole state -----

  /** One tree per group, showing its panels in order. */
  predicate ShowGroups(trees: seq<TreeNode>, groups: seq<Nary.Node>) {
    |trees| == |groups|
    && (groups == [] || (Leaves(trees[0]) == SurfaceIds(Nary.Flatten(groups[0]))
        && ShowGroups(trees[1..], groups[1..])))
  }

  lemma {:induction false} StashedLeaves(groups: seq<Nary.Node>, r: Registry, c: Context)
    requires Grid.GroupsWellFormed(groups) && KeysAreIds(r) && Fresh(Nary.FlattenAll(groups), r)
    ensures ShowGroups(StashedSpec(groups, r, c).0, groups)
    decreases groups
  {
    if groups != [] {
      var (part, r1) := NodeSpec(groups[0], None, r, c);
      NodeConverted(groups[0], None, r, c);
      FreshStep(Nary.Flatten(groups[0]), Nary.FlattenAll(groups[1..]), LeavesOf(part.tree), r, r1);
      NodeLeaves(groups[0], None, r, c);
      assert Nary.Flatten(groups[0]) != [];
      var trees := StashedSpec(groups[1..], r1, c).0;
      StashedLeaves(groups[1..], r1, c);
      assert ([part.tree.value] + trees)[1..] == trees;
    }
  }

  /**
   * When every live panel shows a surface and all tab ids are distinct, nothing is lost: the visible tree and
   * each stashed group show their panels in on-screen order, the registry holds exactly the offered surfaces,
   * and the focus follows the focused panel (an empty tab id cannot be focused).
   */
  lemma BridgeExactly(legacy: Grid.GridState, c: Context)
    requires Grid.Inv(legacy) && AllConvert(LivePanels(legacy)) && NoRepeats(AllIds(legacy))
    ensures var s := BridgeSpec(legacy, c);
            && LeavesOf(s.visibleTree) == SurfaceIds(Nary.Shown(legacy.root))
            && ShowGroups(s.stashedGroups, legacy.stashed)
            && (forall id :: id in s.active <==> id in AllIds(legacy))
            && (Named(Nary.Shown(legacy.root)) ==>
                  s.focused == SurfaceOf(Nary.Shown(legacy.root), legacy.activePanelId))
            && NoRepeats(SurfaceIds(LivePanels(legacy)))
  {
    BridgeConverted(legacy, c);
    LiveSurfacesDistinct(legacy);
    var (part, r) := RootSpec(legacy.root, legacy.activePanelId, c);
    var r1 := HiddenSpec(legacy.hidden, r, c);
    FreshRegions(legacy, c);
    if legacy.root.Some? {
      NodeLeaves(legacy.root.value, legacy.activePanelId, map[], c);
      Grid.InvIdsUnique(legacy);
      if Named(Nary.Shown(legacy.root)) {
        NodeFocus(legacy.root.value, legacy.activePanelId, map[], c);
      }
    }
    StashedLeaves(legacy.stashed, r1, c);
  }

  lemma FreshRegions(legacy: Grid.GridState, c: Context)
    requires AllConvert(LivePanels(legacy)) && NoRepeats(AllIds(legacy))
    ensures Fresh(Nary.Shown(legacy.root), map[])
    ensures var r1 := HiddenSpec(legacy.hidden, RootSpec(legacy.root, legacy.activePanelId, c).1, c);
            KeysAreIds(r1) && Fresh(Nary.FlattenAll(legacy.stashed), r1)
  {
    var a, b, d := Nary.Shown(legacy.root), legacy.hidden, Nary.FlattenAll(legacy.stashed);
    assert AllConvert(a) && AllConvert(d) by {
      assert forall p :: p in a || p in d ==> p in a + b + d;
    }
    NoRepeatsConcat(OfferedAll(a) + HiddenIds(b), OfferedAll(d));
    NoRepeatsConcat(OfferedAll(a), HiddenIds(b));
    var (part, r) := RootSpec(legacy.root, legacy.activePanelId, c);
    if legacy.root.Some? {
      NodeConverted(legacy.root.value, legacy.activePanelId, map[], c);
    }
    HiddenConverted(b, r, c);
    ConvertedTwice(LeavesOf(part.tree), [], OfferedAll(a), HiddenIds(b), map[], r, HiddenSpec(b, r, c));
  }
}
