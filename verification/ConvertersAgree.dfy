/**
 * The two translations from the grid to the workspace model compared: the migration of saved blobs
 * (src/lib/workspaceState.ts) and the bridge of the live grid (src/lib/workspaceBridge.ts).
 */
module ConvertersAgree {
  import opened Prelude
  import opened Workspace
  import opened WorkspaceRuns
  import opened Geometry
  import opened LegacyFold
  import opened BridgeLaws
  import P = Panels
  import Nary = SplitTree
  import Grid = PanelGrid
  import Restore = GridRestore
  import M = Migration
  import B = Bridge

  // ----- One panel -----

  lemma {:induction false} NamedTabsAll(tabs: seq<P.PanelTab>)
    requires forall i :: 0 <= i < |tabs| ==> tabs[i].id != ""
    ensures M.NamedTabs(tabs) == tabs
  {
    if tabs != [] {
      NamedTabsAll(tabs[1..]);
    }
  }

  /** The first tab with an id, where it is a surface, is also the first surface tab with that id. */
  lemma {:induction false} FindAgrees(tabs: seq<P.PanelTab>, id: string)
    requires P.FindTab(tabs, id).Some? && M.MapLegacyKind(P.FindTab(tabs, id).value.kind).Some?
    ensures var e := M.FindEntry(M.SurfaceTabsOf(tabs), id);
            e.Some? && e.value.tab == P.FindTab(tabs, id).value
  {
    var kind, rest := M.MapLegacyKind(tabs[0].kind), M.SurfaceTabsOf(tabs[1..]);
    if kind.Some? {
      assert ([M.SurfaceTab(tabs[0], kind.value)] + rest)[1..] == rest;
    } else {
      assert [] + rest == rest;
    }
    if tabs[0].id != id {
      FindAgrees(tabs[1..], id);
    }
  }

  /** On a restored panel both translations show the same tab and register the same ids. */
  lemma PanelsAgree(p: P.Panel)
    requires Restore.Canonical(p) && B.Converts(p)
    ensures M.SurfaceTabs(p) != [] && M.ActiveEntry(p).tab == P.ActiveTab(p)
    ensures M.TabIds(M.SurfaceTabs(p)) == Offered(p)
  {
    if p.tabs.Some? {
      var tabs := p.tabs.value;
      NamedTabsAll(tabs);
      assert M.RawTabs(p) == tabs && M.LegacyActiveTabId(p).Some?;
      var id := M.LegacyActiveTabId(p).value;
      if P.FindTab(tabs, p.activeTabId.value).Some? {
        FindAgrees(tabs, p.activeTabId.value);
      } else {
        assert P.ActiveTab(p) == tabs[0];
        assert M.SurfaceTabsOf(tabs)[0].tab == tabs[0];
        FirstTab(tabs);
        FindAgrees(tabs, tabs[0].id);
      }
      if !Truthy(Some(p.activeTabId.value)) {
        NoEmptyTab(tabs);
      }
    } else {
      assert M.RawTabs(p) == [P.PanelToTab(p)];
      var t := P.PanelToTab(p);
      assert M.SurfaceTabsOf([t]) == [M.SurfaceTab(t, M.MapLegacyKind(t.kind).value)] + M.SurfaceTabsOf([t][1..]);
      assert [t][1..] == [];
      assert M.TabIds(M.SurfaceTabs(p)) == [t.id] + M.TabIds([]);
    }
  }

  lemma FirstTab(tabs: seq<P.PanelTab>)
    requires tabs != []
    ensures P.FindTab(tabs, tabs[0].id) == Some(tabs[0])
  {
  }

  lemma {:induction false} NoEmptyTab(tabs: seq<P.PanelTab>)
    requires forall i :: 0 <= i < |tabs| ==> tabs[i].id != ""
    ensures P.FindTab(tabs, "").None?
  {
    if tabs != [] {
      NoEmptyTab(tabs[1..]);
    }
  }

  /** The record the migration makes of the tab a panel shows. */
  function MigratedRecord(p: P.Panel, stamp: nat, c: M.Context): SurfaceRecord
    requires M.SurfaceTabs(p) != []
  {
    M.MakeRecord(M.ActiveEntry(p), stamp, c)
  }

  /** Both translations name the same resource. */
  predicate SameResource(p: P.Panel, show: M.Show) {
    var t := P.ActiveTab(p);
    if t.chatSessionId == Some("") then
      (if t.terminalId.Some? then show(t.terminalId.value) else t.id) == ""
    else
      t.chatSessionId.Some? || t.terminalId.Some? || p.id == t.id
  }

  /**
   * The two records of a restored panel's shown tab have the same id and kind. They have the same resource
   * exactly when the tab names a session or terminal or is the panel itself, and the same title exactly when
   * that is not empty; the times are the panel's own in one and the migration's clock in the other.
   */
  lemma RecordsAgreeExactly(p: P.Panel, b: B.Context, m: M.Context, stamp: nat)
    requires Restore.Canonical(p) && B.Converts(p) && b.show == m.show && b.projectId == m.projectId
    ensures M.SurfaceTabs(p) != []
    ensures var bridged, migrated, t := B.PanelToSurface(p, b).value, MigratedRecord(p, stamp, m), P.ActiveTab(p);
            && bridged.id == migrated.id == t.id && bridged.kind == migrated.kind
            && bridged.projectId == migrated.projectId && bridged.titleLocked == migrated.titleLocked
            && (bridged.resourceId == migrated.resourceId <==> SameResource(p, b.show))
            && (bridged.title == migrated.title <==> t.title != "")
            && (t.chatSessionId.Some? ==> bridged.resourceId == t.chatSessionId.value)
            && (t.chatSessionId.None? && t.terminalId.Some? ==> bridged.resourceId == b.show(t.terminalId.value))
            && (t.chatSessionId.None? && t.terminalId.None? ==> bridged.resourceId == p.id)
            && bridged.title == Some(t.title) && !bridged.titleLocked && bridged.projectId == b.projectId
            && bridged.createdAt == t.createdAt && bridged.lastFocusedAt == p.lastUsedAt.GetOr(t.createdAt)
            && migrated.createdAt == migrated.lastFocusedAt == m.base + stamp as real
  {
    PanelsAgree(p);
    EntryKind(M.RawTabs(p), M.ActiveEntry(p));
  }

  /** The failing families are not empty: a panel without a title and with an empty session id. */
  lemma RecordsCanDiffer(b: B.Context, m: M.Context, stamp: nat)
    requires b.show == m.show && b.projectId == m.projectId
    ensures exists p ::
              && Restore.Canonical(p) && B.Converts(p) && M.SurfaceTabs(p) != []
              && B.PanelToSurface(p, b).value.title != MigratedRecord(p, stamp, m).title
              && B.PanelToSurface(p, b).value.resourceId != MigratedRecord(p, stamp, m).resourceId
  {
    var p := P.Panel("p", P.Chat, "", Some(""), None, None, 0.0, None, None, None);
    assert Restore.Canonical(p) && B.Converts(p);
    RecordsAgreeExactly(p, b, m, stamp);
  }

  lemma {:induction false} EntryKind(tabs: seq<P.PanelTab>, e: M.SurfaceTab)
    requires e in M.SurfaceTabsOf(tabs)
    ensures M.MapLegacyKind(e.tab.kind) == Some(e.kind)
  {
    var kind, rest := M.MapLegacyKind(tabs[0].kind), M.SurfaceTabsOf(tabs[1..]);
    if kind.None? {
      assert [] + rest == rest;
    }
    if e in rest {
      EntryKind(tabs[1..], e);
    }
  }

  // ----- Trees -----

  lemma {:induction false} OfferedAgree(ps: seq<P.Panel>)
    requires Restore.CanonicalAll(ps) && AllConvert(ps)
    ensures M.SurfaceIdsOf(ps) == OfferedAll(ps)
  {
    if ps != [] {
      PanelsAgree(ps[0]);
      OfferedAgree(ps[1..]);
    }
  }

  lemma CanonicalParts(a: seq<P.Panel>, b: seq<P.Panel>)
    requires Restore.CanonicalAll(a + b)
    ensures Restore.CanonicalAll(a) && Restore.CanonicalAll(b)
  {
    forall i | 0 <= i < |a| ensures Restore.Canonical(a[i]) {
      assert (a + b)[i] == a[i];
    }
    forall i | 0 <= i < |b| ensures Restore.Canonical(b[i]) {
      assert (a + b)[|a| + i] == b[i];
    }
  }

  /** Up to node ids, the migrated tree is the right fold of the grid's tree in the migration's band. */
  lemma {:induction false} MigratedPlain(n: Nary.Node, focused: Option<string>, path: seq<nat>, r: M.Registry,
      c: M.Context)
    requires Positive(n) && KeysAreIds(r.active) && Fresh(Nary.Flatten(n), r.active)
    requires Restore.CanonicalAll(Nary.Flatten(n))
    ensures var tree := M.NodeSpec(n, focused, path, r, c).0.tree;
            tree.Some? && Erase(tree.value) == PlainTree(n, MIN_RATIO, MAX_RATIO)
    decreases n
  {
    match n
    case Leaf(p) =>
      FreshLeaf(p, r.active);
      assert Restore.Canonical([p][0]);
      PanelsAgree(p);
    case Split(_, cs, _) =>
      MigratedAllPlain(cs, focused, path, 0, r, c);
      CombineIsPlain(n, M.NodesSpec(cs, focused, path, 0, r, c).0, MIN_RATIO, MAX_RATIO, M.NameSplit(path, c));
  }

  lemma {:induction false} MigratedAllPlain(ns: seq<Nary.Node>, focused: Option<string>, path: seq<nat>, i: nat,
      r: M.Registry, c: M.Context)
    requires PositiveAll(ns) && KeysAreIds(r.active) && Fresh(Nary.FlattenAll(ns), r.active)
    requires Restore.CanonicalAll(Nary.FlattenAll(ns))
    ensures ArePlain(M.NodesSpec(ns, focused, path, i, r, c).0, ns, MIN_RATIO, MAX_RATIO)
    decreases ns
  {
    if ns != [] {
      var (part, r1) := M.NodeSpec(ns[0], focused, path + [i], r, c);
      var (parts, r2) := M.NodesSpec(ns[1..], focused, path, i + 1, r1, c);
      var a, b := Nary.Flatten(ns[0]), Nary.FlattenAll(ns[1..]);
      M.NodeConverted(ns[0], focused, path + [i], r, c);
      CanonicalParts(a, b);
      assert AllConvert(a) by {
        assert forall p :: p in a ==> p in a + b;
      }
      OfferedAgree(a);
      FreshStep(a, b, LeavesOf(part.tree), r.active, r1.active);
      MigratedPlain(ns[0], focused, path + [i], r, c);
      MigratedAllPlain(ns[1..], focused, path, i + 1, r1, c);
      assert ([part] + parts)[1..] == parts;
    }
  }

  // ----- Two bands -----

  lemma {:induction false} BandsAgreeFold(d: Nary.Direction, ts: seq<TreeNode>, ts': seq<TreeNode>, sizes: seq<real>,
                                          lo: real, hi: real, lo': real, hi': real)
    requires |ts| == |ts'| == |sizes| > 0 && AllPositive(sizes) && lo' < lo <= hi < hi'
    requires Folded(d, ts, sizes, lo, hi) == Folded(d, ts', sizes, lo', hi')
    ensures InBandSizes(sizes, lo, hi) && ts == ts'
  {
    if |ts| > 1 {
      SumPositive(sizes);
      ShareOfSum(sizes[0], Sum(sizes), lo, hi);
      BandsAgreeFold(d, ts[1..], ts'[1..], sizes[1..], lo, hi, lo', hi');
      assert ts == [ts[0]] + ts[1..] && ts' == [ts'[0]] + ts'[1..];
    } else {
      assert ts == [ts[0]] && ts' == [ts'[0]];
    }
  }

  lemma {:induction false} BandsAgreeOnlyIf(n: Nary.Node, lo: real, hi: real, lo': real, hi': real)
    requires Positive(n) && lo' < lo <= hi < hi' && PlainTree(n, lo, hi) == PlainTree(n, lo', hi')
    ensures InBand(n, lo, hi)
    decreases n
  {
    if n.Split? {
      BandsAgreeFold(n.direction, PlainTrees(n.children, lo, hi), PlainTrees(n.children, lo', hi'), n.sizes, lo, hi,
          lo', hi');
      BandsAgreeOnlyIfAll(n.children, lo, hi, lo', hi');
    }
  }

  lemma {:induction false} BandsAgreeOnlyIfAll(ns: seq<Nary.Node>, lo: real, hi: real, lo': real, hi': real)
    requires PositiveAll(ns) && lo' < lo <= hi < hi' && PlainTrees(ns, lo, hi) == PlainTrees(ns, lo', hi')
    ensures InBandAll(ns, lo, hi)
    decreases ns
  {
    if ns != [] {
      var ts, ts' := PlainTrees(ns, lo, hi), PlainTrees(ns, lo', hi');
      assert ts[0] == ts'[0] && ts[1..] == ts'[1..];
      BandsAgreeOnlyIf(ns[0], lo, hi, lo', hi');
      BandsAgreeOnlyIfAll(ns[1..], lo, hi, lo', hi');
    }
  }

  /**
   * On a restored grid whose visible panels all show surfaces under distinct tab ids, the two translations give
   * the same tree up to node ids (shape, directions, ratios and leaf surfaces) exactly when no share falls out
   * of the bridge's band, which is the narrower of the two.
   */
  lemma ConvertersAgreeExactly(legacy: Grid.GridState, b: B.Context, m: M.Context)
    requires legacy.root.Some? && Positive(legacy.root.value)
    requires Fresh(Nary.Flatten(legacy.root.value), map[]) && Restore.CanonicalAll(Nary.Flatten(legacy.root.value))
    ensures var bridged, migrated := B.BridgeSpec(legacy, b).visibleTree, M.MigrateSpec(legacy, m).visibleTree;
            && bridged.Some? && migrated.Some?
            && Leaves(bridged.value) == Leaves(migrated.value)
            && (Erase(bridged.value) == Erase(migrated.value)
                <==> InBand(legacy.root.value, B.BRIDGE_MIN, B.BRIDGE_MAX))
  {
    var n := legacy.root.value;
    NodePlain(n, legacy.activePanelId, map[], b);
    MigratedPlain(n, legacy.activePanelId, [], M.Registry(map[], 0), m);
    var bridged, migrated := B.BridgeSpec(legacy, b).visibleTree.value, M.MigrateSpec(legacy, m).visibleTree.value;
    EraseLeaves(bridged);
    EraseLeaves(migrated);
    PlainTreeLeaves(n, B.BRIDGE_MIN, B.BRIDGE_MAX);
    PlainTreeLeaves(n, MIN_RATIO, MAX_RATIO);
    if InBand(n, B.BRIDGE_MIN, B.BRIDGE_MAX) {
      WiderBandAgrees(n, B.BRIDGE_MIN, B.BRIDGE_MAX, MIN_RATIO, MAX_RATIO);
    } else if Erase(bridged) == Erase(migrated) {
      BandsAgreeOnlyIf(n, B.BRIDGE_MIN, B.BRIDGE_MAX, MIN_RATIO, MAX_RATIO);
    }
  }
}
