/**
 * Whom a conversion focuses, and what the migration (src/lib/workspaceState.ts) records of every tab of the tree
 * and of the closed panels.
 */
module MigrationRecords {
  import opened Prelude
  import opened Workspace
  import opened WorkspaceRuns
  import opened Geometry
  import opened LegacyFold
  import opened PrunedTrees
  import opened BridgeRecords
  import P = Panels
  import Nary = SplitTree
  import Grid = PanelGrid
  import B = Bridge
  import Laws = BridgeLaws
  import Restore = GridRestore
  import Agree = ConvertersAgree
  import M = Migration

  // ----- Focus -----

  /** The tab by which the panel with the given id is shown; the last one, should there be several. */
  function FocusOf(ps: seq<P.Panel>, view: View, id: Option<string>): Option<string> {
    if ps == [] then None
    else
      var later := FocusOf(ps[1..], view, id);
      if later.Some? then later
      else if id == Some(ps[0].id) && view(ps[0]).Some? then Some(SurfaceId(view(ps[0]).value))
      else None
  }

  lemma {:induction false} FocusConcat(a: seq<P.Panel>, b: seq<P.Panel>, view: View, id: Option<string>)
    ensures FocusOf(a + b, view, id)
         == if FocusOf(b, view, id).Some? then FocusOf(b, view, id) else FocusOf(a, view, id)
  {
    if a == [] {
      assert a + b == b;
    } else {
      assert (a + b)[1..] == a[1..] + b;
      FocusConcat(a[1..], b, view, id);
    }
  }

  lemma LastOfParts(part: Part, parts: seq<Part>, a: seq<P.Panel>, b: seq<P.Panel>, view: View, id: Option<string>)
    requires part.focus == FocusOf(a, view, id) && LastFocus(parts) == FocusOf(b, view, id)
    requires part.focus != Some("")
    ensures LastFocus([part] + parts) == FocusOf(a + b, view, id)
  {
    assert ([part] + parts)[1..] == parts;
    FocusConcat(a, b, view, id);
  }

  /** Where ids are unique, it is the panel that is found under the id. */
  lemma {:induction false} FocusOfFound(ps: seq<P.Panel>, view: View, id: string)
    requires P.Unique(ps)
    ensures var p := P.Find(ps, id);
            FocusOf(ps, view, Some(id)) ==
            if p.Some? && view(p.value).Some? then Some(SurfaceId(view(p.value).value)) else None
  {
    if ps != [] {
      assert ps == [ps[0]] + ps[1..];
      P.UniqueConcat([ps[0]], ps[1..]);
      FocusOfFound(ps[1..], view, id);
      if ps[0].id == id {
        P.MemberHasId([ps[0]], ps[0]);
      }
    }
  }

  /** No panel is shown by a tab without a name. */
  ghost predicate NamedTabs(ps: seq<P.Panel>, view: View) {
    forall p :: p in ps && view(p).Some? ==> SurfaceId(view(p).value) != ""
  }

  lemma NamedParts(a: seq<P.Panel>, b: seq<P.Panel>, view: View)
    requires NamedTabs(a + b, view)
    ensures NamedTabs(a, view) && NamedTabs(b, view)
  {
    assert forall p :: p in a || p in b ==> p in a + b;
  }

  lemma {:induction false} BridgedFocus(n: Nary.Node, focused: Option<string>, r: B.Registry, c: B.Context)
    requires KeysAreIds(r) && Distinct(Laws.OfferedAll(Nary.Flatten(n)), r)
    requires NamedTabs(Nary.Flatten(n), BridgeView())
    ensures B.NodeSpec(n, focused, r, c).0.focus == FocusOf(Nary.Flatten(n), BridgeView(), focused)
    decreases n
  {
    match n
    case Leaf(p) =>
      assert Laws.OfferedAll([p]) == Laws.Offered(p) + Laws.OfferedAll([]) == Laws.Offered(p);
      LeafPruned(p, focused, r, c);
    case Split(d, cs, sizes) =>
      BridgedFocuses(cs, focused, r, c);
      Laws.NodesConverted(cs, focused, r, c);
      CombinedFocus(d, B.NodesSpec(cs, focused, r, c).0, sizes, B.BRIDGE_MIN, B.BRIDGE_MAX, B.NameSplit(c));
  }

  lemma {:induction false} BridgedFocuses(ns: seq<Nary.Node>, focused: Option<string>, r: B.Registry, c: B.Context)
    requires KeysAreIds(r) && Distinct(Laws.OfferedAll(Nary.FlattenAll(ns)), r)
    requires NamedTabs(Nary.FlattenAll(ns), BridgeView())
    ensures var parts := B.NodesSpec(ns, focused, r, c).0;
            && (forall i :: 0 <= i < |parts| ==> parts[i].focus != Some(""))
            && LastFocus(parts) == FocusOf(Nary.FlattenAll(ns), BridgeView(), focused)
    decreases ns
  {
    if ns != [] {
      var (part, r1) := B.NodeSpec(ns[0], focused, r, c);
      var (parts, r2) := B.NodesSpec(ns[1..], focused, r1, c);
      var a, b := Nary.Flatten(ns[0]), Nary.FlattenAll(ns[1..]);
      Laws.NodeConverted(ns[0], focused, r, c);
      Laws.OfferedConcat(a, b);
      DistinctStep(Laws.OfferedAll(a), Laws.OfferedAll(b), LeavesOf(part.tree), r, r1);
      NamedParts(a, b, BridgeView());
      BridgedFocus(ns[0], focused, r, c);
      BridgedFocuses(ns[1..], focused, r1, c);
      FocusIsNamed(a, BridgeView(), focused);
      LastOfParts(part, parts, a, b, BridgeView(), focused);
    }
  }

  /** The bridge focuses the tab the active panel shows, and nothing if that is no surface. */
  lemma BridgeFocus(legacy: Grid.GridState, c: B.Context)
    requires NoRepeats(Laws.OfferedAll(Nary.Shown(legacy.root)))
    requires NamedTabs(Nary.Shown(legacy.root), BridgeView())
    ensures B.BridgeSpec(legacy, c).focused == FocusOf(Nary.Shown(legacy.root), BridgeView(), legacy.activePanelId)
  {
    if legacy.root.Some? {
      BridgedFocus(legacy.root.value, legacy.activePanelId, map[], c);
    }
  }

  lemma {:induction false} MigratedNodeFocus(n: Nary.Node, focused: Option<string>, path: seq<nat>, r: M.Registry,
      c: M.Context)
    requires KeysAreIds(r.active) && Distinct(M.SurfaceIdsOf(Nary.Flatten(n)), r.active)
    requires NamedTabs(Nary.Flatten(n), MigrationView())
    ensures M.NodeSpec(n, focused, path, r, c).0.focus == FocusOf(Nary.Flatten(n), MigrationView(), focused)
    decreases n
  {
    match n
    case Leaf(p) =>
      var ids := M.TabIds(M.SurfaceTabs(p));
      assert M.SurfaceIdsOf([p]) == ids + M.SurfaceIdsOf([]) == ids;
      LeafMigrated(p, focused, path, r, c);
    case Split(d, cs, sizes) =>
      MigratedNodesFocus(cs, focused, path, 0, r, c);
      M.NodesConverted(cs, focused, path, 0, r, c);
      CombinedFocus(d, M.NodesSpec(cs, focused, path, 0, r, c).0, sizes, MIN_RATIO, MAX_RATIO, M.NameSplit(path, c));
  }

  lemma {:induction false} MigratedNodesFocus(ns: seq<Nary.Node>, focused: Option<string>, path: seq<nat>, i: nat,
      r: M.Registry, c: M.Context)
    requires KeysAreIds(r.active) && Distinct(M.SurfaceIdsOf(Nary.FlattenAll(ns)), r.active)
    requires NamedTabs(Nary.FlattenAll(ns), MigrationView())
    ensures var parts := M.NodesSpec(ns, focused, path, i, r, c).0;
            && (forall i :: 0 <= i < |parts| ==> parts[i].focus != Some(""))
            && LastFocus(parts) == FocusOf(Nary.FlattenAll(ns), MigrationView(), focused)
    decreases ns
  {
    if ns != [] {
      var (part, r1) := M.NodeSpec(ns[0], focused, path + [i], r, c);
      var (parts, r2) := M.NodesSpec(ns[1..], focused, path, i + 1, r1, c);
      var a, b := Nary.Flatten(ns[0]), Nary.FlattenAll(ns[1..]);
      M.NodeConverted(ns[0], focused, path + [i], r, c);
      M.SurfaceIdsConcat(a, b);
      DistinctStep(M.SurfaceIdsOf(a), M.SurfaceIdsOf(b), LeavesOf(part.tree), r.active, r1.active);
      NamedParts(a, b, MigrationView());
      MigratedNodeFocus(ns[0], focused, path + [i], r, c);
      MigratedNodesFocus(ns[1..], focused, path, i + 1, r1, c);
      FocusIsNamed(a, MigrationView(), focused);
      LastOfParts(part, parts, a, b, MigrationView(), focused);
    }
  }

  /**
   * A migrated grid focuses the tab by which the active panel is shown, and the first leaf if that panel is not
   * shown or there is none.
   */
  lemma MigrationFocus(legacy: Grid.GridState, c: M.Context)
    requires NoRepeats(M.RootIds(legacy))
    requires NamedTabs(Nary.Shown(legacy.root), MigrationView())
    ensures var s := M.MigrateSpec(legacy, c);
            var shown := FocusOf(Nary.Shown(legacy.root), MigrationView(), legacy.activePanelId);
            s.focused == if shown.Some? then shown else FirstVisible(s.visibleTree)
  {
    if legacy.root.Some? {
      var start := M.Registry(map[], 0);
      var part := M.NodeSpec(legacy.root.value, legacy.activePanelId, [], start, c).0;
      MigratedNodeFocus(legacy.root.value, legacy.activePanelId, [], start, c);
      M.NodeConverted(legacy.root.value, legacy.activePanelId, [], start, c);
      if part.focus.Some? {
        LeafSetIsLeaves(part.tree.value);
        FocusIsNamed(Nary.Shown(legacy.root), MigrationView(), legacy.activePanelId);
      }
    }
  }

  lemma {:induction false} FocusIsNamed(ps: seq<P.Panel>, view: View, id: Option<string>)
    requires NamedTabs(ps, view)
    ensures FocusOf(ps, view, id) != Some("")
  {
    if ps != [] {
      FocusIsNamed(ps[1..], view, id);
    }
  }

  // ----- Which tab a panel is shown by -----

  ghost predicate OneOfEach(tabs: seq<P.PanelTab>) {
    forall i, j :: 0 <= i < j < |tabs| ==> tabs[i].id != tabs[j].id
  }

  lemma {:induction false} NoEntryWithout(tabs: seq<P.PanelTab>, id: string)
    requires forall i :: 0 <= i < |tabs| ==> tabs[i].id != id
    ensures M.FindEntry(M.SurfaceTabsOf(tabs), id).None?
  {
    if tabs != [] {
      var kind, rest := M.MapLegacyKind(tabs[0].kind), M.SurfaceTabsOf(tabs[1..]);
      NoEntryWithout(tabs[1..], id);
      if kind.Some? {
        assert ([M.SurfaceTab(tabs[0], kind.value)] + rest)[1..] == rest;
      } else {
        assert [] + rest == rest;
      }
    }
  }

  /** A tab that is no surface is no entry. */
  lemma {:induction false} NoEntry(tabs: seq<P.PanelTab>, id: string)
    requires OneOfEach(tabs) && P.FindTab(tabs, id).Some? && M.MapLegacyKind(P.FindTab(tabs, id).value.kind).None?
    ensures M.FindEntry(M.SurfaceTabsOf(tabs), id).None?
  {
    var kind, rest := M.MapLegacyKind(tabs[0].kind), M.SurfaceTabsOf(tabs[1..]);
    if tabs[0].id == id {
      NoEntryWithout(tabs[1..], id);
    } else {
      NoEntry(tabs[1..], id);
    }
    if kind.Some? {
      assert ([M.SurfaceTab(tabs[0], kind.value)] + rest)[1..] == rest;
    } else {
      assert [] + rest == rest;
    }
  }

  lemma LoneTab(p: P.Panel)
    ensures p.tabs.None? ==> (M.SurfaceTabs(p) != [] <==> B.Converts(p))
  {
    if p.tabs.None? {
      var t := P.PanelToTab(p);
      var kind := M.MapLegacyKind(t.kind);
      var head := if kind.Some? then [M.SurfaceTab(t, kind.value)] else [];
      assert M.RawTabs(p) == [t] && [t][1..] == [] && M.SurfaceTabsOf([t]) == head + M.SurfaceTabsOf([t][1..]);
    }
  }

  /**
   * The migration shows a restored panel by the tab the panel shows, if that is a surface, and otherwise by the
   * first of its tabs that is.
   */
  lemma ShownTab(p: P.Panel)
    requires Restore.Canonical(p) && M.SurfaceTabs(p) != [] && (p.tabs.Some? ==> OneOfEach(p.tabs.value))
    ensures M.ActiveEntry(p).tab == if B.Converts(p) then P.ActiveTab(p) else M.SurfaceTabs(p)[0].tab
  {
    LoneTab(p);
    if B.Converts(p) {
      Agree.PanelsAgree(p);
    } else if p.tabs.Some? {
      var tabs := p.tabs.value;
      Agree.NamedTabsAll(tabs);
      Agree.FirstTab(tabs);
      Agree.NoEmptyTab(tabs);
      if Truthy(M.LegacyActiveTabId(p)) {
        NoEntry(tabs, M.LegacyActiveTabId(p).value);
      }
    }
  }

  // ----- Records -----

  /** What a migrated record takes over from its tab; its times are one reading of the migration's own clock. */
  predicate MigratedRecord(r: SurfaceRecord, t: P.PanelTab, c: M.Context) {
    && r.id == t.id && IsKind(t.kind, r.kind)
    && (Truthy(t.chatSessionId) ==> r.resourceId == t.chatSessionId.value)
    && (!Truthy(t.chatSessionId) && t.terminalId.Some? ==> r.resourceId == c.show(t.terminalId.value))
    && (!Truthy(t.chatSessionId) && t.terminalId.None? ==> r.resourceId == t.id)
    && r.title == (if t.title == "" then None else Some(t.title)) && !r.titleLocked && r.projectId == c.projectId
    && r.createdAt == r.lastFocusedAt >= c.base
  }

  /** Every surface tab of the panel has its record. */
  ghost predicate AllMigrated(p: P.Panel, active: map<string, SurfaceRecord>, c: M.Context) {
    forall e :: e in M.SurfaceTabs(p) ==> e.tab.id in active && MigratedRecord(active[e.tab.id], e.tab, c)
  }

  lemma MigratedGrows(p: P.Panel, a: map<string, SurfaceRecord>, b: map<string, SurfaceRecord>, c: M.Context)
    requires AllMigrated(p, a, c) && forall k :: k in a ==> k in b && b[k] == a[k]
    ensures AllMigrated(p, b, c)
  {
  }

  lemma {:induction false} EntryKinds(tabs: seq<P.PanelTab>)
    ensures forall e :: e in M.SurfaceTabsOf(tabs) ==> e.tab in tabs && IsKind(e.tab.kind, e.kind)
  {
    if tabs != [] {
      EntryKinds(tabs[1..]);
    }
  }

  lemma RecordMade(e: M.SurfaceTab, stamp: nat, c: M.Context)
    requires IsKind(e.tab.kind, e.kind)
    ensures MigratedRecord(M.MakeRecord(e, stamp, c), e.tab, c)
  {
  }

  /** Each of several distinct, new tabs gets its own record. */
  lemma {:induction false} OthersMigrated(entries: seq<M.SurfaceTab>, activeId: string, taken: set<string>,
                                          r: M.Registry, c: M.Context, e: M.SurfaceTab)
    requires KeysAreIds(r.active) && NoRepeats(M.TabIds(entries)) && e in entries && IsKind(e.tab.kind, e.kind)
    requires e.tab.id != activeId && e.tab.id !in r.active && e.tab.id !in taken
    ensures var r' := M.RegisterOthers(entries, activeId, taken, r, c).active;
            e.tab.id in r' && MigratedRecord(r'[e.tab.id], e.tab, c)
    decreases entries
  {
    var first, rest := entries[0], entries[1..];
    assert M.TabIds(entries) == [first.tab.id] + M.TabIds(rest);
    NoRepeatsConcat([first.tab.id], M.TabIds(rest));
    if first.tab.id == activeId {
      OthersMigrated(rest, activeId, taken, r, c, e);
    } else {
      var record := M.MakeRecord(first, r.stamp, c);
      var known := record.id in r.active || record.id in taken;
      var next := M.Registry(if known then r.active else r.active[record.id := record], r.stamp + 1);
      M.RegisterLaws(rest, activeId, taken, next, c);
      if first == e {
        RecordMade(e, r.stamp, c);
      } else {
        IdListed(rest, e);
        assert first.tab.id in [first.tab.id];
        OthersMigrated(rest, activeId, taken, next, c, e);
      }
    }
  }

  lemma LeafAllMigrated(p: P.Panel, focused: Option<string>, path: seq<nat>, r: M.Registry, c: M.Context)
    requires KeysAreIds(r.active) && Distinct(M.TabIds(M.SurfaceTabs(p)), r.active)
    ensures AllMigrated(p, M.LeafSpec(p, focused, path, r, c).1.active, c)
  {
    var entries := M.SurfaceTabs(p);
    EntryKinds(M.RawTabs(p));
    if entries != [] {
      var shown := M.ActiveEntry(p);
      IdListed(entries, shown);
      var record := M.MakeRecord(shown, r.stamp, c);
      var next := M.Registry(r.active[record.id := record], r.stamp + 1);
      M.RegisterLaws(entries, record.id, {}, next, c);
      RecordMade(shown, r.stamp, c);
      forall e | e in entries ensures var r' := M.LeafSpec(p, focused, path, r, c).1.active;
                                      e.tab.id in r' && MigratedRecord(r'[e.tab.id], e.tab, c)
      {
        IdListed(entries, e);
        if e.tab.id == shown.tab.id {
          SameEntry(entries, e, shown);
        } else {
          OthersMigrated(entries, record.id, {}, next, c, e);
        }
      }
    }
  }

  lemma {:induction false} SameEntry(entries: seq<M.SurfaceTab>, e: M.SurfaceTab, f: M.SurfaceTab)
    requires NoRepeats(M.TabIds(entries)) && e in entries && f in entries && e.tab.id == f.tab.id
    ensures e == f
  {
    var rest := entries[1..];
    assert M.TabIds(entries) == [entries[0].tab.id] + M.TabIds(rest);
    NoRepeatsConcat([entries[0].tab.id], M.TabIds(rest));
    assert entries[0].tab.id in [entries[0].tab.id];
    if e in rest {
      IdListed(rest, e);
    }
    if f in rest {
      IdListed(rest, f);
    }
    if e in rest && f in rest {
      SameEntry(rest, e, f);
    }
  }

  lemma {:induction false} NodeAllMigrated(n: Nary.Node, focused: Option<string>, path: seq<nat>, r: M.Registry,
      c: M.Context, p: P.Panel)
    requires KeysAreIds(r.active) && Distinct(M.SurfaceIdsOf(Nary.Flatten(n)), r.active) && p in Nary.Flatten(n)
    ensures AllMigrated(p, M.NodeSpec(n, focused, path, r, c).1.active, c)
    decreases n
  {
    match n
    case Leaf(q) =>
      var ids := M.TabIds(M.SurfaceTabs(q));
      assert M.SurfaceIdsOf([q]) == ids + M.SurfaceIdsOf([]) == ids;
      LeafAllMigrated(q, focused, path, r, c);
    case Split(_, cs, _) => NodesAllMigrated(cs, focused, path, 0, r, c, p);
  }

  lemma {:induction false} NodesAllMigrated(ns: seq<Nary.Node>, focused: Option<string>, path: seq<nat>, i: nat,
      r: M.Registry, c: M.Context, p: P.Panel)
    requires KeysAreIds(r.active) && Distinct(M.SurfaceIdsOf(Nary.FlattenAll(ns)), r.active)
    requires p in Nary.FlattenAll(ns)
    ensures AllMigrated(p, M.NodesSpec(ns, focused, path, i, r, c).1.active, c)
    decreases ns
  {
    var (part, r1) := M.NodeSpec(ns[0], focused, path + [i], r, c);
    var (parts, r2) := M.NodesSpec(ns[1..], focused, path, i + 1, r1, c);
    var a, b := Nary.Flatten(ns[0]), Nary.FlattenAll(ns[1..]);
    M.NodeConverted(ns[0], focused, path + [i], r, c);
    M.NodesConverted(ns[1..], focused, path, i + 1, r1, c);
    M.SurfaceIdsConcat(a, b);
    DistinctStep(M.SurfaceIdsOf(a), M.SurfaceIdsOf(b), LeavesOf(part.tree), r.active, r1.active);
    if p in a {
      NodeAllMigrated(ns[0], focused, path + [i], r, c, p);
      MigratedGrows(p, r1.active, r2.active, c);
    } else {
      NodesAllMigrated(ns[1..], focused, path, i + 1, r1, c, p);
    }
  }

  // ----- Closed panels -----

  /** The tabs by which closed panels are shown, in the order of the panels. */
  function ClosedTabs(ps: seq<P.Panel>): seq<P.PanelTab> {
    if ps == [] then []
    else (if M.SurfaceTabs(ps[0]) != [] then [M.ActiveEntry(ps[0]).tab] else []) + ClosedTabs(ps[1..])
  }

  /** The tabs are the history, each with its record and closed when that was made. */
  ghost predicate MigratedHistory(h: seq<ClosedSurface>, tabs: seq<P.PanelTab>, c: M.Context) {
    && |h| == |tabs|
    && forall i :: 0 <= i < |h| ==> h[i].closedAt == h[i].record.createdAt && MigratedRecord(h[i].record, tabs[i], c)
  }

  /** All surface tabs of a closed panel but the one by which it is shown are active. */
  ghost predicate ClosedMigrated(p: P.Panel, active: map<string, SurfaceRecord>, c: M.Context) {
    M.SurfaceTabs(p) != [] ==>
      forall e :: e in M.SurfaceTabs(p) && e.tab.id != M.ActiveEntry(p).tab.id ==>
        e.tab.id in active && MigratedRecord(active[e.tab.id], e.tab, c)
  }

  lemma ClosedGrows(p: P.Panel, a: map<string, SurfaceRecord>, b: map<string, SurfaceRecord>, c: M.Context)
    requires ClosedMigrated(p, a, c) && forall k :: k in a ==> k in b && b[k] == a[k]
    ensures ClosedMigrated(p, b, c)
  {
  }

  /** The ids are distinct and known on neither side. */
  ghost predicate NewTo(ids: seq<string>, h: seq<ClosedSurface>, r: M.Registry) {
    Distinct(ids, r.active) && forall s :: s in ids ==> s !in HistoryIds(h)
  }

  lemma ClosedStepMigrated(p: P.Panel, h: seq<ClosedSurface>, r: M.Registry, c: M.Context)
    requires M.Apart(h, r) && NewTo(M.TabIds(M.SurfaceTabs(p)), h, r)
    ensures var (h', r') := M.ClosedStep(p, h, r, c);
            && h <= h' && MigratedHistory(h'[|h|..], ClosedTabs([p]), c) && ClosedMigrated(p, r'.active, c)
  {
    var entries := M.SurfaceTabs(p);
    EntryKinds(M.RawTabs(p));
    assert [p][1..] == [];
    if entries != [] {
      var shown := M.ActiveEntry(p);
      var record := M.MakeRecord(shown, r.stamp, c);
      IdListed(entries, shown);
      RecordMade(shown, r.stamp, c);
      var (h', r') := M.ClosedStep(p, h, r, c);
      M.AppendId(h, ClosedSurface(record, c.base + r.stamp as real));
      assert h'[|h|..] == [ClosedSurface(record, c.base + r.stamp as real)];
      forall e | e in entries && e.tab.id != shown.tab.id
        ensures e.tab.id in r'.active && MigratedRecord(r'.active[e.tab.id], e.tab, c)
      {
        IdListed(entries, e);
        OthersMigrated(entries, record.id, HistoryIds(h'), r.(stamp := r.stamp + 1), c, e);
      }
    }
  }

  lemma HistoryConcat(a: seq<ClosedSurface>, b: seq<ClosedSurface>, x: seq<P.PanelTab>, y: seq<P.PanelTab>,
      c: M.Context)
    requires MigratedHistory(a, x, c) && MigratedHistory(b, y, c)
    ensures MigratedHistory(a + b, x + y, c)
  {
  }

  lemma HistoryGrows(h: seq<ClosedSurface>, h1: seq<ClosedSurface>, h': seq<ClosedSurface>, ps: seq<P.Panel>)
    requires ps != [] && h <= h1 && h1 <= h'
    ensures h'[|h|..] == h1[|h|..] + h'[|h1|..]
    ensures ClosedTabs(ps) == ClosedTabs([ps[0]]) + ClosedTabs(ps[1..])
  {
    assert [ps[0]][1..] == [];
  }

  lemma {:induction false} AllClosedMigrated(ps: seq<P.Panel>, h: seq<ClosedSurface>, r: M.Registry, c: M.Context)
    requires M.Apart(h, r) && NewTo(M.SurfaceIdsOf(ps), h, r)
    ensures var (h', r') := M.ClosedSpec(ps, h, r, c);
            && h <= h' && MigratedHistory(h'[|h|..], ClosedTabs(ps), c)
            && forall p :: p in ps ==> ClosedMigrated(p, r'.active, c)
    decreases ps
  {
    if ps != [] {
      var first, rest := M.TabIds(M.SurfaceTabs(ps[0])), M.SurfaceIdsOf(ps[1..]);
      var (h1, r1) := M.ClosedStep(ps[0], h, r, c);
      NoRepeatsConcat(first, rest);
      M.ClosedStepLaws(ps[0], h, r, c);
      ClosedStepMigrated(ps[0], h, r, c);
      forall s | s in rest ensures s !in r1.active && s !in HistoryIds(h1) {
        assert s in M.SurfaceIdsOf(ps);
        M.ToSetMember(first, s);
        assert s !in r.active.Keys + HistoryIds(h) + M.ToSet(first);
      }
      M.ClosedLaws(ps[1..], h1, r1, c);
      AllClosedMigrated(ps[1..], h1, r1, c);
      var (h', r') := M.ClosedSpec(ps[1..], h1, r1, c);
      ClosedGrows(ps[0], r1.active, r'.active, c);
      HistoryGrows(h, h1, h', ps);
      HistoryConcat(h1[|h|..], h'[|h1|..], ClosedTabs([ps[0]]), ClosedTabs(ps[1..]), c);
    }
  }

  /**
   * With distinct tab ids: every surface tab of the tree is active with its record; the tabs by which the closed
   * panels are shown are the history, in the order of the panels, and all their other surface tabs are active.
   */
  lemma EveryTabMigrated(legacy: Grid.GridState, c: M.Context)
    requires NoRepeats(M.RootIds(legacy) + M.SurfaceIdsOf(legacy.closed))
    ensures var s := M.MigrateSpec(legacy, c);
            && (forall p :: p in Nary.Shown(legacy.root) ==> AllMigrated(p, s.active, c))
            && MigratedHistory(s.history, ClosedTabs(legacy.closed), c)
            && (forall p :: p in legacy.closed ==> ClosedMigrated(p, s.active, c))
  {
    var start := M.Registry(map[], 0);
    var (part, r) := if legacy.root.None? then (Part(None, None), start)
                     else M.NodeSpec(legacy.root.value, legacy.activePanelId, [], start, c);
    if legacy.root.Some? {
      M.NodeConverted(legacy.root.value, legacy.activePanelId, [], start, c);
    }
    DistinctStep(M.RootIds(legacy), M.SurfaceIdsOf(legacy.closed), LeavesOf(part.tree), map[], r.active);
    M.ClosedLaws(legacy.closed, [], r, c);
    AllClosedMigrated(legacy.closed, [], r, c);
    var s := M.MigrateSpec(legacy, c);
    forall p | p in Nary.Shown(legacy.root) ensures AllMigrated(p, s.active, c) {
      NodeAllMigrated(legacy.root.value, legacy.activePanelId, [], start, c, p);
      MigratedGrows(p, r.active, s.active, c);
    }
  }

  // ----- Times -----

  /** Active surfaces have different times, all of them taken so far. */
  ghost predicate Stamped(r: M.Registry, c: M.Context) {
    && (forall k :: k in r.active ==> c.base <= r.active[k].createdAt < c.base + r.stamp as real)
    && (forall k, l :: k in r.active && l in r.active && k != l ==> r.active[k].createdAt != r.active[l].createdAt)
  }

  lemma StampedMore(r: M.Registry, e: M.SurfaceTab, c: M.Context)
    requires Stamped(r, c)
    ensures Stamped(M.Registry(r.active, r.stamp + 1), c)
    ensures e.tab.id !in r.active ==>
              Stamped(M.Registry(r.active[e.tab.id := M.MakeRecord(e, r.stamp, c)], r.stamp + 1), c)
  {
  }

  lemma {:induction false} OthersStamped(entries: seq<M.SurfaceTab>, activeId: string, taken: set<string>,
      r: M.Registry,
                                         c: M.Context)
    requires Stamped(r, c)
    ensures Stamped(M.RegisterOthers(entries, activeId, taken, r, c), c)
  {
    if entries != [] {
      if entries[0].tab.id == activeId {
        OthersStamped(entries[1..], activeId, taken, r, c);
      } else {
        var record := M.MakeRecord(entries[0], r.stamp, c);
        var known := record.id in r.active || record.id in taken;
        StampedMore(r, entries[0], c);
        OthersStamped(entries[1..], activeId, taken,
                      M.Registry(if known then r.active else r.active[record.id := record], r.stamp + 1), c);
      }
    }
  }

  lemma {:induction false} NodeStamped(n: Nary.Node, focused: Option<string>, path: seq<nat>, r: M.Registry,
      c: M.Context)
    requires Stamped(r, c)
    ensures Stamped(M.NodeSpec(n, focused, path, r, c).1, c)
    decreases n
  {
    match n
    case Leaf(p) =>
      if M.SurfaceTabs(p) != [] {
        var record := M.MakeRecord(M.ActiveEntry(p), r.stamp, c);
        StampedMore(r, M.ActiveEntry(p), c);
        if record.id !in r.active {
          OthersStamped(M.SurfaceTabs(p), record.id, {}, M.Registry(r.active[record.id := record], r.stamp + 1), c);
        }
      }
    case Split(_, cs, _) => NodesStamped(cs, focused, path, 0, r, c);
  }

  lemma {:induction false} NodesStamped(ns: seq<Nary.Node>, focused: Option<string>, path: seq<nat>, i: nat,
      r: M.Registry, c: M.Context)
    requires Stamped(r, c)
    ensures Stamped(M.NodesSpec(ns, focused, path, i, r, c).1, c)
    decreases ns
  {
    if ns != [] {
      NodeStamped(ns[0], focused, path + [i], r, c);
      NodesStamped(ns[1..], focused, path, i + 1, M.NodeSpec(ns[0], focused, path + [i], r, c).1, c);
    }
  }

  lemma {:induction false} ClosedStamped(ps: seq<P.Panel>, h: seq<ClosedSurface>, r: M.Registry, c: M.Context)
    requires Stamped(r, c)
    ensures Stamped(M.ClosedSpec(ps, h, r, c).1, c)
    decreases ps
  {
    if ps != [] {
      var (h1, r1) := M.ClosedStep(ps[0], h, r, c);
      if M.SurfaceTabs(ps[0]) != [] {
        var record := M.MakeRecord(M.ActiveEntry(ps[0]), r.stamp, c);
        StampedMore(r, M.ActiveEntry(ps[0]), c);
        OthersStamped(M.SurfaceTabs(ps[0]), record.id, HistoryIds(h1), r.(stamp := r.stamp + 1), c);
      }
      ClosedStamped(ps[1..], h1, r1, c);
    }
  }

  /** No two migrated surfaces have the same times, so the order among them is fixed. */
  lemma MigratedTimesDiffer(legacy: Grid.GridState, c: M.Context, k: string, l: string)
    requires k in M.MigrateSpec(legacy, c).active && l in M.MigrateSpec(legacy, c).active && k != l
    ensures var active := M.MigrateSpec(legacy, c).active;
            active[k].createdAt != active[l].createdAt && active[k].createdAt >= c.base
  {
    var start := M.Registry(map[], 0);
    var r := if legacy.root.None? then start else M.NodeSpec(legacy.root.value, legacy.activePanelId, [], start, c).1;
    if legacy.root.Some? {
      NodeStamped(legacy.root.value, legacy.activePanelId, [], start, c);
    }
    ClosedStamped(legacy.closed, [], r, c);
  }
}
