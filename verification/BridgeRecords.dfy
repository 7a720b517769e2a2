/** What the bridge (src/lib/workspaceBridge.ts) records of every tab: shown, behind it, hidden or closed. */
module BridgeRecords {
  import opened Prelude
  import opened Workspace
  import opened WorkspaceRuns
  import opened Geometry
  import opened LegacyFold
  import opened Bridge
  import opened BridgeLaws
  import P = Panels
  import Nary = SplitTree
  import Grid = PanelGrid
  import M = Migration
  import Pruned = PrunedTrees

  // ----- Records -----

  /** Chats, omp chats and terminals are surfaces of these kinds; files and schematics are none. */
  predicate IsKind(t: P.PanelType, k: SurfaceKind) {
    match t
    case Chat => k == ChatSurface
    case Omp => k == OmpChat
    case Terminal => k == TerminalSurface
    case File => false
    case Schematic => false
  }

  predicate IsSurfaceType(t: P.PanelType) {
    t.Chat? || t.Omp? || t.Terminal?
  }

  /** What a record takes over from its tab: the session, else the terminal, else the given id, and the rest. */
  predicate RecordOf(r: SurfaceRecord, t: P.PanelTab, id: string, c: Context) {
    && r.id == t.id && IsKind(t.kind, r.kind)
    && (t.chatSessionId.Some? ==> r.resourceId == t.chatSessionId.value)
    && (t.chatSessionId.None? && t.terminalId.Some? ==> r.resourceId == c.show(t.terminalId.value))
    && (t.chatSessionId.None? && t.terminalId.None? ==> r.resourceId == id)
    && r.title == Some(t.title) && !r.titleLocked && r.projectId == c.projectId && r.createdAt == t.createdAt
  }

  /** The tab a panel shows: it falls back to the panel's id, and was focused when the panel was used. */
  predicate ShownRecord(r: SurfaceRecord, p: P.Panel, c: Context) {
    RecordOf(r, P.ActiveTab(p), p.id, c) && r.lastFocusedAt == p.lastUsedAt.GetOr(P.ActiveTab(p).createdAt)
  }

  /** A tab behind it: it falls back to its own id, and counts as focused now. */
  predicate BehindRecord(r: SurfaceRecord, t: P.PanelTab, c: Context) {
    RecordOf(r, t, t.id, c) && r.lastFocusedAt == c.now
  }

  lemma ShownIsRecorded(p: P.Panel, c: Context)
    ensures PanelToSurface(p, c).Some? <==> IsSurfaceType(P.ActiveTab(p).kind)
    ensures PanelToSurface(p, c).Some? ==> ShownRecord(PanelToSurface(p, c).value, p, c)
  {
  }

  /** The surface tabs behind the one a panel shows. */
  predicate IsBehind(p: P.Panel, t: P.PanelTab) {
    && p.tabs.Some? && |p.tabs.value| > 1 && t in p.tabs.value
    && IsSurfaceType(t.kind) && t.id != SurfaceId(p)
  }

  /** Everything a panel in a tree puts into the registry, if it shows a surface. */
  ghost predicate Recorded(p: P.Panel, r: Registry, c: Context) {
    IsSurfaceType(P.ActiveTab(p).kind) ==>
      && SurfaceId(p) in r && ShownRecord(r[SurfaceId(p)], p, c)
      && forall t :: IsBehind(p, t) ==> t.id in r && BehindRecord(r[t.id], t, c)
  }

  lemma RecordedGrows(p: P.Panel, r: Registry, r': Registry, c: Context)
    requires Recorded(p, r, c) && forall k :: k in r ==> k in r' && r'[k] == r[k]
    ensures Recorded(p, r', c)
  {
  }

  // ----- One panel -----

  lemma {:induction false} EntryOf(tabs: seq<P.PanelTab>, t: P.PanelTab) returns (e: M.SurfaceTab)
    requires t in tabs && IsSurfaceType(t.kind)
    ensures e in M.SurfaceTabsOf(tabs) && e.tab == t && IsKind(t.kind, e.kind)
  {
    var kind, rest := M.MapLegacyKind(tabs[0].kind), M.SurfaceTabsOf(tabs[1..]);
    if tabs[0] == t {
      e := M.SurfaceTab(t, kind.value);
      assert M.SurfaceTabsOf(tabs)[0] == e;
    } else {
      e := EntryOf(tabs[1..], t);
      assert e in rest;
    }
  }

  lemma {:induction false} IdListed(entries: seq<M.SurfaceTab>, e: M.SurfaceTab)
    requires e in entries
    ensures e.tab.id in M.TabIds(entries)
  {
    if entries[0] != e {
      IdListed(entries[1..], e);
    }
  }

  /** Each of several distinct, new tabs gets its own record. */
  lemma {:induction false} TabsRegistered(entries: seq<M.SurfaceTab>, shown: string, r: Registry, c: Context,
                                          e: M.SurfaceTab)
    requires KeysAreIds(r) && Pruned.Distinct(M.TabIds(entries), r) && e in entries && e.tab.id != shown
    requires IsKind(e.tab.kind, e.kind)
    ensures var r' := RegisterTabs(entries, shown, r, c); e.tab.id in r' && BehindRecord(r'[e.tab.id], e.tab, c)
    decreases entries
  {
    var first, ids := entries[0], M.TabIds(entries[1..]);
    var id := first.tab.id;
    var next := if id == shown || id in r then r else r[id := TabToSurface(first, c)];
    assert M.TabIds(entries) == [id] + ids;
    NoRepeatsConcat([id], ids);
    assert id in [id] && id in M.TabIds(entries);
    RegisterTabsLaws(entries[1..], shown, next, c);
    if first != e {
      forall s | s in ids ensures s !in next {
        assert s in M.TabIds(entries);
      }
      TabsRegistered(entries[1..], shown, next, c, e);
    }
  }

  lemma LeafRecorded(p: P.Panel, focused: Option<string>, r: Registry, c: Context)
    requires KeysAreIds(r) && Pruned.Distinct(Offered(p), r)
    ensures Recorded(p, LeafSpec(p, focused, r, c).1, c)
  {
    LeafConverted(p, focused, r, c);
    ShownIsRecorded(p, c);
    if Converts(p) {
      ShownIsOffered(p);
      var r1, r' := RegisterTabs(OtherTabs(p), SurfaceId(p), r, c), LeafSpec(p, focused, r, c).1;
      RegisterTabsLaws(OtherTabs(p), SurfaceId(p), r, c);
      forall t | IsBehind(p, t) ensures t.id in r' && BehindRecord(r'[t.id], t, c) {
        var e := EntryOf(p.tabs.value, t);
        TabsRegistered(OtherTabs(p), SurfaceId(p), r, c, e);
      }
    }
  }

  // ----- Trees -----

  lemma {:induction false} NodeRecorded(n: Nary.Node, focused: Option<string>, r: Registry, c: Context, p: P.Panel)
    requires KeysAreIds(r) && Pruned.Distinct(OfferedAll(Nary.Flatten(n)), r) && p in Nary.Flatten(n)
    ensures Recorded(p, NodeSpec(n, focused, r, c).1, c)
    decreases n
  {
    match n
    case Leaf(q) =>
      assert OfferedAll([q]) == Offered(q) + OfferedAll([]) == Offered(q);
      LeafRecorded(q, focused, r, c);
    case Split(_, cs, _) => NodesRecorded(cs, focused, r, c, p);
  }

  lemma {:induction false} NodesRecorded(ns: seq<Nary.Node>, focused: Option<string>, r: Registry, c: Context,
                                         p: P.Panel)
    requires KeysAreIds(r) && Pruned.Distinct(OfferedAll(Nary.FlattenAll(ns)), r) && p in Nary.FlattenAll(ns)
    ensures Recorded(p, NodesSpec(ns, focused, r, c).1, c)
    decreases ns
  {
    var (part, r1) := NodeSpec(ns[0], focused, r, c);
    var (parts, r2) := NodesSpec(ns[1..], focused, r1, c);
    var a, b := Nary.Flatten(ns[0]), Nary.FlattenAll(ns[1..]);
    NodeConverted(ns[0], focused, r, c);
    NodesConverted(ns[1..], focused, r1, c);
    OfferedConcat(a, b);
    Pruned.DistinctStep(OfferedAll(a), OfferedAll(b), LeavesOf(part.tree), r, r1);
    if p in a {
      NodeRecorded(ns[0], focused, r, c, p);
      RecordedGrows(p, r1, r2, c);
    } else {
      NodesRecorded(ns[1..], focused, r1, c, p);
    }
  }

  lemma {:induction false} StashedRecorded(groups: seq<Nary.Node>, r: Registry, c: Context, p: P.Panel)
    requires KeysAreIds(r) && Pruned.Distinct(OfferedAll(Nary.FlattenAll(groups)), r) && p in Nary.FlattenAll(groups)
    ensures Recorded(p, StashedSpec(groups, r, c).1, c)
    decreases groups
  {
    var (part, r1) := NodeSpec(groups[0], None, r, c);
    var (trees, r2) := StashedSpec(groups[1..], r1, c);
    var a, b := Nary.Flatten(groups[0]), Nary.FlattenAll(groups[1..]);
    NodeConverted(groups[0], None, r, c);
    StashedConverted(groups[1..], r1, c);
    OfferedConcat(a, b);
    Pruned.DistinctStep(OfferedAll(a), OfferedAll(b), LeavesOf(part.tree), r, r1);
    if p in a {
      NodeRecorded(groups[0], None, r, c, p);
      RecordedGrows(p, r1, r2, c);
    } else {
      StashedRecorded(groups[1..], r1, c, p);
    }
  }

  /** A hidden panel registers the tab it shows, and no other. */
  lemma {:induction false} HiddenRecorded(ps: seq<P.Panel>, r: Registry, c: Context, p: P.Panel)
    requires KeysAreIds(r) && Pruned.Distinct(HiddenIds(ps), r) && p in ps && Converts(p)
    ensures var r' := HiddenSpec(ps, r, c); SurfaceId(p) in r' && ShownRecord(r'[SurfaceId(p)], p, c)
    decreases ps
  {
    var surface := PanelToSurface(ps[0], c);
    var r1 := if surface.None? || surface.value.id in r then r else r[surface.value.id := surface.value];
    var head, rest := if Converts(ps[0]) then [SurfaceId(ps[0])] else [], HiddenIds(ps[1..]);
    NoRepeatsConcat(head, rest);
    HiddenConverted(ps[1..], r1, c);
    ShownIsRecorded(ps[0], c);
    if Converts(ps[0]) {
      assert SurfaceId(ps[0]) in head && SurfaceId(ps[0]) in HiddenIds(ps);
    }
    if p != ps[0] {
      forall s | s in rest ensures s !in r1 {
        assert s in HiddenIds(ps);
      }
      HiddenRecorded(ps[1..], r1, c, p);
    }
  }

  // ----- The whole state -----

  lemma Stages(legacy: Grid.GridState, c: Context) returns (r: Registry, r1: Registry, r2: Registry)
    requires NoRepeats(AllIds(legacy))
    ensures r == RootSpec(legacy.root, legacy.activePanelId, c).1 && r1 == HiddenSpec(legacy.hidden, r, c)
    ensures r2 == StashedSpec(legacy.stashed, r1, c).1 == BridgeSpec(legacy, c).active
    ensures KeysAreIds(r) && Pruned.Distinct(OfferedAll(Nary.Shown(legacy.root)), map[])
    ensures Pruned.Distinct(HiddenIds(legacy.hidden), r) && KeysAreIds(r1)
    ensures Pruned.Distinct(OfferedAll(Nary.FlattenAll(legacy.stashed)), r1)
    ensures forall k :: k in r ==> k in r1 && r1[k] == r[k]
    ensures forall k :: k in r1 ==> k in r2 && r2[k] == r1[k]
  {
    var (part, q) := RootSpec(legacy.root, legacy.activePanelId, c);
    r, r1 := q, HiddenSpec(legacy.hidden, q, c);
    r2 := StashedSpec(legacy.stashed, r1, c).1;
    if legacy.root.Some? {
      NodeConverted(legacy.root.value, legacy.activePanelId, map[], c);
    }
    HiddenConverted(legacy.hidden, r, c);
    StashedConverted(legacy.stashed, r1, c);
    var x, y, z := OfferedAll(Nary.Shown(legacy.root)), HiddenIds(legacy.hidden),
      OfferedAll(Nary.FlattenAll(legacy.stashed));
    NoRepeatsConcat(x + y, z);
    Pruned.DistinctStep(x, y, LeavesOf(part.tree), map[], r);
    ConvertedTwice(LeavesOf(part.tree), [], x, y, map[], r, r1);
    forall s | s in z ensures s !in r1 {
      assert s in r1 ==> s in x + y;
    }
  }

  /**
   * With distinct tab ids: every panel of a tree that shows a surface has a record of that tab, and one of each
   * surface tab behind it, with what they take over from the tab.
   */
  lemma TreePanelsRecorded(legacy: Grid.GridState, c: Context, p: P.Panel)
    requires NoRepeats(AllIds(legacy)) && (p in Nary.Shown(legacy.root) || p in Nary.FlattenAll(legacy.stashed))
    ensures Recorded(p, BridgeSpec(legacy, c).active, c)
  {
    var r, r1, r2 := Stages(legacy, c);
    if p in Nary.Shown(legacy.root) {
      NodeRecorded(legacy.root.value, legacy.activePanelId, map[], c, p);
      RecordedGrows(p, r, r1, c);
      RecordedGrows(p, r1, r2, c);
    } else {
      StashedRecorded(legacy.stashed, r1, c, p);
    }
  }

  lemma HiddenPanelsRecorded(legacy: Grid.GridState, c: Context, p: P.Panel)
    requires NoRepeats(AllIds(legacy)) && p in legacy.hidden && IsSurfaceType(P.ActiveTab(p).kind)
    ensures var active := BridgeSpec(legacy, c).active;
            SurfaceId(p) in active && ShownRecord(active[SurfaceId(p)], p, c)
  {
    var r, r1, r2 := Stages(legacy, c);
    HiddenRecorded(legacy.hidden, r, c, p);
  }

  /** The closed panels that show a surface, in order. */
  function ClosedSurfaces(ps: seq<P.Panel>): seq<P.Panel> {
    if ps == [] then []
    else (if IsSurfaceType(P.ActiveTab(ps[0]).kind) then [ps[0]] else []) + ClosedSurfaces(ps[1..])
  }

  /** The history is what the closed panels show, in their order, closed now. */
  lemma {:induction false} HistoryRecorded(ps: seq<P.Panel>, c: Context)
    ensures |HistorySpec(ps, c)| == |ClosedSurfaces(ps)|
    ensures forall i :: 0 <= i < |HistorySpec(ps, c)| ==>
              && HistorySpec(ps, c)[i].closedAt == c.now
              && ShownRecord(HistorySpec(ps, c)[i].record, ClosedSurfaces(ps)[i], c)
  {
    if ps != [] {
      ShownIsRecorded(ps[0], c);
      HistoryRecorded(ps[1..], c);
    }
  }
}
