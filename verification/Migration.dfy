/**
 * Migrating a legacy grid into the workspace model (src/lib/workspaceState.ts). Clock and generated node
 * ids are parameters: `base` is the clock reading, and `name` gives the id generated at a place of the tree
 * (the path to the legacy node, and for a split the child at which it starts).
 */
module Migration {
  import opened Prelude
  import opened Workspace
  import opened WorkspaceRuns
  import opened Geometry
  import opened LegacyFold
  import P = Panels
  import Nary = SplitTree
  import Grid = PanelGrid

  // ----- Surfaces of a panel -----

  function MapLegacyKind(t: P.PanelType): Option<SurfaceKind> {
    match t
    case Chat => Some(ChatSurface)
    case Omp => Some(OmpChat)
    case Terminal => Some(TerminalSurface)
    case File => None
    case Schematic => None
  }

  datatype SurfaceTab = SurfaceTab(tab: P.PanelTab, kind: SurfaceKind)

  /** `String(n)` is a parameter wherever a terminal id becomes a resource id. */
  type Show = real -> string

  function LegacyResourceId(t: P.PanelTab, show: Show): string {
    if Truthy(t.chatSessionId) then t.chatSessionId.value
    else if t.terminalId.Some? then show(t.terminalId.value)
    else t.id
  }

  function NamedTabs(tabs: seq<P.PanelTab>): seq<P.PanelTab> {
    if tabs == [] then [] else (if tabs[0].id == "" then [] else [tabs[0]]) + NamedTabs(tabs[1..])
  }

  /** The explicit tabs where there are at least two usable ones, else the panel's own identity. */
  function RawTabs(p: P.Panel): (r: seq<P.PanelTab>)
    ensures r != []
  {
    var named := if p.tabs.Some? && |p.tabs.value| > 1 then NamedTabs(p.tabs.value) else [];
    if |named| > 1 then named else [P.PanelToTab(p)]
  }

  function HasExplicitTabs(p: P.Panel): bool {
    p.tabs.Some? && |p.tabs.value| > 1 && |NamedTabs(p.tabs.value)| > 1
  }

  function LegacyActiveTabId(p: P.Panel): Option<string> {
    var id := if HasExplicitTabs(p) then p.activeTabId else Some(p.id);
    if Truthy(id) && P.FindTab(RawTabs(p), id.value).None? then Some(RawTabs(p)[0].id) else id
  }

  function SurfaceTabsOf(tabs: seq<P.PanelTab>): seq<SurfaceTab> {
    if tabs == [] then []
    else
      var kind := MapLegacyKind(tabs[0].kind);
      (if kind.Some? then [SurfaceTab(tabs[0], kind.value)] else []) + SurfaceTabsOf(tabs[1..])
  }

  function SurfaceTabs(p: P.Panel): seq<SurfaceTab> {
    SurfaceTabsOf(RawTabs(p))
  }

  function FindEntry(entries: seq<SurfaceTab>, id: string): (r: Option<SurfaceTab>)
    ensures r.Some? ==> r.value in entries && r.value.tab.id == id
  {
    if entries == [] then None else if entries[0].tab.id == id then Some(entries[0]) else FindEntry(entries[1..], id)
  }

  function ActiveEntry(p: P.Panel): (r: SurfaceTab)
    requires SurfaceTabs(p) != []
    ensures r in SurfaceTabs(p)
  {
    var entries, id := SurfaceTabs(p), LegacyActiveTabId(p);
    if Truthy(id) then FindEntry(entries, id.value).GetOr(entries[0]) else entries[0]
  }

  datatype Context = Context(projectId: string, base: real, show: Show, name: (seq<nat>, nat) -> string)

  function MakeRecord(e: SurfaceTab, stamp: nat, c: Context): SurfaceRecord {
    var at := c.base + stamp as real;
    SurfaceRecord(e.tab.id, e.kind, LegacyResourceId(e.tab, c.show),
                  if e.tab.title == "" then None else Some(e.tab.title),
                  false, c.projectId, at, at)
  }

  // ----- The translation -----

  /** The shared registry and the time stamp counter. */
  datatype Registry = Registry(active: map<string, SurfaceRecord>, stamp: nat)

  /** Registers the entries other than the active one, except ids that are taken; every entry takes a stamp. */
  function RegisterOthers(entries: seq<SurfaceTab>, activeId: string, taken: set<string>, r: Registry,
      c: Context): Registry {
    if entries == [] then r
    else if entries[0].tab.id == activeId then RegisterOthers(entries[1..], activeId, taken, r, c)
    else
      var record := MakeRecord(entries[0], r.stamp, c);
      var active := if record.id in r.active || record.id in taken then r.active else r.active[record.id := record];
      RegisterOthers(entries[1..], activeId, taken, Registry(active, r.stamp + 1), c)
  }

  function LeafSpec(p: P.Panel, activePanelId: Option<string>, path: seq<nat>, r: Registry, c: Context)
    : (Part, Registry) {
    if SurfaceTabs(p) == [] then (Part(None, None), r)
    else
      var record := MakeRecord(ActiveEntry(p), r.stamp, c);
      var r1 := r.(stamp := r.stamp + 1);
      if record.id in r.active then (Part(None, None), r1)
      else
        (Part(Some(LeafNode(c.name(path, 0), record.id)),
              if activePanelId == Some(p.id) then Some(record.id) else None),
         RegisterOthers(SurfaceTabs(p), record.id, {}, r1.(active := r1.active[record.id := record]), c))
  }

  function NameSplit(path: seq<nat>, c: Context): Namer {
    (start: nat, end: nat, ratio: real) => c.name(path, start)
  }

  function NodeSpec(n: Nary.Node, activePanelId: Option<string>, path: seq<nat>, r: Registry, c: Context)
    : (Part, Registry)
    decreases n
  {
    match n
    case Leaf(p) => LeafSpec(p, activePanelId, path, r, c)
    case Split(d, cs, sizes) =>
      var (parts, r') := NodesSpec(cs, activePanelId, path, 0, r, c);
      (Combine(d, parts, sizes, MIN_RATIO, MAX_RATIO, NameSplit(path, c)), r')
  }

  function NodesSpec(ns: seq<Nary.Node>, activePanelId: Option<string>, path: seq<nat>, i: nat, r: Registry, c: Context)
    : (seq<Part>, Registry)
    decreases ns
  {
    if ns == [] then ([], r)
    else
      var (part, r1) := NodeSpec(ns[0], activePanelId, path + [i], r, c);
      var (parts, r2) := NodesSpec(ns[1..], activePanelId, path, i + 1, r1, c);
      ([part] + parts, r2)
  }

  /** A closed panel: the active tab goes to history, the others become active hidden surfaces. */
  function ClosedStep(p: P.Panel, h: seq<ClosedSurface>, r: Registry, c: Context): (seq<ClosedSurface>, Registry) {
    if SurfaceTabs(p) == [] then (h, r)
    else
      var record := MakeRecord(ActiveEntry(p), r.stamp, c);
      var h1 := if record.id in r.active || record.id in HistoryIds(h) then h
                else h + [ClosedSurface(record, c.base + r.stamp as real)];
      (h1, RegisterOthers(SurfaceTabs(p), record.id, HistoryIds(h1), r.(stamp := r.stamp + 1), c))
  }

  function ClosedSpec(ps: seq<P.Panel>, h: seq<ClosedSurface>, r: Registry, c: Context): (seq<ClosedSurface>, Registry)
    decreases ps
  {
    if ps == [] then (h, r)
    else
      var (h1, r1) := ClosedStep(ps[0], h, r, c);
      ClosedSpec(ps[1..], h1, r1, c)
  }

  function MigrateSpec(legacy: Grid.GridState, c: Context): WorkspaceState {
    var start := Registry(map[], 0);
    var (part, r) := if legacy.root.None? then (Part(None, None), start)
                     else NodeSpec(legacy.root.value, legacy.activePanelId, [], start, c);
    var (history, r') := ClosedSpec(legacy.closed, [], r, c);
    WorkspaceState(r'.active, part.tree, RepairFocus(part.tree, part.focus), [], history)
  }

  /** One child further. */
  lemma ChildStep(done: seq<Part>, ns: seq<Nary.Node>, activePanelId: Option<string>, path: seq<nat>, i: nat,
      r: Registry, c: Context)
    requires i < |ns|
    ensures var (part, r1) := NodeSpec(ns[i], activePanelId, path + [i], r, c);
            var now, next := NodesSpec(ns[i..], activePanelId, path, i, r, c),
                NodesSpec(ns[i + 1..], activePanelId, path, i + 1, r1, c);
            done + now.0 == done + [part] + next.0 && now.1 == next.1
  {
    assert ns[i..][0] == ns[i] && ns[i..][1..] == ns[i + 1..];
    var (part, r1) := NodeSpec(ns[i], activePanelId, path + [i], r, c);
    var next := NodesSpec(ns[i + 1..], activePanelId, path, i + 1, r1, c);
    assert done + ([part] + next.0) == done + [part] + next.0;
  }

  // ----- The program's form -----

  class Migrator {
    var active: map<string, SurfaceRecord>
    var counter: nat
    const c: Context

    ghost function Now(): Registry
      reads this
    {
      Registry(active, counter)
    }

    constructor (c: Context)
      ensures Now() == Registry(map[], 0) && this.c == c
    {
      this.c := c;
      active, counter := map[], 0;
    }

    method Record(e: SurfaceTab) returns (record: SurfaceRecord)
      modifies this`counter
      ensures record == MakeRecord(e, old(counter), c) && counter == old(counter) + 1
    {
      record := MakeRecord(e, counter, c);
      counter := counter + 1;
    }

    method RegisterOtherTabs(entries: seq<SurfaceTab>, activeId: string, taken: set<string>)
      modifies this
      ensures Now() == RegisterOthers(entries, activeId, taken, old(Now()), c)
    {
      for i := 0 to |entries|
        invariant RegisterOthers(entries, activeId, taken, old(Now()), c)
            == RegisterOthers(entries[i..], activeId, taken, Now(), c)
      {
        assert entries[i..][0] == entries[i] && entries[i..][1..] == entries[i + 1..];
        if entries[i].tab.id != activeId {
          var record := Record(entries[i]);
          if record.id !in active && record.id !in taken {
            active := active[record.id := record];
          }
        }
      }
    }

    method ConvertLeaf(p: P.Panel, activePanelId: Option<string>, path: seq<nat>) returns (part: Part)
      modifies this
      ensures (part, Now()) == LeafSpec(p, activePanelId, path, old(Now()), c)
    {
      var entries := SurfaceTabs(p);
      if entries == [] {
        return Part(None, None);
      }
      var record := Record(ActiveEntry(p));
      if record.id in active {
        return Part(None, None);
      }
      active := active[record.id := record];
      RegisterOtherTabs(entries, record.id, {});
      return Part(Some(LeafNode(c.name(path, 0), record.id)),
                  if activePanelId == Some(p.id) then Some(record.id) else None);
    }

    method ConvertNode(n: Nary.Node, activePanelId: Option<string>, path: seq<nat>) returns (part: Part)
      modifies this
      ensures (part, Now()) == NodeSpec(n, activePanelId, path, old(Now()), c)
      decreases n
    {
      if n.Leaf? {
        part := ConvertLeaf(n.panel, activePanelId, path);
      } else {
        var parts := ConvertChildren(n.children, activePanelId, path);
        part := Combine(n.direction, parts, n.sizes, MIN_RATIO, MAX_RATIO, NameSplit(path, c));
      }
    }

    method ConvertChildren(ns: seq<Nary.Node>, activePanelId: Option<string>, path: seq<nat>) returns (parts: seq<Part>)
      modifies this
      ensures (parts, Now()) == NodesSpec(ns, activePanelId, path, 0, old(Now()), c)
      decreases ns
    {
      parts := [];
      assert ns[0..] == ns;
      ghost var all := NodesSpec(ns, activePanelId, path, 0, Now(), c);
      assert [] + all.0 == all.0;
      for i := 0 to |ns|
        invariant all.0 == parts + NodesSpec(ns[i..], activePanelId, path, i, Now(), c).0
        invariant all.1 == NodesSpec(ns[i..], activePanelId, path, i, Now(), c).1
      {
        ChildStep(parts, ns, activePanelId, path, i, Now(), c);
        var part := ConvertNode(ns[i], activePanelId, path + [i]);
        parts := parts + [part];
      }
      assert parts + [] == parts;
    }

    method ConvertClosedPanel(p: P.Panel, h: seq<ClosedSurface>, ids: set<string>)
        returns (history: seq<ClosedSurface>, historyIds: set<string>)
      requires ids == HistoryIds(h)
      modifies this
      ensures (history, Now()) == ClosedStep(p, h, old(Now()), c) && historyIds == HistoryIds(history)
    {
      history, historyIds := h, ids;
      var entries := SurfaceTabs(p);
      if entries == [] {
        return;
      }
      var closedAt := c.base + counter as real;
      var record := Record(ActiveEntry(p));
      if record.id !in active && record.id !in historyIds {
        AppendId(history, ClosedSurface(record, closedAt));
        historyIds := historyIds + {record.id};
        history := history + [ClosedSurface(record, closedAt)];
      }
      RegisterOtherTabs(entries, record.id, historyIds);
    }

    method ConvertClosed(ps: seq<P.Panel>) returns (history: seq<ClosedSurface>)
      modifies this
      ensures (history, Now()) == ClosedSpec(ps, [], old(Now()), c)
    {
      history := [];
      var historyIds: set<string> := {};
      for i := 0 to |ps|
        invariant historyIds == HistoryIds(history)
        invariant ClosedSpec(ps, [], old(Now()), c) == ClosedSpec(ps[i..], history, Now(), c)
      {
        assert ps[i..][0] == ps[i] && ps[i..][1..] == ps[i + 1..];
        history, historyIds := ConvertClosedPanel(ps[i], history, historyIds);
      }
    }
  }

  method MigrateFromPanelGrid(legacy: Grid.GridState, c: Context) returns (s: WorkspaceState)
    ensures s == MigrateSpec(legacy, c)
  {
    var m := new Migrator(c);
    var part := Part(None, None);
    if legacy.root.Some? {
      part := m.ConvertNode(legacy.root.value, legacy.activePanelId, []);
    }
    var history := m.ConvertClosed(legacy.closed);
    s := WorkspaceState(m.active, part.tree, RepairFocus(part.tree, part.focus), [], history);
  }

  lemma {:induction false} HistoryIdsConcat(a: seq<ClosedSurface>, b: seq<ClosedSurface>)
    ensures HistoryIds(a + b) == HistoryIds(a) + HistoryIds(b)
    ensures DistinctHistory(a + b) <==> DistinctHistory(a) && DistinctHistory(b) && HistoryIds(a) !! HistoryIds(b)
  {
    if a == [] {
      assert a + b == b;
    } else {
      assert (a + b)[1..] == a[1..] + b;
      HistoryIdsConcat(a[1..], b);
    }
  }

  lemma AppendId(h: seq<ClosedSurface>, e: ClosedSurface)
    ensures HistoryIds(h + [e]) == HistoryIds(h) + {e.record.id}
    ensures DistinctHistory(h + [e]) <==> DistinctHistory(h) && e.record.id !in HistoryIds(h)
  {
    HistoryIdsConcat(h, [e]);
    assert HistoryIds([e]) == {e.record.id} + HistoryIds([]) && DistinctHistory([e]);
  }

  // ----- What the registry gains -----

  function EntryIds(entries: seq<SurfaceTab>): set<string> {
    if entries == [] then {} else {entries[0].tab.id} + EntryIds(entries[1..])
  }

  lemma {:induction false} EntryIdsMember(entries: seq<SurfaceTab>, e: SurfaceTab)
    requires e in entries
    ensures e.tab.id in EntryIds(entries)
  {
    if entries[0] != e {
      EntryIdsMember(entries[1..], e);
    }
  }

  lemma {:induction false} RegisterLaws(entries: seq<SurfaceTab>, activeId: string, taken: set<string>, r: Registry,
      c: Context)
    requires KeysAreIds(r.active)
    ensures var r' := RegisterOthers(entries, activeId, taken, r, c);
            && KeysAreIds(r'.active)
            && r'.active.Keys == r.active.Keys + (EntryIds(entries) - {activeId} - taken)
            && (forall k :: k in r.active ==> r'.active[k] == r.active[k])
  {
    if entries != [] {
      if entries[0].tab.id == activeId {
        RegisterLaws(entries[1..], activeId, taken, r, c);
      } else {
        var record := MakeRecord(entries[0], r.stamp, c);
        var active := if record.id in r.active || record.id in taken then r.active else r.active[record.id := record];
        RegisterLaws(entries[1..], activeId, taken, Registry(active, r.stamp + 1), c);
      }
    }
  }

  /** All surface tab ids of the panels, in order. */
  function TabIds(entries: seq<SurfaceTab>): seq<string> {
    if entries == [] then [] else [entries[0].tab.id] + TabIds(entries[1..])
  }

  function SurfaceIdsOf(ps: seq<P.Panel>): seq<string> {
    if ps == [] then [] else TabIds(SurfaceTabs(ps[0])) + SurfaceIdsOf(ps[1..])
  }

  function ToSet(xs: seq<string>): set<string> {
    if xs == [] then {} else {xs[0]} + ToSet(xs[1..])
  }

  lemma {:induction false} ToSetMember(xs: seq<string>, x: string)
    ensures x in ToSet(xs) <==> x in xs
  {
    if xs != [] {
      ToSetMember(xs[1..], x);
    }
  }

  lemma {:induction false} ToSetConcat(a: seq<string>, b: seq<string>)
    ensures ToSet(a + b) == ToSet(a) + ToSet(b)
  {
    if a == [] {
      assert a + b == b;
    } else {
      assert (a + b)[1..] == a[1..] + b;
      ToSetConcat(a[1..], b);
    }
  }

  lemma {:induction false} TabIdsAreEntryIds(entries: seq<SurfaceTab>)
    ensures ToSet(TabIds(entries)) == EntryIds(entries)
  {
    if entries != [] {
      TabIdsAreEntryIds(entries[1..]);
    }
  }

  lemma {:induction false} SurfaceIdsConcat(a: seq<P.Panel>, b: seq<P.Panel>)
    ensures SurfaceIdsOf(a + b) == SurfaceIdsOf(a) + SurfaceIdsOf(b)
  {
    if a == [] {
      assert a + b == b;
    } else {
      assert (a + b)[1..] == a[1..] + b;
      SurfaceIdsConcat(a[1..], b);
    }
  }

  lemma LeafConverted(p: P.Panel, activePanelId: Option<string>, path: seq<nat>, r: Registry, c: Context)
    requires KeysAreIds(r.active)
    ensures var (part, r') := LeafSpec(p, activePanelId, path, r, c);
            && Converted(LeavesOf(part.tree), TabIds(SurfaceTabs(p)), r.active, r'.active)
            && FocusInside(part) && PartRatios(part, MIN_RATIO, MAX_RATIO)
  {
    var entries := SurfaceTabs(p);
    if entries != [] {
      TabIdsAreEntryIds(entries);
      forall k ensures k in EntryIds(entries) <==> k in TabIds(entries) {
        ToSetMember(TabIds(entries), k);
      }
      EntryIdsMember(entries, ActiveEntry(p));
      var record := MakeRecord(ActiveEntry(p), r.stamp, c);
      if record.id !in r.active {
        RegisterLaws(entries, record.id, {}, Registry(r.active[record.id := record], r.stamp + 1), c);
      } else {
        assert record.id in TabIds(entries);
      }
    }
  }

  lemma {:induction false} NodeConverted(n: Nary.Node, activePanelId: Option<string>, path: seq<nat>, r: Registry,
      c: Context)
    requires KeysAreIds(r.active)
    ensures var (part, r') := NodeSpec(n, activePanelId, path, r, c);
            && Converted(LeavesOf(part.tree), SurfaceIdsOf(Nary.Flatten(n)), r.active, r'.active)
            && FocusInside(part) && PartRatios(part, MIN_RATIO, MAX_RATIO)
    decreases n
  {
    match n
    case Leaf(p) =>
      LeafConverted(p, activePanelId, path, r, c);
      assert SurfaceIdsOf([p]) == TabIds(SurfaceTabs(p)) + SurfaceIdsOf([]) == TabIds(SurfaceTabs(p));
    case Split(d, cs, sizes) =>
      NodesConverted(cs, activePanelId, path, 0, r, c);
      CombineLaws(d, NodesSpec(cs, activePanelId, path, 0, r, c).0, sizes, MIN_RATIO, MAX_RATIO, NameSplit(path, c));
  }

  lemma {:induction false} NodesConverted(ns: seq<Nary.Node>, activePanelId: Option<string>, path: seq<nat>, i: nat,
      r: Registry, c: Context)
    requires KeysAreIds(r.active)
    ensures var (parts, r') := NodesSpec(ns, activePanelId, path, i, r, c);
            && Converted(PartsLeaves(parts), SurfaceIdsOf(Nary.FlattenAll(ns)), r.active, r'.active)
            && AllFocusInside(parts) && AllRatios(parts, MIN_RATIO, MAX_RATIO)
    decreases ns
  {
    if ns != [] {
      var (part, r1) := NodeSpec(ns[0], activePanelId, path + [i], r, c);
      var (parts, r2) := NodesSpec(ns[1..], activePanelId, path, i + 1, r1, c);
      NodeConverted(ns[0], activePanelId, path + [i], r, c);
      NodesConverted(ns[1..], activePanelId, path, i + 1, r1, c);
      assert ([part] + parts)[1..] == parts;
      var a, b := SurfaceIdsOf(Nary.Flatten(ns[0])), SurfaceIdsOf(Nary.FlattenAll(ns[1..]));
      SurfaceIdsConcat(Nary.Flatten(ns[0]), Nary.FlattenAll(ns[1..]));
      ConvertedTwice(LeavesOf(part.tree), PartsLeaves(parts), a, b, r.active, r1.active, r2.active);
    }
  }

  // ----- History -----

  ghost predicate Apart(h: seq<ClosedSurface>, r: Registry) {
    KeysAreIds(r.active) && DistinctHistory(h) && HistoryIds(h) !! r.active.Keys
  }

  /** Putting a record into history unless it is known. */
  lemma HistoryStep(h: seq<ClosedSurface>, r: Registry, e: ClosedSurface)
    requires Apart(h, r)
    ensures var h1 := if e.record.id in r.active || e.record.id in HistoryIds(h) then h else h + [e];
            && Apart(h1, r)
            && HistoryIds(h1) == (if e.record.id in r.active || e.record.id in HistoryIds(h) then HistoryIds(h)
                else HistoryIds(h) + {e.record.id})
  {
    AppendId(h, e);
  }

  lemma RegisterClosed(entries: seq<SurfaceTab>, id: string, before: set<string>, h: seq<ClosedSurface>, r: Registry,
      c: Context)
    requires Apart(h, r) && id in EntryIds(entries)
    requires HistoryIds(h) == (if id in r.active || id in before then before else before + {id})
    ensures var r' := RegisterOthers(entries, id, HistoryIds(h), r, c);
            && Apart(h, r')
            && (forall k :: k in r.active ==> k in r'.active && r'.active[k] == r.active[k])
            && r'.active.Keys + HistoryIds(h) == r.active.Keys + before + EntryIds(entries)
  {
    RegisterLaws(entries, id, HistoryIds(h), r, c);
    KeysAdd(r.active.Keys, before, HistoryIds(h), EntryIds(entries), id);
  }

  /** What registering a closed panel does to both sides. */
  ghost predicate ClosedOutcome(offered: set<string>, h: seq<ClosedSurface>, r: Registry, h': seq<ClosedSurface>,
      r': Registry) {
    && Apart(h', r')
    && (forall k :: k in r.active ==> k in r'.active && r'.active[k] == r.active[k])
    && r'.active.Keys + HistoryIds(h') == r.active.Keys + HistoryIds(h) + offered
  }

  lemma ClosedEntries(entries: seq<SurfaceTab>, record: SurfaceRecord, h: seq<ClosedSurface>, r: Registry, at: real,
      stamp: nat, c: Context)
    requires Apart(h, r) && record.id in EntryIds(entries)
    ensures var h1 := if record.id in r.active || record.id in HistoryIds(h) then h
        else h + [ClosedSurface(record, at)];
            ClosedOutcome(EntryIds(entries), h, r, h1, RegisterOthers(entries, record.id, HistoryIds(h1),
                Registry(r.active, stamp), c))
  {
    HistoryStep(h, r, ClosedSurface(record, at));
    var h1 := if record.id in r.active || record.id in HistoryIds(h) then h else h + [ClosedSurface(record, at)];
    RegisterClosed(entries, record.id, HistoryIds(h), h1, Registry(r.active, stamp), c);
  }

  /** A closed panel's surface tabs are all kept, each on one side. */
  lemma ClosedStepLaws(p: P.Panel, h: seq<ClosedSurface>, r: Registry, c: Context)
    requires Apart(h, r)
    ensures var (h', r') := ClosedStep(p, h, r, c);
            ClosedOutcome(ToSet(TabIds(SurfaceTabs(p))), h, r, h', r')
  {
    var entries := SurfaceTabs(p);
    TabIdsAreEntryIds(entries);
    if entries != [] {
      EntryIdsMember(entries, ActiveEntry(p));
      ClosedEntries(entries, MakeRecord(ActiveEntry(p), r.stamp, c), h, r, c.base + r.stamp as real, r.stamp + 1, c);
    }
  }

  lemma KeysAdd(keys: set<string>, before: set<string>, after: set<string>, entries: set<string>, id: string)
    requires id in entries && after == (if id in keys || id in before then before else before + {id})
    ensures keys + (entries - {id} - after) + after == keys + before + entries
  {
  }

  lemma {:induction false} ClosedLaws(ps: seq<P.Panel>, h: seq<ClosedSurface>, r: Registry, c: Context)
    requires Apart(h, r)
    ensures var (h', r') := ClosedSpec(ps, h, r, c);
            && Apart(h', r')
            && (forall k :: k in r.active ==> k in r'.active && r'.active[k] == r.active[k])
            && r'.active.Keys + HistoryIds(h') == r.active.Keys + HistoryIds(h) + ToSet(SurfaceIdsOf(ps))
    decreases ps
  {
    if ps != [] {
      var (h1, r1) := ClosedStep(ps[0], h, r, c);
      ClosedStepLaws(ps[0], h, r, c);
      ClosedLaws(ps[1..], h1, r1, c);
      ToSetConcat(TabIds(SurfaceTabs(ps[0])), SurfaceIdsOf(ps[1..]));
    }
  }

  // ----- The result -----

  /** All surface tab ids of the grid's tree. */
  function RootIds(legacy: Grid.GridState): seq<string> {
    SurfaceIdsOf(Nary.Shown(legacy.root))
  }

  /**
   * Any legacy grid migrates to a valid state with every ratio between MIN_RATIO and MAX_RATIO; no surface is
   * invented; and every surface tab of a closed panel is kept, whatever ids are repeated.
   */
  lemma MigrateEstablishes(legacy: Grid.GridState, c: Context)
    ensures var s := MigrateSpec(legacy, c);
            && Inv(s)
            && (s.visibleTree.Some? ==> RatiosWithin(s.visibleTree.value, MIN_RATIO, MAX_RATIO))
            && s.active.Keys + HistoryIds(s.history) <= ToSet(RootIds(legacy)) + ToSet(SurfaceIdsOf(legacy.closed))
            && ToSet(SurfaceIdsOf(legacy.closed)) <= s.active.Keys + HistoryIds(s.history)
            && (NoRepeats(RootIds(legacy)) ==>
                  s.active.Keys + HistoryIds(s.history) == ToSet(RootIds(legacy)) + ToSet(SurfaceIdsOf(legacy.closed)))
  {
    var start := Registry(map[], 0);
    var (part, r) := if legacy.root.None? then (Part(None, None), start)
                     else NodeSpec(legacy.root.value, legacy.activePanelId, [], start, c);
    if legacy.root.Some? {
      NodeConverted(legacy.root.value, legacy.activePanelId, [], start, c);
    }
    assert Converted(LeavesOf(part.tree), RootIds(legacy), start.active, r.active);
    ClosedLaws(legacy.closed, [], r, c);
    forall k ensures k in ToSet(RootIds(legacy)) <==> k in RootIds(legacy) {
      ToSetMember(RootIds(legacy), k);
    }
    if part.tree.Some? {
      UniqueLeavesMeaning(part.tree.value);
      LeafSetIsLeaves(part.tree.value);
      RatiosWiden(part.tree.value, MIN_RATIO, MAX_RATIO, MIN_RATIO - RATIO_EPSILON, MAX_RATIO + RATIO_EPSILON);
    }
  }

  lemma {:induction false} RatiosWiden(t: TreeNode, lo: real, hi: real, lo': real, hi': real)
    requires RatiosWithin(t, lo, hi) && lo' <= lo && hi <= hi'
    ensures RatiosWithin(t, lo', hi')
  {
    if t.SplitNode? {
      RatiosWiden(t.first, lo, hi, lo', hi');
      RatiosWiden(t.second, lo, hi, lo', hi');
    }
  }

  /**
   * When all surface tab ids of the tree and of the closed panels are distinct, every chat, omp and terminal
   * tab lands in exactly one of the active registry and the history, and nothing else does.
   */
  lemma MigrateKeepsEveryTab(legacy: Grid.GridState, c: Context, id: string)
    requires NoRepeats(RootIds(legacy) + SurfaceIdsOf(legacy.closed))
    ensures var s := MigrateSpec(legacy, c);
            var offered := id in RootIds(legacy) || id in SurfaceIdsOf(legacy.closed);
            && (offered <==> id in s.active || id in HistoryIds(s.history))
            && !(id in s.active && id in HistoryIds(s.history))
  {
    NoRepeatsConcat(RootIds(legacy), SurfaceIdsOf(legacy.closed));
    MigrateEstablishes(legacy, c);
    ToSetMember(RootIds(legacy), id);
    ToSetMember(SurfaceIdsOf(legacy.closed), id);
    var s := MigrateSpec(legacy, c);
    assert id in s.active.Keys + HistoryIds(s.history) <==>
             id in ToSet(RootIds(legacy)) + ToSet(SurfaceIdsOf(legacy.closed));
  }
}
