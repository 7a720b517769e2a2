/**
 * The bridge from a live grid to the workspace model (src/lib/workspaceBridge.ts). Panel and tab ids serve as
 * surface ids, so the translation is stable, and a surface leads back to its panel.
 */
module Bridge {
  import opened Prelude
  import opened Workspace
  import opened WorkspaceRuns
  import opened Geometry
  import opened LegacyFold
  import P = Panels
  import Nary = SplitTree
  import Grid = PanelGrid
  import M = Migration

  const BRIDGE_MIN := 0.1
  const BRIDGE_MAX := 0.9

  /** The project, the clock reading, and `String(n)`. */
  datatype Context = Context(projectId: string, now: real, show: M.Show)

  type Registry = map<string, SurfaceRecord>

  // ----- Surfaces of a panel -----

  function ResourceId(t: P.PanelTab, fallback: string, c: Context): string {
    if t.chatSessionId.Some? then t.chatSessionId.value
    else if t.terminalId.Some? then c.show(t.terminalId.value)
    else fallback
  }

  /** The record of the tab a panel shows; None where that is not a workspace surface. */
  function PanelToSurface(p: P.Panel, c: Context): (r: Option<SurfaceRecord>)
    ensures r.Some? <==> Converts(p)
    ensures r.Some? ==> r.value.id == SurfaceId(p)
  {
    var tab := P.ActiveTab(p);
    var kind := M.MapLegacyKind(tab.kind);
    if kind.None? then None
    else Some(SurfaceRecord(tab.id, kind.value, ResourceId(tab, p.id, c), Some(tab.title), false, c.projectId,
                            tab.createdAt, p.lastUsedAt.GetOr(tab.createdAt)))
  }

  /** The tab the panel shows is a chat, an omp chat or a terminal. */
  predicate Converts(p: P.Panel) {
    M.MapLegacyKind(P.ActiveTab(p).kind).Some?
  }

  function TabToSurface(e: M.SurfaceTab, c: Context): SurfaceRecord {
    SurfaceRecord(e.tab.id, e.kind, ResourceId(e.tab, e.tab.id, c), Some(e.tab.title), false, c.projectId,
        e.tab.createdAt, c.now)
  }

  /** Registers the tabs that are not shown, except ids that are taken. */
  function RegisterTabs(entries: seq<M.SurfaceTab>, shown: string, r: Registry, c: Context): Registry
    decreases entries
  {
    if entries == [] then r
    else
      var id := entries[0].tab.id;
      RegisterTabs(entries[1..], shown, if id == shown || id in r then r else r[id := TabToSurface(entries[0], c)], c)
  }

  function OtherTabs(p: P.Panel): seq<M.SurfaceTab> {
    if p.tabs.Some? && |p.tabs.value| > 1 then M.SurfaceTabsOf(p.tabs.value) else []
  }

  // ----- The translation -----

  function LeafSpec(p: P.Panel, focusedPanelId: Option<string>, r: Registry, c: Context): (Part, Registry) {
    var surface := PanelToSurface(p, c);
    if surface.None? then (Part(None, None), r)
    else
      var id := surface.value.id;
      var r1 := RegisterTabs(OtherTabs(p), id, r, c);
      if id in r1 then (Part(None, None), r1)
      else (Part(Some(LeafNode("leaf-" + p.id, id)), if focusedPanelId == Some(p.id) then Some(id) else None),
            r1[id := surface.value])
  }

  /** `split-${start}-${end}-${Math.round(ratio * 100)}` */
  function NameSplit(c: Context): Namer {
    (start: nat, end: nat, ratio: real) =>
      "split-" + c.show(start as real) + "-" + c.show(end as real) + "-" + c.show((ratio * 100.0 + 0.5).Floor as real)
  }

  function NodeSpec(n: Nary.Node, focusedPanelId: Option<string>, r: Registry, c: Context): (Part, Registry)
    decreases n
  {
    match n
    case Leaf(p) => LeafSpec(p, focusedPanelId, r, c)
    case Split(d, cs, sizes) =>
      var (parts, r') := NodesSpec(cs, focusedPanelId, r, c);
      (Combine(d, parts, sizes, BRIDGE_MIN, BRIDGE_MAX, NameSplit(c)), r')
  }

  function NodesSpec(ns: seq<Nary.Node>, focusedPanelId: Option<string>, r: Registry, c: Context): (seq<Part>, Registry)
    decreases ns
  {
    if ns == [] then ([], r)
    else
      var (part, r1) := NodeSpec(ns[0], focusedPanelId, r, c);
      var (parts, r2) := NodesSpec(ns[1..], focusedPanelId, r1, c);
      ([part] + parts, r2)
  }

  function HiddenSpec(ps: seq<P.Panel>, r: Registry, c: Context): Registry
    decreases ps
  {
    if ps == [] then r
    else
      var surface := PanelToSurface(ps[0], c);
      HiddenSpec(ps[1..], if surface.None? || surface.value.id in r then r else r[surface.value.id := surface.value], c)
  }

  /** Each group is converted without a focus; a group of which nothing is left is dropped. */
  function StashedSpec(groups: seq<Nary.Node>, r: Registry, c: Context): (seq<TreeNode>, Registry)
    decreases groups
  {
    if groups == [] then ([], r)
    else
      var (part, r1) := NodeSpec(groups[0], None, r, c);
      var (trees, r2) := StashedSpec(groups[1..], r1, c);
      ((if part.tree.Some? then [part.tree.value] else []) + trees, r2)
  }

  function HistorySpec(ps: seq<P.Panel>, c: Context): seq<ClosedSurface> {
    if ps == [] then []
    else
      var surface := PanelToSurface(ps[0], c);
      (if surface.Some? then [ClosedSurface(surface.value, c.now)] else []) + HistorySpec(ps[1..], c)
  }

  function RootSpec(root: Option<Nary.Node>, focusedPanelId: Option<string>, c: Context): (Part, Registry) {
    if root.None? then (Part(None, None), map[]) else NodeSpec(root.value, focusedPanelId, map[], c)
  }

  function BridgeSpec(legacy: Grid.GridState, c: Context): WorkspaceState {
    var (part, r) := RootSpec(legacy.root, legacy.activePanelId, c);
    var (stashed, r') := StashedSpec(legacy.stashed, HiddenSpec(legacy.hidden, r, c), c);
    WorkspaceState(r', part.tree, part.focus, stashed, HistorySpec(legacy.closed, c))
  }

  // ----- The program's form -----

  class Converter {
    var active: Registry
    const c: Context

    constructor (c: Context)
      ensures active == map[] && this.c == c
    {
      this.c := c;
      active := map[];
    }

    method RegisterOtherTabs(entries: seq<M.SurfaceTab>, shown: string)
      modifies this`active
      ensures active == RegisterTabs(entries, shown, old(active), c)
    {
      for i := 0 to |entries|
        invariant RegisterTabs(entries, shown, old(active), c) == RegisterTabs(entries[i..], shown, active, c)
      {
        assert entries[i..][0] == entries[i] && entries[i..][1..] == entries[i + 1..];
        var id := entries[i].tab.id;
        if id != shown {
          if id !in active {
            active := active[id := TabToSurface(entries[i], c)];
          }
        }
      }
    }

    method ConvertLeaf(p: P.Panel, focusedPanelId: Option<string>) returns (part: Part)
      modifies this`active
      ensures (part, active) == LeafSpec(p, focusedPanelId, old(active), c)
    {
      var surface := PanelToSurface(p, c);
      if surface.None? {
        return Part(None, None);
      }
      RegisterOtherTabs(OtherTabs(p), surface.value.id);
      if surface.value.id in active {
        return Part(None, None);
      }
      active := active[surface.value.id := surface.value];
      part := Part(Some(LeafNode("leaf-" + p.id, surface.value.id)),
                   if focusedPanelId == Some(p.id) then Some(surface.value.id) else None);
    }

    method ConvertNode(n: Nary.Node, focusedPanelId: Option<string>) returns (part: Part)
      modifies this`active
      ensures (part, active) == NodeSpec(n, focusedPanelId, old(active), c)
      decreases n
    {
      if n.Leaf? {
        part := ConvertLeaf(n.panel, focusedPanelId);
      } else {
        var parts := ConvertChildren(n.children, focusedPanelId);
        part := Combine(n.direction, parts, n.sizes, BRIDGE_MIN, BRIDGE_MAX, NameSplit(c));
      }
    }

    method ConvertChildren(ns: seq<Nary.Node>, focusedPanelId: Option<string>) returns (parts: seq<Part>)
      modifies this`active
      ensures (parts, active) == NodesSpec(ns, focusedPanelId, old(active), c)
      decreases ns
    {
      parts := [];
      assert ns[0..] == ns;
      assert [] + NodesSpec(ns, focusedPanelId, active, c).0 == NodesSpec(ns, focusedPanelId, active, c).0;
      for i := 0 to |ns|
        invariant var (rest, end) := NodesSpec(ns[i..], focusedPanelId, active, c);
                  NodesSpec(ns, focusedPanelId, old(active), c) == (parts + rest, end)
      {
        assert ns[i..][0] == ns[i] && ns[i..][1..] == ns[i + 1..];
        ghost var before := parts;
        ghost var (one, after) := NodeSpec(ns[i], focusedPanelId, active, c);
        ghost var (rest, end) := NodesSpec(ns[i + 1..], focusedPanelId, after, c);
        var part := ConvertNode(ns[i], focusedPanelId);
        parts := parts + [part];
        assert before + ([part] + rest) == parts + rest;
      }
      assert parts + [] == parts;
    }

    method ConvertHidden(ps: seq<P.Panel>)
      modifies this`active
      ensures active == HiddenSpec(ps, old(active), c)
    {
      for i := 0 to |ps|
        invariant HiddenSpec(ps, old(active), c) == HiddenSpec(ps[i..], active, c)
      {
        assert ps[i..][0] == ps[i] && ps[i..][1..] == ps[i + 1..];
        var surface := PanelToSurface(ps[i], c);
        if surface.Some? && surface.value.id !in active {
          active := active[surface.value.id := surface.value];
        }
      }
    }

    method ConvertStashed(groups: seq<Nary.Node>) returns (trees: seq<TreeNode>)
      modifies this`active
      ensures (trees, active) == StashedSpec(groups, old(active), c)
    {
      trees := [];
      assert groups[0..] == groups;
      assert [] + StashedSpec(groups, active, c).0 == StashedSpec(groups, active, c).0;
      for i := 0 to |groups|
        invariant var (rest, end) := StashedSpec(groups[i..], active, c);
                  StashedSpec(groups, old(active), c) == (trees + rest, end)
      {
        assert groups[i..][0] == groups[i] && groups[i..][1..] == groups[i + 1..];
        ghost var before := trees;
        ghost var (one, after) := NodeSpec(groups[i], None, active, c);
        ghost var (rest, end) := StashedSpec(groups[i + 1..], after, c);
        var part := ConvertNode(groups[i], None);
        if part.tree.Some? {
          trees := trees + [part.tree.value];
        }
        assert before + ((if part.tree.Some? then [part.tree.value] else []) + rest) == trees + rest;
      }
      assert trees + [] == trees;
    }
  }

  method PanelGridToWorkspaceState(legacy: Grid.GridState, c: Context) returns (s: WorkspaceState)
    ensures s == BridgeSpec(legacy, c)
  {
    var m := new Converter(c);
    var part := Part(None, None);
    if legacy.root.Some? {
      part := m.ConvertNode(legacy.root.value, legacy.activePanelId);
    }
    m.ConvertHidden(legacy.hidden);
    var stashed := m.ConvertStashed(legacy.stashed);
    s := WorkspaceState(m.active, part.tree, part.focus, stashed, HistorySpec(legacy.closed, c));
  }

  /** The id of the first panel that shows the surface. */
  function PanelShowing(ps: seq<P.Panel>, surfaceId: string): Option<string> {
    if ps == [] then None
    else if SurfaceId(ps[0]) == surfaceId then Some(ps[0].id)
    else PanelShowing(ps[1..], surfaceId)
  }

  method SurfaceIdToPanelId(legacy: Grid.GridState, surfaceId: string) returns (panelId: Option<string>)
    ensures panelId == PanelShowing(Grid.AllPanels(legacy), surfaceId)
  {
    var panels := Grid.AllPanels(legacy);
    for i := 0 to |panels|
      invariant PanelShowing(panels, surfaceId) == PanelShowing(panels[i..], surfaceId)
    {
      assert panels[i..][0] == panels[i] && panels[i..][1..] == panels[i + 1..];
      if SurfaceId(panels[i]) == surfaceId {
        return Some(panels[i].id);
      }
    }
    return None;
  }
}
