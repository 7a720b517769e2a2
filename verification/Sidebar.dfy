/**
 * The activity sidebar's units (src/lib/sidebarLayout.ts). The order in which the registry enumerates its
 * records is a parameter: a list of its keys.
 */
module Sidebar {
  import opened Prelude
  import opened Workspace
  import opened WorkspaceRuns
  import opened StableSort

  datatype UnitKind = Group | Solo

  datatype RawUnit = RawUnit(kind: UnitKind, surfaces: seq<SurfaceRecord>, isVisible: bool)

  datatype SidebarUnit = SidebarUnit(kind: UnitKind, colorIndex: int, surfaces: seq<SurfaceRecord>, recency: real,
      isVisible: bool)

  type Registry = map<string, SurfaceRecord>

  /** The records of the given leaves, without dangling ones. */
  function Resolve(ids: seq<string>, active: Registry): seq<SurfaceRecord> {
    if ids == [] then [] else (if ids[0] in active then [active[ids[0]]] else []) + Resolve(ids[1..], active)
  }

  function LeafSurfaces(tree: Option<TreeNode>, active: Registry): seq<SurfaceRecord> {
    Resolve(LeavesOf(tree), active)
  }

  /** None is the infinity an empty list starts from. */
  function EarliestCreatedAt(surfaces: seq<SurfaceRecord>): Option<real> {
    if surfaces == [] then None
    else
      var rest := EarliestCreatedAt(surfaces[1..]);
      if rest.Some? && rest.value < surfaces[0].createdAt then rest else Some(surfaces[0].createdAt)
  }

  predicate Earlier(a: Option<real>, b: Option<real>) {
    a.Some? && (b.None? || a.value < b.value)
  }

  function Recency(surfaces: seq<SurfaceRecord>): real {
    if surfaces == [] then 0.0
    else
      var rest := Recency(surfaces[1..]);
      if surfaces[0].lastFocusedAt > rest then surfaces[0].lastFocusedAt else rest
  }

  // ----- Claiming -----

  function Ids(surfaces: seq<SurfaceRecord>): set<string> {
    if surfaces == [] then {} else {surfaces[0].id} + Ids(surfaces[1..])
  }

  function Unclaimed(surfaces: seq<SurfaceRecord>, claimed: set<string>): seq<SurfaceRecord> {
    if surfaces == [] then []
    else (if surfaces[0].id in claimed then [] else [surfaces[0]]) + Unclaimed(surfaces[1..], claimed)
  }

  datatype Claims = Claims(raw: seq<RawUnit>, claimed: set<string>)

  function ClaimVisible(s: WorkspaceState): Claims {
    var visible := LeafSurfaces(s.visibleTree, s.active);
    Claims(if |visible| > 0 then [RawUnit(if |visible| > 1 then Group else Solo, visible, true)] else [], Ids(visible))
  }

  function ClaimGroup(members: seq<SurfaceRecord>): seq<RawUnit> {
    if |members| >= 2 then [RawUnit(Group, members, false)]
    else if |members| == 1 then [RawUnit(Solo, members, false)]
    else []
  }

  function ClaimStashed(groups: seq<TreeNode>, active: Registry, c: Claims): Claims
    decreases groups
  {
    if groups == [] then c
    else
      var members := Unclaimed(LeafSurfaces(Some(groups[0]), active), c.claimed);
      ClaimStashed(groups[1..], active, Claims(c.raw + ClaimGroup(members), c.claimed + Ids(members)))
  }

  function ClaimRest(order: seq<string>, active: Registry, c: Claims): Claims
    requires forall k :: k in order ==> k in active
    decreases order
  {
    if order == [] then c
    else
      var surface := active[order[0]];
      ClaimRest(order[1..], active,
                if surface.id in c.claimed then c
                else Claims(c.raw + [RawUnit(Solo, [surface], false)], c.claimed + {surface.id}))
  }

  function RawUnits(s: WorkspaceState, order: seq<string>): Claims
    requires forall k :: k in order ==> k in s.active
  {
    ClaimRest(order, s.active, ClaimStashed(s.stashedGroups, s.active, ClaimVisible(s)))
  }

  // ----- Colours -----

  /** A group unit, known by its place in the raw list. */
  datatype Tag = Tag(index: nat, earliest: Option<real>)

  function GroupTags(raw: seq<RawUnit>, from: nat): seq<Tag>
    decreases raw
  {
    if raw == [] then []
    else
      (if raw[0].kind == Group then [Tag(from, EarliestCreatedAt(raw[0].surfaces))] else [])
      + GroupTags(raw[1..], from + 1)
  }

  predicate TagBefore(a: Tag, b: Tag) {
    Earlier(a.earliest, b.earliest)
  }

  function PlaceOf(tags: seq<Tag>, index: nat): Option<nat> {
    if tags == [] then None
    else if tags[0].index == index then Some(0)
    else
      var place := PlaceOf(tags[1..], index);
      if place.Some? then Some(place.value + 1) else None
  }

  function ColorOf(raw: seq<RawUnit>, index: nat): int
    requires index < |raw|
  {
    if raw[index].kind == Group then PlaceOf(Sort(GroupTags(raw, 0), TagBefore), index).GetOr(0) else -1
  }

  function MakeUnit(u: RawUnit, color: int): SidebarUnit {
    SidebarUnit(u.kind, color, u.surfaces, Recency(u.surfaces), u.isVisible)
  }

  function Coloured(raw: seq<RawUnit>): (r: seq<SidebarUnit>)
    ensures |r| == |raw|
  {
    seq(|raw|, i requires 0 <= i < |raw| => MakeUnit(raw[i], ColorOf(raw, i)))
  }

  /** Most recent first, then earliest created first. */
  predicate UnitBefore(a: SidebarUnit, b: SidebarUnit) {
    a.recency > b.recency || (a.recency == b.recency && Earlier(EarliestCreatedAt(a.surfaces),
        EarliestCreatedAt(b.surfaces)))
  }

  function SidebarSpec(s: WorkspaceState, order: seq<string>): seq<SidebarUnit>
    requires forall k :: k in order ==> k in s.active
  {
    Sort(Coloured(RawUnits(s, order).raw), UnitBefore)
  }

  // ----- The program's form -----

  method ClaimAll(surfaces: seq<SurfaceRecord>, claimed: set<string>) returns (r: set<string>)
    ensures r == claimed + Ids(surfaces)
  {
    r := claimed;
    for i := 0 to |surfaces|
      invariant r + Ids(surfaces[i..]) == claimed + Ids(surfaces)
    {
      assert surfaces[i..][0] == surfaces[i] && surfaces[i..][1..] == surfaces[i + 1..];
      r := r + {surfaces[i].id};
    }
  }

  method ClaimStashedGroups(groups: seq<TreeNode>, active: Registry, c: Claims) returns (r: Claims)
    ensures r == ClaimStashed(groups, active, c)
  {
    var raw, claimed := c.raw, c.claimed;
    for i := 0 to |groups|
      invariant ClaimStashed(groups, active, c) == ClaimStashed(groups[i..], active, Claims(raw, claimed))
    {
      assert groups[i..][0] == groups[i] && groups[i..][1..] == groups[i + 1..];
      var members := Unclaimed(LeafSurfaces(Some(groups[i]), active), claimed);
      ghost var before := raw;
      claimed := ClaimAll(members, claimed);
      if |members| >= 2 {
        raw := raw + [RawUnit(Group, members, false)];
      } else {
        for j := 0 to |members|
          invariant raw == before + if j == 0 then [] else [RawUnit(Solo, members, false)]
        {
          assert members == [members[j]];
          raw := raw + [RawUnit(Solo, [members[j]], false)];
        }
      }
      assert raw == before + ClaimGroup(members);
    }
    r := Claims(raw, claimed);
  }

  method ClaimRemaining(order: seq<string>, active: Registry, c: Claims) returns (raw: seq<RawUnit>)
    requires forall k :: k in order ==> k in active
    ensures raw == ClaimRest(order, active, c).raw
  {
    raw := c.raw;
    var claimed := c.claimed;
    for i := 0 to |order|
      invariant ClaimRest(order, active, c) == ClaimRest(order[i..], active, Claims(raw, claimed))
    {
      assert order[i..][0] == order[i] && order[i..][1..] == order[i + 1..];
      var surface := active[order[i]];
      if surface.id !in claimed {
        claimed := claimed + {surface.id};
        raw := raw + [RawUnit(Solo, [surface], false)];
      }
    }
  }

  method ColourUnits(raw: seq<RawUnit>) returns (coloured: seq<SidebarUnit>)
    ensures coloured == Coloured(raw)
  {
    var sorted := Sort(GroupTags(raw, 0), TagBefore);
    coloured := [];
    for i := 0 to |raw|
      invariant |coloured| == i && coloured == Coloured(raw)[..i]
    {
      var color := if raw[i].kind == Group then PlaceOf(sorted, i).GetOr(0) else -1;
      coloured := coloured + [MakeUnit(raw[i], color)];
    }
    assert coloured == Coloured(raw);
  }

  method BuildSidebarUnits(s: WorkspaceState, order: seq<string>) returns (units: seq<SidebarUnit>)
    requires forall k :: k in order ==> k in s.active
    ensures units == SidebarSpec(s, order)
  {
    var visible := LeafSurfaces(s.visibleTree, s.active);
    var claimed := ClaimAll(visible, {});
    var first: seq<RawUnit> := [];
    if |visible| > 0 {
      first := first + [RawUnit(if |visible| > 1 then Group else Solo, visible, true)];
    }
    assert claimed == Ids(visible) && Claims(first, claimed) == ClaimVisible(s);
    var claims := ClaimStashedGroups(s.stashedGroups, s.active, Claims(first, claimed));
    var raw := ClaimRemaining(order, s.active, claims);
    var coloured := ColourUnits(raw);
    units := Sort(coloured, UnitBefore);
  }
}
