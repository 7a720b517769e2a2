/** The sidebar partitions the active surfaces into sorted units, with stable group colours. */
module SidebarLaws {
  import opened Prelude
  import opened Workspace
  import opened WorkspaceRuns
  import opened StableSort
  import opened Sidebar

  // ----- Every surface once -----

  function CountOf(surfaces: seq<SurfaceRecord>, id: string): nat {
    if surfaces == [] then 0 else (if surfaces[0].id == id then 1 else 0) + CountOf(surfaces[1..], id)
  }

  function InRaw(id: string): RawUnit -> nat {
    (u: RawUnit) => CountOf(u.surfaces, id)
  }

  function InUnit(id: string): SidebarUnit -> nat {
    (u: SidebarUnit) => CountOf(u.surfaces, id)
  }

  lemma {:induction false} CountOfConcat(a: seq<SurfaceRecord>, b: seq<SurfaceRecord>, id: string)
    ensures CountOf(a + b, id) == CountOf(a, id) + CountOf(b, id)
  {
    if a == [] {
      assert a + b == b;
    } else {
      assert (a + b)[1..] == a[1..] + b;
      CountOfConcat(a[1..], b, id);
    }
  }

  lemma {:induction false} CountedAreIds(surfaces: seq<SurfaceRecord>, id: string)
    ensures id in Ids(surfaces) <==> CountOf(surfaces, id) > 0
  {
    if surfaces != [] {
      CountedAreIds(surfaces[1..], id);
    }
  }

  /** The records are the registry's own. */
  ghost predicate Own(surfaces: seq<SurfaceRecord>, active: Registry) {
    forall r :: r in surfaces ==> r.id in active && active[r.id] == r
  }

  lemma {:induction false} ResolveCounts(ids: seq<string>, active: Registry, id: string)
    requires NoRepeats(ids) && KeysAreIds(active)
    ensures CountOf(Resolve(ids, active), id) == if id in ids && id in active then 1 else 0
    ensures Own(Resolve(ids, active), active)
  {
    if ids != [] {
      assert NoRepeats(ids[1..]) && ids[0] !in ids[1..];
      ResolveCounts(ids[1..], active, id);
      var head := if ids[0] in active then [active[ids[0]]] else [];
      CountOfConcat(head, Resolve(ids[1..], active), id);
      assert head != [] ==>
               CountOf(head, id) == (if ids[0] == id then 1 else 0) + CountOf(head[1..], id) && head[1..] == [];
    }
  }

  lemma {:induction false} UnclaimedCounts(surfaces: seq<SurfaceRecord>, claimed: set<string>, id: string)
    ensures CountOf(Unclaimed(surfaces, claimed), id) == if id in claimed then 0 else CountOf(surfaces, id)
    ensures forall r :: r in Unclaimed(surfaces, claimed) ==> r in surfaces
  {
    if surfaces != [] {
      UnclaimedCounts(surfaces[1..], claimed, id);
      var rest := Unclaimed(surfaces[1..], claimed);
      if surfaces[0].id in claimed {
        assert [] + rest == rest;
      } else {
        assert ([surfaces[0]] + rest)[1..] == rest;
      }
    }
  }

  /** What has been claimed so far is in the units once, in a unit of the right kind. */
  ghost predicate Partition(c: Claims, active: Registry) {
    && c.claimed <= active.Keys
    && (forall id :: Total(c.raw, InRaw(id)) == if id in c.claimed then 1 else 0)
    && (forall u :: u in c.raw ==>
          Own(u.surfaces, active) && u.surfaces != [] && (u.kind == Group <==> |u.surfaces| >= 2))
  }

  /** One unit for the members, if there are any. */
  function UnitFor(members: seq<SurfaceRecord>, isVisible: bool): seq<RawUnit> {
    if members == [] then [] else [RawUnit(if |members| > 1 then Group else Solo, members, isVisible)]
  }

  /** Adding one unit, or none, whose surfaces are new. */
  lemma ClaimMore(c: Claims, members: seq<SurfaceRecord>, isVisible: bool, active: Registry)
    requires Partition(c, active) && Own(members, active)
    requires forall id :: CountOf(members, id) <= (if id in c.claimed then 0 else 1)
    ensures Partition(Claims(c.raw + UnitFor(members, isVisible), c.claimed + Ids(members)), active)
  {
    var units := UnitFor(members, isVisible);
    forall id ensures Total(c.raw + units, InRaw(id)) == if id in c.claimed + Ids(members) then 1 else 0 {
      TotalConcat(c.raw, units, InRaw(id));
      CountedAreIds(members, id);
      if units != [] {
        assert Total(units, InRaw(id)) == InRaw(id)(units[0]) + Total(units[1..], InRaw(id)) && units[1..] == [];
      }
    }
    forall id | id in Ids(members) ensures id in active {
      CountedAreIds(members, id);
      IdIsSomewhere(members, id);
    }
  }

  lemma {:induction false} IdIsSomewhere(surfaces: seq<SurfaceRecord>, id: string)
    requires CountOf(surfaces, id) > 0
    ensures exists r :: r in surfaces && r.id == id
  {
    if surfaces[0].id != id {
      IdIsSomewhere(surfaces[1..], id);
      var r :| r in surfaces[1..] && r.id == id;
      assert r in surfaces;
    } else {
      assert surfaces[0] in surfaces;
    }
  }

  ghost predicate NoRepeatedLeaf(s: WorkspaceState) {
    && NoRepeats(LeavesOf(s.visibleTree))
    && forall i :: 0 <= i < |s.stashedGroups| ==> NoRepeats(Leaves(s.stashedGroups[i]))
  }

  lemma VisiblePartition(s: WorkspaceState)
    requires NoRepeatedLeaf(s) && KeysAreIds(s.active)
    ensures Partition(ClaimVisible(s), s.active)
  {
    var visible := LeafSurfaces(s.visibleTree, s.active);
    forall id ensures CountOf(visible, id) <= 1 {
      ResolveCounts(LeavesOf(s.visibleTree), s.active, id);
    }
    ResolveCounts(LeavesOf(s.visibleTree), s.active, "");
    var none := Claims([], {});
    assert Partition(none, s.active);
    ClaimMore(none, visible, true, s.active);
    assert none.raw + ClaimVisible(s).raw == ClaimVisible(s).raw;
    assert none.claimed + Ids(visible) == Ids(visible);
  }

  lemma {:induction false} StashedPartition(groups: seq<TreeNode>, active: Registry, c: Claims)
    requires Partition(c, active) && KeysAreIds(active)
    requires forall i :: 0 <= i < |groups| ==> NoRepeats(Leaves(groups[i]))
    ensures Partition(ClaimStashed(groups, active, c), active)
    decreases groups
  {
    if groups != [] {
      var leaves := LeafSurfaces(Some(groups[0]), active);
      var members := Unclaimed(leaves, c.claimed);
      forall id ensures CountOf(members, id) <= if id in c.claimed then 0 else 1 {
        ResolveCounts(Leaves(groups[0]), active, id);
        UnclaimedCounts(leaves, c.claimed, id);
      }
      ResolveCounts(Leaves(groups[0]), active, "");
      UnclaimedCounts(leaves, c.claimed, "");
      assert ClaimGroup(members) == UnitFor(members, false);
      ClaimMore(c, members, false, active);
      StashedPartition(groups[1..], active, Claims(c.raw + ClaimGroup(members), c.claimed + Ids(members)));
    }
  }

  lemma {:induction false} RestPartition(order: seq<string>, active: Registry, c: Claims)
    requires Partition(c, active) && KeysAreIds(active) && forall k :: k in order ==> k in active
    ensures var c' := ClaimRest(order, active, c);
            Partition(c', active) && c.claimed <= c'.claimed && forall k :: k in order ==> k in c'.claimed
    decreases order
  {
    if order != [] {
      var surface := active[order[0]];
      if surface.id in c.claimed {
        RestPartition(order[1..], active, c);
      } else {
        var unit := [RawUnit(Solo, [surface], false)];
        assert [surface][1..] == [];
        assert Ids([surface]) == {surface.id} + Ids([]);
        forall id ensures CountOf([surface], id) <= if id in c.claimed then 0 else 1 {
          assert CountOf([surface], id) == (if surface.id == id then 1 else 0) + CountOf([surface][1..], id);
        }
        ClaimMore(c, [surface], false, active);
        RestPartition(order[1..], active, Claims(c.raw + unit, c.claimed + {surface.id}));
      }
    }
  }

  lemma RawPartition(s: WorkspaceState, order: seq<string>)
    requires NoRepeatedLeaf(s) && KeysAreIds(s.active) && forall k :: k in order <==> k in s.active
    ensures Partition(RawUnits(s, order), s.active) && RawUnits(s, order).claimed == s.active.Keys
  {
    VisiblePartition(s);
    StashedPartition(s.stashedGroups, s.active, ClaimVisible(s));
    RestPartition(order, s.active, ClaimStashed(s.stashedGroups, s.active, ClaimVisible(s)));
  }

  lemma {:induction false} ColouredTotal(raw: seq<RawUnit>, units: seq<SidebarUnit>, f: RawUnit -> nat,
      g: SidebarUnit -> nat)
    requires |raw| == |units| && forall i :: 0 <= i < |raw| ==> f(raw[i]) == g(units[i])
    ensures Total(units, g) == Total(raw, f)
  {
    if raw != [] {
      ColouredTotal(raw[1..], units[1..], f, g);
    }
  }

  /**
   * The partition: even where stashed groups overlap or dangle, every active surface is in exactly one unit,
   * once; every unit holds registry records, at least one, and is a group exactly when it holds several.
   */
  lemma SidebarPartitions(s: WorkspaceState, order: seq<string>)
    requires NoRepeatedLeaf(s) && KeysAreIds(s.active) && forall k :: k in order <==> k in s.active
    ensures var units := SidebarSpec(s, order);
            && (forall id :: Total(units, InUnit(id)) == if id in s.active then 1 else 0)
            && (forall u :: u in units ==>
                  Own(u.surfaces, s.active) && u.surfaces != [] && (u.kind == Group <==> |u.surfaces| >= 2))
  {
    RawPartition(s, order);
    var raw := RawUnits(s, order).raw;
    var units := Coloured(raw);
    forall id ensures Total(SidebarSpec(s, order), InUnit(id)) == if id in s.active then 1 else 0 {
      ColouredTotal(raw, units, InRaw(id), InUnit(id));
      SortTotal(units, UnitBefore, InUnit(id));
    }
    SortTotal(units, UnitBefore, InUnit(""));
    forall u | u in units
      ensures Own(u.surfaces, s.active) && u.surfaces != [] && (u.kind == Group <==> |u.surfaces| >= 2)
    {
      var i :| 0 <= i < |units| && units[i] == u;
      assert raw[i] in raw;
    }
  }

  // ----- Order -----

  lemma {:induction false} RecencyIsMaximum(surfaces: seq<SurfaceRecord>)
    ensures Recency(surfaces) >= 0.0 && forall r :: r in surfaces ==> r.lastFocusedAt <= Recency(surfaces)
    ensures Recency(surfaces) == 0.0 || exists r :: r in surfaces && r.lastFocusedAt == Recency(surfaces)
  {
    if surfaces != [] {
      RecencyIsMaximum(surfaces[1..]);
      assert surfaces[0] in surfaces;
      if Recency(surfaces) != 0.0 && Recency(surfaces) != surfaces[0].lastFocusedAt {
        var r :| r in surfaces[1..] && r.lastFocusedAt == Recency(surfaces[1..]);
        assert r in surfaces;
      }
    }
  }

  lemma {:induction false} EarliestIsMinimum(surfaces: seq<SurfaceRecord>)
    ensures EarliestCreatedAt(surfaces).Some? <==> surfaces != []
    ensures forall r :: r in surfaces ==> EarliestCreatedAt(surfaces).value <= r.createdAt
    ensures surfaces != [] ==> exists r :: r in surfaces && EarliestCreatedAt(surfaces).value == r.createdAt
  {
    if surfaces != [] {
      EarliestIsMinimum(surfaces[1..]);
      assert surfaces[0] in surfaces;
      if EarliestCreatedAt(surfaces).value != surfaces[0].createdAt {
        var r :| r in surfaces[1..] && EarliestCreatedAt(surfaces[1..]).value == r.createdAt;
        assert r in surfaces;
      }
    }
  }

  /** Units come most recently used first; among equally recent ones, the earliest created first. */
  lemma SidebarSorted(s: WorkspaceState, order: seq<string>, i: nat, j: nat)
    requires (forall k :: k in order ==> k in s.active) && i < j < |SidebarSpec(s, order)|
    ensures var u, v := SidebarSpec(s, order)[i], SidebarSpec(s, order)[j];
            && u.recency >= v.recency
            && (u.recency == v.recency ==> !Earlier(EarliestCreatedAt(v.surfaces), EarliestCreatedAt(u.surfaces)))
  {
    SortSorted(Coloured(RawUnits(s, order).raw), UnitBefore);
  }

  /** What a unit is sorted by: how recently any of its members was used. */
  lemma UnitRecency(s: WorkspaceState, order: seq<string>, u: SidebarUnit)
    requires (forall k :: k in order ==> k in s.active) && u in SidebarSpec(s, order)
    ensures forall r :: r in u.surfaces ==> r.lastFocusedAt <= u.recency
    ensures u.recency == 0.0 || exists r :: r in u.surfaces && r.lastFocusedAt == u.recency
  {
    var coloured := Coloured(RawUnits(s, order).raw);
    SortTotal(coloured, UnitBefore, GroupCount);
    assert u in coloured;
    RecencyIsMaximum(u.surfaces);
  }

  // ----- Colours -----

  function TagAt(index: nat): Tag -> nat {
    (t: Tag) => if t.index == index then 1 else 0
  }

  function WithColor(color: int): SidebarUnit -> nat {
    (u: SidebarUnit) => if u.kind == Group && u.colorIndex == color then 1 else 0
  }

  function GroupCount(u: SidebarUnit): nat {
    if u.kind == Group then 1 else 0
  }

  /** There is one tag for each group. */
  lemma {:induction false} TagsCounted(raw: seq<RawUnit>, from: nat, index: nat)
    ensures Total(GroupTags(raw, from), TagAt(index))
            == if from <= index < from + |raw| && raw[index - from].kind == Group then 1 else 0
    decreases raw
  {
    if raw != [] {
      TagsCounted(raw[1..], from + 1, index);
      var head := if raw[0].kind == Group then [Tag(from, EarliestCreatedAt(raw[0].surfaces))] else [];
      TotalConcat(head, GroupTags(raw[1..], from + 1), TagAt(index));
      if head != [] {
        assert Total(head, TagAt(index)) == TagAt(index)(head[0]) + Total(head[1..], TagAt(index)) && head[1..] == [];
      }
    }
  }

  /** The tag of a group at its place, with its earliest creation. */
  predicate TagFits(t: Tag, raw: seq<RawUnit>, from: nat) {
    from <= t.index < from + |raw| && raw[t.index - from].kind == Group
    && t.earliest == EarliestCreatedAt(raw[t.index - from].surfaces)
  }

  lemma {:induction false} TagsFit(raw: seq<RawUnit>, from: nat)
    ensures forall t :: t in GroupTags(raw, from) ==> TagFits(t, raw, from)
    decreases raw
  {
    if raw != [] {
      TagsFit(raw[1..], from + 1);
      forall t | t in GroupTags(raw[1..], from + 1) ensures TagFits(t, raw, from) {
        assert TagFits(t, raw[1..], from + 1);
      }
    }
  }

  /** There is one tag for each group, with its place and its earliest creation. */
  lemma TagsOfGroups(raw: seq<RawUnit>, from: nat, index: nat)
    ensures Total(GroupTags(raw, from), TagAt(index))
            == if from <= index < from + |raw| && raw[index - from].kind == Group then 1 else 0
    ensures forall t :: t in GroupTags(raw, from) ==> TagFits(t, raw, from)
  {
    TagsCounted(raw, from, index);
    TagsFit(raw, from);
  }

  lemma {:induction false} PlaceFound(tags: seq<Tag>, index: nat)
    ensures PlaceOf(tags, index).Some? <==> exists t :: t in tags && t.index == index
    ensures PlaceOf(tags, index).Some? ==>
              PlaceOf(tags, index).value < |tags| && tags[PlaceOf(tags, index).value].index == index
  {
    if tags != [] {
      PlaceFound(tags[1..], index);
      assert tags[0] in tags;
      if t :| t in tags[1..] && t.index == index {
        assert t in tags;
      }
    }
  }

  /** The groups' tags in colour order. */
  function ColorOrder(raw: seq<RawUnit>): seq<Tag> {
    Sort(GroupTags(raw, 0), TagBefore)
  }

  /** A group's colour is its tag's place, and the only place where it has one. */
  lemma ColorIsPlace(raw: seq<RawUnit>, index: nat, place: nat)
    requires index < |raw| && place < |ColorOrder(raw)|
    ensures raw[index].kind == Group ==> 0 <= ColorOf(raw, index) < |ColorOrder(raw)|
    ensures raw[index].kind == Group && ColorOf(raw, index) == place <==> ColorOrder(raw)[place].index == index
  {
    var tags := ColorOrder(raw);
    SortTotal(GroupTags(raw, 0), TagBefore, TagAt(index));
    TagsOfGroups(raw, 0, index);
    PlaceFound(tags, index);
    assert tags[place] in tags;
    if raw[index].kind == Group {
      var k := TotalSource(tags, TagAt(index));
      assert tags[k] in tags;
      var p := PlaceOf(tags, index).value;
      if tags[place].index == index && place != p {
        TotalTwice(tags, TagAt(index), if place < p then place else p, if place < p then p else place);
      }
    }
  }

  lemma TagsNonEmpty(raw: seq<RawUnit>, index: nat)
    requires index < |raw| && raw[index].kind == Group
    ensures |ColorOrder(raw)| > 0
  {
    SortTotal(GroupTags(raw, 0), TagBefore, TagAt(index));
    TagsOfGroups(raw, 0, index);
    var k := TotalSource(ColorOrder(raw), TagAt(index));
  }

  lemma {:induction false} TagsCountGroups(raw: seq<RawUnit>, from: nat, units: seq<SidebarUnit>)
    requires |units| == |raw| && forall i :: 0 <= i < |raw| ==> units[i].kind == raw[i].kind
    ensures |GroupTags(raw, from)| == Total(units, GroupCount)
    decreases raw
  {
    if raw != [] {
      TagsCountGroups(raw[1..], from + 1, units[1..]);
    }
  }

  /** Exactly one group has each colour below the number of groups. */
  lemma RawColours(raw: seq<RawUnit>, color: int)
    ensures |ColorOrder(raw)| == Total(Coloured(raw), GroupCount)
    ensures Total(Coloured(raw), WithColor(color)) == if 0 <= color < |ColorOrder(raw)| then 1 else 0
  {
    var units, tags := Coloured(raw), ColorOrder(raw);
    SortTotal(GroupTags(raw, 0), TagBefore, TagAt(0));
    TagsCountGroups(raw, 0, units);
    if 0 <= color < |tags| {
      var i := tags[color].index;
      assert tags[color] in tags;
      TagsOfGroups(raw, 0, i);
      forall j | 0 <= j < |units| ensures WithColor(color)(units[j]) == if j == i then 1 else 0 {
        ColorIsPlace(raw, j, color);
      }
      TotalOne(units, WithColor(color), i);
    } else {
      forall j | 0 <= j < |units| ensures WithColor(color)(units[j]) == 0 {
        if raw[j].kind == Group {
          TagsNonEmpty(raw, j);
          ColorIsPlace(raw, j, 0);
        }
      }
      TotalZero(units, WithColor(color));
    }
  }

  /** A group's tag stands at the place its colour names. */
  lemma TagOfGroup(raw: seq<RawUnit>, i: nat) returns (place: nat)
    requires i < |raw| && raw[i].kind == Group
    ensures place == ColorOf(raw, i) && place < |ColorOrder(raw)|
    ensures ColorOrder(raw)[place].earliest == EarliestCreatedAt(raw[i].surfaces)
  {
    TagsNonEmpty(raw, i);
    ColorIsPlace(raw, i, 0);
    place := ColorOf(raw, i);
    ColorIsPlace(raw, i, place);
    TagInOrder(raw, place);
  }

  lemma TagInOrder(raw: seq<RawUnit>, place: nat)
    requires place < |ColorOrder(raw)|
    ensures var t := ColorOrder(raw)[place];
            t.index < |raw| && t.earliest == EarliestCreatedAt(raw[t.index].surfaces)
  {
    SortTotal(GroupTags(raw, 0), TagBefore, TagAt(0));
    TagsOfGroups(raw, 0, 0);
    assert ColorOrder(raw)[place] in GroupTags(raw, 0);
  }

  lemma TagsSorted(raw: seq<RawUnit>, p: nat, q: nat)
    requires p < q < |ColorOrder(raw)|
    ensures !Earlier(ColorOrder(raw)[q].earliest, ColorOrder(raw)[p].earliest)
  {
    SortSorted(GroupTags(raw, 0), TagBefore);
    assert !TagBefore(ColorOrder(raw)[q], ColorOrder(raw)[p]);
  }

  lemma ColoursFollowCreation(raw: seq<RawUnit>, i: nat, j: nat)
    requires i < |raw| && j < |raw| && raw[i].kind == Group && raw[j].kind == Group && ColorOf(raw, i) < ColorOf(raw, j)
    ensures !Earlier(EarliestCreatedAt(raw[j].surfaces), EarliestCreatedAt(raw[i].surfaces))
  {
    var p := TagOfGroup(raw, i);
    var q := TagOfGroup(raw, j);
    TagsSorted(raw, p, q);
  }

  /**
   * With k groups, each of the colours 0 to k - 1 belongs to exactly one group and no other colour is used;
   * solos have colour -1; and an earlier colour never belongs to a later created group.
   */
  lemma SidebarColours(s: WorkspaceState, order: seq<string>)
    requires forall k :: k in order ==> k in s.active
    ensures var units := SidebarSpec(s, order);
            && (forall color ::
                  Total(units, WithColor(color)) == if 0 <= color < Total(units, GroupCount) then 1 else 0)
            && (forall u :: u in units && u.kind == Solo ==> u.colorIndex == -1)
            && (forall u, v ::
                  u in units && v in units && u.kind == Group && v.kind == Group && u.colorIndex < v.colorIndex ==>
                    !Earlier(EarliestCreatedAt(v.surfaces), EarliestCreatedAt(u.surfaces)))
  {
    var raw := RawUnits(s, order).raw;
    SortTotal(Coloured(raw), UnitBefore, GroupCount);
    forall color ensures Total(Sort(Coloured(raw), UnitBefore), WithColor(color))
                         == if 0 <= color < Total(Coloured(raw), GroupCount) then 1 else 0 {
      SortTotal(Coloured(raw), UnitBefore, WithColor(color));
      RawColours(raw, color);
    }
    ColouredByCreation(raw);
  }

  lemma ColouredByCreation(raw: seq<RawUnit>)
    ensures var coloured := Coloured(raw);
            forall u, v ::
              u in coloured && v in coloured && u.kind == Group && v.kind == Group && u.colorIndex < v.colorIndex ==>
                !Earlier(EarliestCreatedAt(v.surfaces), EarliestCreatedAt(u.surfaces))
  {
    var coloured := Coloured(raw);
    forall u, v | u in coloured && v in coloured && u.kind == Group && v.kind == Group && u.colorIndex < v.colorIndex
      ensures !Earlier(EarliestCreatedAt(v.surfaces), EarliestCreatedAt(u.surfaces))
    {
      var i :| 0 <= i < |coloured| && coloured[i] == u;
      var j :| 0 <= j < |coloured| && coloured[j] == v;
      ColoursFollowCreation(raw, i, j);
    }
  }

  // ----- Colours and recency -----

  /** The same records except for when they were last focused. */
  ghost predicate OnlyFocusTimes(a: Registry, b: Registry) {
    a.Keys == b.Keys && forall k :: k in a ==> SameButFocus(a[k], b[k])
  }

  predicate SameButFocus(a: SurfaceRecord, b: SurfaceRecord) {
    a.(lastFocusedAt := 0.0) == b.(lastFocusedAt := 0.0)
  }

  predicate SameSurfaces(a: seq<SurfaceRecord>, b: seq<SurfaceRecord>) {
    |a| == |b| && forall i :: 0 <= i < |a| ==> SameButFocus(a[i], b[i])
  }

  predicate SameUnits(a: seq<RawUnit>, b: seq<RawUnit>) {
    |a| == |b| && forall i :: 0 <= i < |a| ==> a[i].kind == b[i].kind && SameSurfaces(a[i].surfaces, b[i].surfaces)
  }

  lemma {:induction false} ResolveSame(ids: seq<string>, a: Registry, b: Registry)
    requires OnlyFocusTimes(a, b)
    ensures SameSurfaces(Resolve(ids, a), Resolve(ids, b))
  {
    if ids != [] {
      ResolveSame(ids[1..], a, b);
    }
  }

  lemma {:induction false} IdsSame(a: seq<SurfaceRecord>, b: seq<SurfaceRecord>)
    requires SameSurfaces(a, b)
    ensures Ids(a) == Ids(b) && EarliestCreatedAt(a) == EarliestCreatedAt(b)
  {
    if a != [] {
      assert SameButFocus(a[0], b[0]);
      IdsSame(a[1..], b[1..]);
    }
  }

  lemma {:induction false} UnclaimedSame(a: seq<SurfaceRecord>, b: seq<SurfaceRecord>, claimed: set<string>)
    requires SameSurfaces(a, b)
    ensures SameSurfaces(Unclaimed(a, claimed), Unclaimed(b, claimed))
  {
    if a != [] {
      assert SameButFocus(a[0], b[0]);
      UnclaimedSame(a[1..], b[1..], claimed);
    }
  }

  lemma {:induction false} StashedSame(groups: seq<TreeNode>, a: Registry, b: Registry, c: Claims, d: Claims)
    requires OnlyFocusTimes(a, b) && SameUnits(c.raw, d.raw) && c.claimed == d.claimed
    ensures var c', d' := ClaimStashed(groups, a, c), ClaimStashed(groups, b, d);
            SameUnits(c'.raw, d'.raw) && c'.claimed == d'.claimed
    decreases groups
  {
    if groups != [] {
      var x, y := LeafSurfaces(Some(groups[0]), a), LeafSurfaces(Some(groups[0]), b);
      ResolveSame(Leaves(groups[0]), a, b);
      UnclaimedSame(x, y, c.claimed);
      var m, n := Unclaimed(x, c.claimed), Unclaimed(y, c.claimed);
      IdsSame(m, n);
      assert SameUnits(ClaimGroup(m), ClaimGroup(n));
      StashedSame(groups[1..], a, b, Claims(c.raw + ClaimGroup(m), c.claimed + Ids(m)),
          Claims(d.raw + ClaimGroup(n), d.claimed + Ids(n)));
    }
  }

  lemma {:induction false} RestSame(order: seq<string>, a: Registry, b: Registry, c: Claims, d: Claims)
    requires OnlyFocusTimes(a, b) && SameUnits(c.raw, d.raw) && c.claimed == d.claimed
    requires forall k :: k in order ==> k in a
    ensures SameUnits(ClaimRest(order, a, c).raw, ClaimRest(order, b, d).raw)
    decreases order
  {
    if order != [] {
      var x, y := a[order[0]], b[order[0]];
      assert SameButFocus(x, y);
      if x.id in c.claimed {
        RestSame(order[1..], a, b, c, d);
      } else {
        RestSame(order[1..], a, b, Claims(c.raw + [RawUnit(Solo, [x], false)], c.claimed + {x.id}),
                 Claims(d.raw + [RawUnit(Solo, [y], false)], d.claimed + {y.id}));
      }
    }
  }

  lemma {:induction false} TagsSame(a: seq<RawUnit>, b: seq<RawUnit>, from: nat)
    requires SameUnits(a, b)
    ensures GroupTags(a, from) == GroupTags(b, from)
    decreases a
  {
    if a != [] {
      IdsSame(a[0].surfaces, b[0].surfaces);
      TagsSame(a[1..], b[1..], from + 1);
    }
  }

  /** The raw units and their colours do not depend on when surfaces were last focused. */
  lemma RawIgnoresRecency(s: WorkspaceState, active: Registry, order: seq<string>)
    requires OnlyFocusTimes(s.active, active) && forall k :: k in order ==> k in s.active
    ensures var before, after := RawUnits(s, order).raw, RawUnits(s.(active := active), order).raw;
            SameUnits(before, after) && GroupTags(before, 0) == GroupTags(after, 0)
  {
    var t := s.(active := active);
    ResolveSame(LeavesOf(s.visibleTree), s.active, active);
    IdsSame(LeafSurfaces(s.visibleTree, s.active), LeafSurfaces(s.visibleTree, active));
    StashedSame(s.stashedGroups, s.active, active, ClaimVisible(s), ClaimVisible(t));
    RestSame(order, s.active, active, ClaimStashed(s.stashedGroups, s.active, ClaimVisible(s)),
             ClaimStashed(s.stashedGroups, active, ClaimVisible(t)));
    TagsSame(RawUnits(s, order).raw, RawUnits(t, order).raw, 0);
  }

  /** The unit of the same kind and colour with the same surfaces, but for when they were last focused. */
  predicate SameUnit(u: SidebarUnit, v: SidebarUnit) {
    v.kind == u.kind && v.colorIndex == u.colorIndex && SameSurfaces(u.surfaces, v.surfaces)
  }

  lemma HasSame(before: seq<SidebarUnit>, after: seq<SidebarUnit>, u: SidebarUnit) returns (v: SidebarUnit)
    requires |before| == |after| && forall i :: 0 <= i < |before| ==> SameUnit(before[i], after[i])
    requires u in before
    ensures v in after && SameUnit(u, v)
  {
    var i :| 0 <= i < |before| && before[i] == u;
    v := after[i];
  }

  lemma SortedHasSame(before: seq<SidebarUnit>, after: seq<SidebarUnit>)
    requires |before| == |after| && forall i :: 0 <= i < |before| ==> SameUnit(before[i], after[i])
    ensures forall u :: u in Sort(before, UnitBefore) ==> exists v :: v in Sort(after, UnitBefore) && SameUnit(u, v)
  {
    SortTotal(before, UnitBefore, GroupCount);
    SortTotal(after, UnitBefore, GroupCount);
    forall u | u in Sort(before, UnitBefore) ensures exists v :: v in Sort(after, UnitBefore) && SameUnit(u, v) {
      var v := HasSame(before, after, u);
    }
  }

  lemma SameColours(before: seq<RawUnit>, after: seq<RawUnit>, i: nat)
    requires SameUnits(before, after) && GroupTags(before, 0) == GroupTags(after, 0) && i < |before|
    ensures ColorOf(before, i) == ColorOf(after, i) && SameUnit(Coloured(before)[i], Coloured(after)[i])
  {
  }

  /** Using a surface never recolours a group: only the order of the units may change. */
  lemma ColoursIgnoreRecency(s: WorkspaceState, active: Registry, order: seq<string>)
    requires OnlyFocusTimes(s.active, active) && forall k :: k in order ==> k in s.active
    ensures var before, after := RawUnits(s, order).raw, RawUnits(s.(active := active), order).raw;
            && SameUnits(before, after)
            && forall i :: 0 <= i < |before| ==> ColorOf(before, i) == ColorOf(after, i)
    ensures var f, g := SidebarSpec(s, order), SidebarSpec(s.(active := active), order);
            forall u :: u in f ==> exists v :: v in g && SameUnit(u, v)
  {
    var before, after := RawUnits(s, order).raw, RawUnits(s.(active := active), order).raw;
    RawIgnoresRecency(s, active, order);
    forall i: nat | i < |before|
      ensures ColorOf(before, i) == ColorOf(after, i) && SameUnit(Coloured(before)[i], Coloured(after)[i])
    {
      SameColours(before, after, i);
    }
    SortedHasSame(Coloured(before), Coloured(after));
  }
}
