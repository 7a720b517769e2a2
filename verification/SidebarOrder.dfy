/** Within a unit of the sidebar (src/lib/sidebarLayout.ts) the members keep their order in the tree. */
module SidebarOrder {
  import opened Prelude
  import opened Workspace
  import opened WorkspaceRuns
  import opened StableSort
  import opened Sidebar
  import opened SidebarLaws

  // ----- The members of a tree -----

  /** The leaves of the visible tree, for 0, and of the stashed groups after it. */
  function TreeLeaves(s: WorkspaceState, j: nat): seq<string>
    requires j <= |s.stashedGroups|
  {
    if j == 0 then LeavesOf(s.visibleTree) else Leaves(s.stashedGroups[j - 1])
  }

  function IdSet(ids: seq<string>): set<string> {
    if ids == [] then {} else {ids[0]} + IdSet(ids[1..])
  }

  /** All leaves of the trees in front of the given one. */
  function EarlierLeaves(s: WorkspaceState, j: nat): set<string>
    requires j <= |s.stashedGroups| + 1
  {
    if j == 0 then {} else EarlierLeaves(s, j - 1) + IdSet(TreeLeaves(s, j - 1))
  }

  /** The active surfaces among the leaves that are in no earlier tree, in the order of the leaves. */
  function NewSurfaces(ids: seq<string>, active: Registry, earlier: set<string>): seq<SurfaceRecord> {
    if ids == [] then []
    else
      (if ids[0] in active && ids[0] !in earlier then [active[ids[0]]] else [])
      + NewSurfaces(ids[1..], active, earlier)
  }

  function Members(s: WorkspaceState, j: nat): seq<SurfaceRecord>
    requires j <= |s.stashedGroups|
  {
    NewSurfaces(TreeLeaves(s, j), s.active, EarlierLeaves(s, j))
  }

  /** The units of the trees: one each, or none. */
  function UnitsOf(s: WorkspaceState): nat -> seq<RawUnit> {
    (j: nat) => if j <= |s.stashedGroups| then UnitFor(Members(s, j), j == 0) else []
  }

  function UpTo(f: nat -> seq<RawUnit>, n: nat): seq<RawUnit> {
    if n == 0 then [] else UpTo(f, n - 1) + f(n - 1)
  }

  /** The units of the first trees. */
  function TreeUnits(s: WorkspaceState, n: nat): seq<RawUnit> {
    UpTo(UnitsOf(s), n)
  }

  /** What has been claimed are the active surfaces of the earlier trees. */
  ghost predicate ClaimedAre(claimed: set<string>, earlier: set<string>, active: Registry) {
    forall id :: id in claimed <==> id in earlier && id in active
  }

  lemma {:induction false} UnclaimedAreNew(ids: seq<string>, active: Registry, claimed: set<string>,
      earlier: set<string>)
    requires KeysAreIds(active) && ClaimedAre(claimed, earlier, active)
    ensures Unclaimed(Resolve(ids, active), claimed) == NewSurfaces(ids, active, earlier)
  {
    if ids != [] {
      var rest := Resolve(ids[1..], active);
      UnclaimedAreNew(ids[1..], active, claimed, earlier);
      if ids[0] in active {
        assert ([active[ids[0]]] + rest)[1..] == rest;
      } else {
        assert [] + rest == rest;
      }
    }
  }

  lemma {:induction false} ClaimedWith(ids: seq<string>, active: Registry, claimed: set<string>, earlier: set<string>)
    requires KeysAreIds(active) && ClaimedAre(claimed, earlier, active)
    ensures forall id :: id in Ids(NewSurfaces(ids, active, earlier)) <==>
              id in IdSet(ids) && id in active && id !in earlier
  {
    if ids != [] {
      ClaimedWith(ids[1..], active, claimed, earlier);
      var rest := NewSurfaces(ids[1..], active, earlier);
      if ids[0] in active && ids[0] !in earlier {
        assert ([active[ids[0]]] + rest)[1..] == rest;
      } else {
        assert [] + rest == rest;
      }
    }
  }

  /** The claims after the first trees. */
  ghost predicate ClaimsAre(s: WorkspaceState, j: nat, c: Claims)
    requires j <= |s.stashedGroups| + 1
  {
    c.raw == TreeUnits(s, j) && ClaimedAre(c.claimed, EarlierLeaves(s, j), s.active)
  }

  /** One tree more. */
  lemma ClaimTree(s: WorkspaceState, j: nat, c: Claims)
    requires KeysAreIds(s.active) && j <= |s.stashedGroups| && ClaimsAre(s, j, c)
    ensures TreeUnits(s, j + 1) == TreeUnits(s, j) + UnitFor(Members(s, j), j == 0)
    ensures Unclaimed(Resolve(TreeLeaves(s, j), s.active), c.claimed) == Members(s, j)
    ensures ClaimsAre(s, j + 1, Claims(c.raw + UnitFor(Members(s, j), j == 0), c.claimed + Ids(Members(s, j))))
  {
    UnclaimedAreNew(TreeLeaves(s, j), s.active, c.claimed, EarlierLeaves(s, j));
    ClaimedWith(TreeLeaves(s, j), s.active, c.claimed, EarlierLeaves(s, j));
  }

  lemma {:induction false} NoneClaimed(surfaces: seq<SurfaceRecord>)
    ensures Unclaimed(surfaces, {}) == surfaces
  {
    if surfaces != [] {
      NoneClaimed(surfaces[1..]);
    }
  }

  lemma VisibleClaims(s: WorkspaceState)
    requires KeysAreIds(s.active)
    ensures ClaimsAre(s, 1, ClaimVisible(s))
  {
    var none := Claims([], {});
    ClaimTree(s, 0, none);
    NoneClaimed(LeafSurfaces(s.visibleTree, s.active));
    var visible := Members(s, 0);
    assert none.raw + UnitFor(visible, true) == ClaimVisible(s).raw;
    assert none.claimed + Ids(visible) == Ids(visible);
  }

  lemma StashedStep(s: WorkspaceState, j: nat, c: Claims, groups: seq<TreeNode>) returns (d: Claims)
    requires KeysAreIds(s.active) && 1 <= j <= |s.stashedGroups| && ClaimsAre(s, j, c)
    requires groups != [] && groups[0] == s.stashedGroups[j - 1]
    ensures ClaimsAre(s, j + 1, d) && ClaimStashed(groups, s.active, c) == ClaimStashed(groups[1..], s.active, d)
  {
    var members := Members(s, j);
    ClaimTree(s, j, c);
    assert ClaimGroup(members) == UnitFor(members, false);
    d := Claims(c.raw + ClaimGroup(members), c.claimed + Ids(members));
  }

  lemma {:induction false} StashedClaims(s: WorkspaceState, j: nat, c: Claims, groups: seq<TreeNode>)
    requires KeysAreIds(s.active) && 1 <= j <= |s.stashedGroups| + 1 && ClaimsAre(s, j, c)
    requires groups == s.stashedGroups[j - 1..]
    ensures ClaimStashed(groups, s.active, c).raw == TreeUnits(s, |s.stashedGroups| + 1)
    decreases |s.stashedGroups| + 1 - j
  {
    if groups != [] {
      var d := StashedStep(s, j, c, groups);
      StashedClaims(s, j + 1, d, groups[1..]);
    }
  }

  predicate HiddenSolo(u: RawUnit) {
    u.kind == Solo && !u.isVisible
  }

  lemma {:induction false} RestIsSolo(order: seq<string>, active: Registry, c: Claims)
    requires forall k :: k in order ==> k in active
    ensures var raw := ClaimRest(order, active, c).raw;
            c.raw <= raw && forall i :: |c.raw| <= i < |raw| ==> HiddenSolo(raw[i])
    decreases order
  {
    if order != [] {
      var surface := active[order[0]];
      if surface.id in c.claimed {
        RestIsSolo(order[1..], active, c);
      } else {
        RestIsSolo(order[1..], active, Claims(c.raw + [RawUnit(Solo, [surface], false)], c.claimed + {surface.id}));
      }
    }
  }

  /** The unit of a tree with such members. */
  function TreeUnit(s: WorkspaceState, j: nat): RawUnit
    requires j <= |s.stashedGroups|
  {
    RawUnit(if |Members(s, j)| > 1 then Group else Solo, Members(s, j), j == 0)
  }

  lemma UnitsOfTree(s: WorkspaceState, j: nat)
    ensures |UnitsOf(s)(j)| <= 1
    ensures j <= |s.stashedGroups| ==> UnitsOf(s)(j) == if Members(s, j) == [] then [] else [TreeUnit(s, j)]
    ensures UnitsOf(s)(j) != [] ==> j <= |s.stashedGroups|
  {
  }

  lemma {:induction false} WhereFrom(f: nat -> seq<RawUnit>, n: nat, i: nat) returns (j: nat)
    requires i < |UpTo(f, n)| && forall x :: |f(x)| <= 1
    ensures j < n && f(j) == [UpTo(f, n)[i]]
  {
    if i < |UpTo(f, n - 1)| {
      j := WhereFrom(f, n - 1, i);
    } else {
      j := n - 1;
    }
  }

  lemma {:induction false} WhereTo(f: nat -> seq<RawUnit>, n: nat, j: nat) returns (i: nat)
    requires j < n && f(j) != []
    ensures i < |UpTo(f, n)| && UpTo(f, n)[i] == f(j)[0]
  {
    if j < n - 1 {
      i := WhereTo(f, n - 1, j);
    } else {
      i := |UpTo(f, n - 1)|;
    }
  }

  lemma TreeOfUnit(s: WorkspaceState, n: nat, i: nat) returns (j: nat)
    requires i < |TreeUnits(s, n)|
    ensures j < n && j <= |s.stashedGroups| && TreeUnits(s, n)[i] == TreeUnit(s, j)
  {
    forall x ensures |UnitsOf(s)(x)| <= 1 {
      UnitsOfTree(s, x);
    }
    j := WhereFrom(UnitsOf(s), n, i);
    UnitsOfTree(s, j);
  }

  lemma UnitOfTree(s: WorkspaceState, n: nat, j: nat) returns (i: nat)
    requires j < n && j <= |s.stashedGroups| && Members(s, j) != []
    ensures i < |TreeUnits(s, n)| && TreeUnits(s, n)[i] == TreeUnit(s, j)
  {
    UnitsOfTree(s, j);
    i := WhereTo(UnitsOf(s), n, j);
  }

  lemma RawTreeUnits(s: WorkspaceState, order: seq<string>)
    requires KeysAreIds(s.active) && forall k :: k in order ==> k in s.active
    ensures var raw, trees := RawUnits(s, order).raw, TreeUnits(s, |s.stashedGroups| + 1);
            trees <= raw && forall i :: |trees| <= i < |raw| ==> HiddenSolo(raw[i])
  {
    VisibleClaims(s);
    StashedClaims(s, 1, ClaimVisible(s), s.stashedGroups);
    assert s.stashedGroups[0..] == s.stashedGroups;
    RestIsSolo(order, s.active, ClaimStashed(s.stashedGroups, s.active, ClaimVisible(s)));
  }

  /** The unit that the sidebar shows for a tree. */
  ghost predicate ShowsTree(s: WorkspaceState, u: SidebarUnit, j: nat) {
    && j <= |s.stashedGroups| && u.surfaces == Members(s, j) && (u.isVisible <==> j == 0)
    && (u.kind == Group <==> |Members(s, j)| >= 2)
  }

  lemma ColouredShowsTree(s: WorkspaceState, raw: seq<RawUnit>, i: nat, j: nat)
    requires i < |raw| && j <= |s.stashedGroups| && raw[i] == TreeUnit(s, j)
    ensures ShowsTree(s, Coloured(raw)[i], j) && Coloured(raw)[i] in Coloured(raw)
  {
  }

  lemma PlaceOfUnit(raw: seq<RawUnit>, u: SidebarUnit) returns (i: nat)
    requires u in Coloured(raw)
    ensures i < |raw| && Coloured(raw)[i] == u && u.kind == raw[i].kind && u.isVisible == raw[i].isVisible
  {
    i :| 0 <= i < |raw| && Coloured(raw)[i] == u;
  }

  lemma GroupShowsTree(s: WorkspaceState, order: seq<string>, u: SidebarUnit) returns (j: nat)
    requires KeysAreIds(s.active) && forall k :: k in order ==> k in s.active
    requires u in Coloured(RawUnits(s, order).raw) && (u.kind == Group || u.isVisible)
    ensures ShowsTree(s, u, j)
  {
    var raw := RawUnits(s, order).raw;
    RawTreeUnits(s, order);
    var i := PlaceOfUnit(raw, u);
    assert !HiddenSolo(raw[i]);
    j := TreeOfUnit(s, |s.stashedGroups| + 1, i);
    ColouredShowsTree(s, raw, i, j);
  }

  lemma TreeIsShown(s: WorkspaceState, order: seq<string>, j: nat) returns (u: SidebarUnit)
    requires KeysAreIds(s.active) && forall k :: k in order ==> k in s.active
    requires j <= |s.stashedGroups| && Members(s, j) != []
    ensures u in Coloured(RawUnits(s, order).raw) && ShowsTree(s, u, j)
  {
    var raw := RawUnits(s, order).raw;
    RawTreeUnits(s, order);
    var i := UnitOfTree(s, |s.stashedGroups| + 1, j);
    ColouredShowsTree(s, raw, i, j);
    u := Coloured(raw)[i];
  }

  /**
   * Members keep their on-screen order: the groups are exactly the trees with several active leaves that no
   * earlier tree has, and hold those in the order of the leaves. The visible tree's unit alone is flagged.
   */
  lemma MembersKeepTreeOrder(s: WorkspaceState, order: seq<string>)
    requires KeysAreIds(s.active) && forall k :: k in order ==> k in s.active
    ensures forall u :: u in SidebarSpec(s, order) && (u.kind == Group || u.isVisible) ==>
              exists j :: ShowsTree(s, u, j)
    ensures forall j: nat :: j <= |s.stashedGroups| && Members(s, j) != [] ==>
              exists u :: u in SidebarSpec(s, order) && ShowsTree(s, u, j)
  {
    SortTotal(Coloured(RawUnits(s, order).raw), UnitBefore, GroupCount);
    forall u | u in SidebarSpec(s, order) && (u.kind == Group || u.isVisible) ensures exists j :: ShowsTree(s, u, j) {
      var j := GroupShowsTree(s, order, u);
    }
    forall j: nat | j <= |s.stashedGroups| && Members(s, j) != []
      ensures exists u :: u in SidebarSpec(s, order) && ShowsTree(s, u, j)
    {
      var u := TreeIsShown(s, order, j);
    }
  }

  /** Two visible surfaces, the second of them used later. */
  function VisiblePair(a: SurfaceRecord): WorkspaceState {
    var b := a.(id := "b", lastFocusedAt := a.lastFocusedAt + 1.0);
    var tree := SplitNode("n", Horizontal, 0.5, LeafNode("m", "a"), LeafNode("k", "b"));
    EmptyWorkspace().(active := map["a" := a, "b" := b], visibleTree := Some(tree), focused := Some("b"))
  }

  /** So a unit's members need not come most recently used first. */
  lemma MembersNotByRecency(a: SurfaceRecord, order: seq<string>)
    requires a.id == "a" && order == ["a", "b"]
    ensures exists u :: u in SidebarSpec(VisiblePair(a), order) && |u.surfaces| == 2
                        && u.surfaces[0].lastFocusedAt < u.surfaces[1].lastFocusedAt
  {
    var s := VisiblePair(a);
    assert TreeLeaves(s, 0) == ["a"] + ["b"] == ["a", "b"] && ["a", "b"][1..] == ["b"] && ["b"][1..] == [];
    assert NewSurfaces(["b"], s.active, {}) == [s.active["b"]] + [];
    assert Members(s, 0) == [a] + [s.active["b"]];
    MembersKeepTreeOrder(s, order);
    var u :| u in SidebarSpec(s, order) && ShowsTree(s, u, 0);
  }
}
