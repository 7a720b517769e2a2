/**
 * What each operation of the workspace (src/lib/workspaceState.ts) does to the screen, the focus, the registry and
 * the history, and what stays as it was.
 */
module WorkspaceMoves {
  import opened Prelude
  import opened Workspace
  import opened WorkspaceRuns
  import opened Geometry

  // ----- On screen -----

  /** The boxes of one surface shown for another. */
  function Renamed(bs: seq<Box>, a: string, b: string): seq<Box> {
    if bs == [] then []
    else [if bs[0].surfaceId == a then bs[0].(surfaceId := b) else bs[0]] + Renamed(bs[1..], a, b)
  }

  /** The box of surface a, cut into halves for itself and, to the right of it or below, for surface b. */
  function Halved(bs: seq<Box>, a: string, d: SplitDirection, b: string): seq<Box> {
    if bs == [] then []
    else
      var w := if d == Horizontal then bs[0].width / 2.0 else bs[0].width;
      var h := if d == Vertical then bs[0].height / 2.0 else bs[0].height;
      (if bs[0].surfaceId == a then [Box(a, w, h), Box(b, w, h)] else [bs[0]]) + Halved(bs[1..], a, d, b)
  }

  function Others(ids: seq<string>, id: string): seq<string> {
    if ids == [] then [] else (if ids[0] == id then [] else [ids[0]]) + Others(ids[1..], id)
  }

  lemma {:induction false} RenamedConcat(x: seq<Box>, y: seq<Box>, a: string, b: string)
    ensures Renamed(x + y, a, b) == Renamed(x, a, b) + Renamed(y, a, b)
  {
    if x == [] {
      assert x + y == y;
    } else {
      assert (x + y)[1..] == x[1..] + y;
      RenamedConcat(x[1..], y, a, b);
    }
  }

  lemma {:induction false} HalvedConcat(x: seq<Box>, y: seq<Box>, a: string, d: SplitDirection, b: string)
    ensures Halved(x + y, a, d, b) == Halved(x, a, d, b) + Halved(y, a, d, b)
  {
    if x == [] {
      assert x + y == y;
    } else {
      assert (x + y)[1..] == x[1..] + y;
      HalvedConcat(x[1..], y, a, d, b);
    }
  }

  lemma {:induction false} OthersConcat(x: seq<string>, y: seq<string>, id: string)
    ensures Others(x + y, id) == Others(x, id) + Others(y, id)
  {
    if x == [] {
      assert x + y == y;
    } else {
      assert (x + y)[1..] == x[1..] + y;
      OthersConcat(x[1..], y, id);
    }
  }

  /** Replacing a leaf's surface moves and resizes nothing. */
  lemma {:induction false} UpdateLeafBoxes(t: TreeNode, a: string, b: string, w: real, h: real)
    ensures Boxes(UpdateLeafSurface(t, a, b), w, h) == Renamed(Boxes(t, w, h), a, b)
    decreases t
  {
    match t
    case LeafNode(_, s) =>
      assert Boxes(t, w, h)[1..] == [];
    case SplitNode(_, d, r, x, y) =>
      UpdateLeafBoxes(x, a, b, PartW(d, r, w), PartH(d, r, h));
      UpdateLeafBoxes(y, a, b, PartW(d, 1.0 - r, w), PartH(d, 1.0 - r, h));
      RenamedConcat(Boxes(x, PartW(d, r, w), PartH(d, r, h)),
                    Boxes(y, PartW(d, 1.0 - r, w), PartH(d, 1.0 - r, h)), a, b);
  }

  /** Splitting a leaf halves its box, the old surface first, and leaves all other boxes alone. */
  lemma {:induction false} SplitLeafBoxes(t: TreeNode, a: string, d: SplitDirection, leafId: string, b: string,
      splitId: string, w: real, h: real)
    ensures Boxes(ReplaceLeafWithSplit(t, a, d, LeafNode(leafId, b), splitId), w, h) == Halved(Boxes(t, w, h), a, d, b)
    decreases t
  {
    match t
    case LeafNode(_, s) =>
      assert Boxes(t, w, h)[1..] == [];
      HalfOf(w);
      HalfOf(h);
    case SplitNode(_, e, r, x, y) =>
      SplitLeafBoxes(x, a, d, leafId, b, splitId, PartW(e, r, w), PartH(e, r, h));
      SplitLeafBoxes(y, a, d, leafId, b, splitId, PartW(e, 1.0 - r, w), PartH(e, 1.0 - r, h));
      HalvedConcat(Boxes(x, PartW(e, r, w), PartH(e, r, h)),
                   Boxes(y, PartW(e, 1.0 - r, w), PartH(e, 1.0 - r, h)), a, d, b);
  }

  lemma HalfOf(x: real)
    ensures x * 0.5 == x / 2.0 && x * (1.0 - 0.5) == x / 2.0
  {
  }

  lemma {:induction false} RemoveLeaves(t: TreeNode, id: string)
    ensures LeavesOf(RemoveFromTree(t, id)) == Others(Leaves(t), id)
  {
    match t
    case LeafNode(_, s) =>
      assert Leaves(t)[1..] == [];
    case SplitNode(_, _, _, a, b) =>
      RemoveLeaves(a, id);
      RemoveLeaves(b, id);
      OthersConcat(Leaves(a), Leaves(b), id);
  }

  function BoxesOf(tree: Option<TreeNode>, w: real, h: real): seq<Box> {
    if tree.None? then [] else Boxes(tree.value, w, h)
  }

  // ----- The operations -----

  function FirstOf(ids: seq<string>): Option<string> {
    if ids == [] then None else Some(ids[0])
  }

  /** The surface has the focus from now on; nothing else about any surface changes. */
  ghost predicate Focused(s: WorkspaceState, t: WorkspaceState, id: string, now: real) {
    && t.focused == Some(id)
    && t.active.Keys == s.active.Keys
    && forall k :: k in s.active ==> t.active[k] == if k == id then s.active[k].(lastFocusedAt := now) else s.active[k]
  }

  ghost predicate SameHistory(s: WorkspaceState, t: WorkspaceState) {
    t.history == s.history && t.stashedGroups == s.stashedGroups
  }

  /** A visible surface gets the focus; for any other nothing happens. */
  lemma FocusMoves(s: WorkspaceState, id: string, now: real)
    requires Inv(s)
    ensures var t := FocusSurface(s, id, now);
            if id !in LeavesOf(s.visibleTree) then t == s
            else Focused(s, t, id, now) && t.visibleTree == s.visibleTree && SameHistory(s, t)
  {
    if s.visibleTree.Some? {
      LeafSetIsLeaves(s.visibleTree.value);
    }
  }

  /** The surface in whose place another one is shown: the focused one, or the first if that has no name. */
  ghost predicate IsAnchor(s: WorkspaceState, a: string) {
    && a in LeavesOf(s.visibleTree)
    && (if s.focused == Some("") then a == LeavesOf(s.visibleTree)[0] else s.focused == Some(a))
  }

  lemma AnchorIs(s: WorkspaceState)
    requires Inv(s) && s.visibleTree.Some?
    ensures IsAnchor(s, Anchor(s.visibleTree.value, s.focused))
  {
    LeafSetIsLeaves(s.visibleTree.value);
  }

  /** An active surface takes the place of the focused one, which stays active, and gets the focus. */
  lemma ReplaceMoves(s: WorkspaceState, id: string, leafId: string, now: real, w: real, h: real) returns (a: string)
    requires Inv(s) && MayReplace(s, id)
    ensures s.visibleTree.Some? ==> IsAnchor(s, a)
    ensures var t := ReplaceFocusedSurface(s, id, leafId, now);
            if id !in s.active then t == s
            else
              && Focused(s, t, id, now) && SameHistory(s, t)
              && BoxesOf(t.visibleTree, w, h) ==
                 if s.visibleTree.None? then [Box(id, w, h)] else Renamed(BoxesOf(s.visibleTree, w, h), a, id)
  {
    a := "";
    if s.visibleTree.Some? {
      a := Anchor(s.visibleTree.value, s.focused);
      AnchorIs(s);
      UpdateLeafBoxes(s.visibleTree.value, a, id, w, h);
      UpdateLeafLaws(s.visibleTree.value, a, id);
    }
  }

  /**
   * An active surface gets half of the focused one's box, behind it, and the focus. (Where the anchor has no name,
   * nothing happens.)
   */
  lemma SplitMoves(s: WorkspaceState, id: string, d: SplitDirection, leafId: string, splitId: string, now: real,
      w: real, h: real) returns (a: string)
    requires Inv(s) && MaySplit(s, id)
    ensures s.visibleTree.Some? ==> IsAnchor(s, a)
    ensures var t := SplitFocusedSurface(s, id, d, leafId, splitId, now);
            if id !in s.active || (s.visibleTree.Some? && a == "") then t == s
            else
              && Focused(s, t, id, now) && SameHistory(s, t)
              && BoxesOf(t.visibleTree, w, h) ==
                 if s.visibleTree.None? then [Box(id, w, h)] else Halved(BoxesOf(s.visibleTree, w, h), a, d, id)
  {
    a := "";
    if s.visibleTree.Some? {
      a := Anchor(s.visibleTree.value, s.focused);
      AnchorIs(s);
      SplitLeafBoxes(s.visibleTree.value, a, d, leafId, id, splitId, w, h);
      SplitLeafLaws(s.visibleTree.value, a, d, LeafNode(leafId, id), splitId);
    }
  }

  lemma FirstLeafLeft(t: TreeNode, id: string)
    ensures FirstVisible(RemoveFromTree(t, id)) == FirstOf(Others(Leaves(t), id))
  {
    RemoveLeaves(t, id);
  }

  /** A visible surface leaves the screen and stays active; a focus elsewhere stays where it is. */
  lemma RemoveMoves(s: WorkspaceState, id: string)
    requires Inv(s)
    ensures var t := RemoveSurfaceFromLayout(s, id);
            var left := Others(LeavesOf(s.visibleTree), id);
            if id !in LeavesOf(s.visibleTree) then t == s
            else
              && LeavesOf(t.visibleTree) == left
              && t.focused == (if s.focused.value in left then s.focused else FirstOf(left))
              && t.active == s.active && SameHistory(s, t)
  {
    if s.visibleTree.Some? {
      var tree := s.visibleTree.value;
      LeafSetIsLeaves(tree);
      RemoveLeaves(tree, id);
      FirstLeafLeft(tree, id);
      if RemoveFromTree(tree, id).Some? {
        LeafSetIsLeaves(RemoveFromTree(tree, id).value);
      }
    }
  }

  /** An active surface leaves the screen and the registry and comes in front of the history. */
  lemma CloseMoves(s: WorkspaceState, id: string, now: real)
    requires Inv(s)
    ensures var t := CloseSurface(s, id, now);
            var left := Others(LeavesOf(s.visibleTree), id);
            if id !in s.active then t == s
            else
              && LeavesOf(t.visibleTree) == left && t.focused == FirstOf(left)
              && t.active == s.active - {id}
              && t.history == [ClosedSurface(s.active[id], now)] + s.history
              && t.stashedGroups == s.stashedGroups
  {
    FindClosedMeaning(s.history, id);
    if s.visibleTree.Some? {
      RemoveLeaves(s.visibleTree.value, id);
      FirstLeafLeft(s.visibleTree.value, id);
    }
  }

  /** A closed surface is active again as it was, and the screen stays as it is. */
  lemma ReopenMoves(s: WorkspaceState, id: string)
    requires Inv(s)
    ensures var t := ReopenSurface(s, id);
            if id !in HistoryIds(s.history) then t == s
            else
              && (exists k: nat :: TakenOut(s.history, t.history, id, k)
                   && t.active == s.active[id := s.history[k].record])
              && t.visibleTree == s.visibleTree && t.focused == s.focused && t.stashedGroups == s.stashedGroups
  {
    FindClosedMeaning(s.history, id);
    if id in HistoryIds(s.history) {
      var k := TakenOutAt(s.history, id);
    }
  }

  /** A closed surface is gone for good. */
  lemma DeleteMoves(s: WorkspaceState, id: string)
    requires Inv(s)
    ensures var t := DeleteSurfaceFromHistory(s, id);
            && (if id in HistoryIds(s.history) then exists k: nat :: TakenOut(s.history, t.history, id, k)
                else t.history == s.history)
            && t.active == s.active && t.visibleTree == s.visibleTree && t.focused == s.focused
            && t.stashedGroups == s.stashedGroups
  {
    if id in HistoryIds(s.history) {
      var k := TakenOutAt(s.history, id);
      assert TakenOut(s.history, DeleteSurfaceFromHistory(s, id).history, id, k);
    } else {
      NoneTakenOut(s.history, id);
    }
  }

  /** The entry at k, which is the surface's, is taken out of the history. */
  ghost predicate TakenOut(h: seq<ClosedSurface>, h': seq<ClosedSurface>, id: string, k: nat) {
    k < |h| && h[k].record.id == id && h' == h[..k] + h[k + 1..]
  }

  lemma {:induction false} NoneTakenOut(h: seq<ClosedSurface>, id: string)
    requires id !in HistoryIds(h)
    ensures WithoutClosed(h, id) == h
  {
    if h != [] {
      NoneTakenOut(h[1..], id);
    }
  }

  lemma {:induction false} TakenOutAt(h: seq<ClosedSurface>, id: string) returns (k: nat)
    requires DistinctHistory(h) && id in HistoryIds(h)
    ensures TakenOut(h, WithoutClosed(h, id), id, k) && FindClosed(h, id) == Some(h[k])
  {
    if h[0].record.id == id {
      NoneTakenOut(h[1..], id);
      k := 0;
      assert h[..k] + h[k + 1..] == h[1..];
    } else {
      var j := TakenOutAt(h[1..], id);
      k := j + 1;
      assert h[..k] + h[k + 1..] == [h[0]] + (h[1..][..k - 1] + h[1..][k..]);
    }
  }
}
