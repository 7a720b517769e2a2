/**
 * The workspace state (src/lib/workspaceState.ts): a registry of active surfaces, a binary tree of the
 * visible ones, and a history of closed ones, with every operation on them. Fresh ids and clock readings
 * are parameters.
 */
module Workspace {
  import opened Prelude

  const MIN_RATIO := 0.01
  const MAX_RATIO := 0.99
  const RATIO_EPSILON := 0.001

  datatype SurfaceKind = ChatSurface | OmpChat | TerminalSurface

  datatype SurfaceRecord = SurfaceRecord(
    id: string, kind: SurfaceKind, resourceId: string, title: Option<string>, titleLocked: bool,
    projectId: string, createdAt: real, lastFocusedAt: real)

  datatype ClosedSurface = ClosedSurface(record: SurfaceRecord, closedAt: real)

  datatype SplitDirection = Horizontal | Vertical

  datatype TreeNode =
    | LeafNode(id: string, surfaceId: string)
    | SplitNode(id: string, direction: SplitDirection, ratio: real, first: TreeNode, second: TreeNode)

  datatype WorkspaceState = WorkspaceState(
    active: map<string, SurfaceRecord>,
    visibleTree: Option<TreeNode>,
    focused: Option<string>,
    stashedGroups: seq<TreeNode>,
    history: seq<ClosedSurface>)

  function EmptyWorkspace(): WorkspaceState {
    WorkspaceState(map[], None, None, [], [])
  }

  // ----- Tree helpers -----

  /** The surface ids of the leaves, depth first, first child before second. */
  function Leaves(t: TreeNode): (r: seq<string>)
    ensures r != []
  {
    match t
    case LeafNode(_, s) => [s]
    case SplitNode(_, _, _, a, b) => Leaves(a) + Leaves(b)
  }

  function LeavesOf(tree: Option<TreeNode>): seq<string> {
    if tree.None? then [] else Leaves(tree.value)
  }

  function LeafSet(t: TreeNode): set<string> {
    match t
    case LeafNode(_, s) => {s}
    case SplitNode(_, _, _, a, b) => LeafSet(a) + LeafSet(b)
  }

  function VisibleSet(tree: Option<TreeNode>): set<string> {
    if tree.None? then {} else LeafSet(tree.value)
  }

  function FirstLeaf(t: TreeNode): (s: string)
    ensures s in LeafSet(t) && s == Leaves(t)[0]
  {
    match t
    case LeafNode(_, s) => s
    case SplitNode(_, _, _, a, _) => FirstLeaf(a)
  }

  function LastLeaf(t: TreeNode): (s: string)
    ensures s in LeafSet(t)
  {
    match t
    case LeafNode(_, s) => s
    case SplitNode(_, _, _, _, b) => LastLeaf(b)
  }

  function ClampRatio(r: real): real {
    Clamp(r, MIN_RATIO, MAX_RATIO)
  }

  /** No surface has two leaves. */
  predicate UniqueLeaves(t: TreeNode) {
    match t
    case LeafNode(_, _) => true
    case SplitNode(_, _, _, a, b) => UniqueLeaves(a) && UniqueLeaves(b) && LeafSet(a) !! LeafSet(b)
  }

  predicate RatiosWithin(t: TreeNode, lo: real, hi: real) {
    match t
    case LeafNode(_, _) => true
    case SplitNode(_, _, r, a, b) => lo <= r <= hi && RatiosWithin(a, lo, hi) && RatiosWithin(b, lo, hi)
  }

  lemma {:induction false} LeafSetIsLeaves(t: TreeNode)
    ensures forall s :: s in LeafSet(t) <==> s in Leaves(t)
  {
    if t.SplitNode? {
      LeafSetIsLeaves(t.first);
      LeafSetIsLeaves(t.second);
    }
  }

  ghost predicate NoRepeats(xs: seq<string>) {
    forall i, j :: 0 <= i < j < |xs| ==> xs[i] != xs[j]
  }

  lemma NoRepeatsConcat(a: seq<string>, b: seq<string>)
    ensures NoRepeats(a + b) <==> NoRepeats(a) && NoRepeats(b) && forall s :: s in a ==> s !in b
  {
    var ab := a + b;
    if NoRepeats(ab) {
      forall i, j | 0 <= i < j < |b| ensures b[i] != b[j] {
        assert ab[|a| + i] != ab[|a| + j];
      }
      forall i, j | 0 <= i < j < |a| ensures a[i] != a[j] {
        assert ab[i] != ab[j];
      }
      forall s | s in a ensures s !in b {
        var i :| 0 <= i < |a| && a[i] == s;
        forall j | 0 <= j < |b| ensures b[j] != s {
          assert ab[i] != ab[|a| + j];
        }
      }
    }
    if NoRepeats(a) && NoRepeats(b) && forall s :: s in a ==> s !in b {
      forall i, j | 0 <= i < j < |ab| ensures ab[i] != ab[j] {
        if i < |a| <= j {
          assert a[i] in a && b[j - |a|] in b;
        }
      }
    }
  }

  /** On the list of leaves, uniqueness is the usual pairwise statement. */
  lemma {:induction false} UniqueLeavesMeaning(t: TreeNode)
    ensures UniqueLeaves(t) <==> NoRepeats(Leaves(t))
  {
    if t.SplitNode? {
      UniqueLeavesMeaning(t.first);
      UniqueLeavesMeaning(t.second);
      LeafSetIsLeaves(t.first);
      LeafSetIsLeaves(t.second);
      NoRepeatsConcat(Leaves(t.first), Leaves(t.second));
    }
  }

  // ----- Tree mutations -----

  function UpdateLeafSurface(t: TreeNode, old_: string, new_: string): TreeNode {
    match t
    case LeafNode(id, s) => if s == old_ then LeafNode(id, new_) else t
    case SplitNode(_, _, _, a, b) =>
      t.(first := UpdateLeafSurface(a, old_, new_),
         second := UpdateLeafSurface(b, old_, new_))
  }

  function ReplaceLeafWithSplit(t: TreeNode, s: string, direction: SplitDirection, newLeaf: TreeNode,
      splitId: string): TreeNode {
    match t
    case LeafNode(_, s') => if s' == s then SplitNode(splitId, direction, 0.5, t, newLeaf) else t
    case SplitNode(_, _, _, a, b) =>
      t.(first := ReplaceLeafWithSplit(a, s, direction, newLeaf, splitId),
         second := ReplaceLeafWithSplit(b, s, direction, newLeaf, splitId))
  }

  function RemoveFromTree(t: TreeNode, s: string): Option<TreeNode> {
    match t
    case LeafNode(_, s') => if s' == s then None else Some(t)
    case SplitNode(_, _, _, a, b) =>
      var first, second := RemoveFromTree(a, s), RemoveFromTree(b, s);
      if first.None? then second
      else if second.None? then first
      else Some(t.(first := first.value, second := second.value))
  }

  function RemoveVisible(tree: Option<TreeNode>, s: string): Option<TreeNode> {
    if tree.None? then None else RemoveFromTree(tree.value, s)
  }

  // ----- State mutations -----

  predicate Truthy(s: Option<string>) {
    s.Some? && s.value != ""
  }

  /** The focus is a visible surface, the first one if need be, and None exactly when nothing is visible. */
  function RepairFocus(tree: Option<TreeNode>, focused: Option<string>): Option<string> {
    if tree.None? then None
    else if Truthy(focused) && focused.value in LeafSet(tree.value) then focused
    else Some(FirstLeaf(tree.value))
  }

  function CreateSurface(s: WorkspaceState, id: string, kind: SurfaceKind, resourceId: string, title: Option<string>,
                         projectId: string, now: real): WorkspaceState {
    s.(active := s.active[id := SurfaceRecord(id, kind, resourceId, title, false, projectId, now, now)])
  }

  function FocusSurface(s: WorkspaceState, id: string, now: real): WorkspaceState {
    if id !in VisibleSet(s.visibleTree) || id !in s.active then s
    else s.(focused := Some(id), active := s.active[id := s.active[id].(lastFocusedAt := now)])
  }

  /** The focused surface where it is visible, else the first leaf. */
  function Anchor(tree: TreeNode, focused: Option<string>): (r: string)
    ensures r in LeafSet(tree)
  {
    if Truthy(focused) && focused.value in LeafSet(tree) then focused.value else FirstLeaf(tree)
  }

  function ReplaceFocusedSurface(s: WorkspaceState, id: string, leafId: string, now: real): WorkspaceState {
    if id !in s.active then s
    else
      var tree := if s.visibleTree.None? then LeafNode(leafId, id)
                  else UpdateLeafSurface(s.visibleTree.value, Anchor(s.visibleTree.value, s.focused), id);
      FocusSurface(s.(visibleTree := Some(tree)), id, now)
  }

  /** An empty-string first leaf counts as no anchor. */
  function SplitFocusedSurface(s: WorkspaceState, id: string, direction: SplitDirection, leafId: string,
      splitId: string, now: real)
    : WorkspaceState
  {
    if id !in s.active then s
    else if s.visibleTree.None? then FocusSurface(s.(visibleTree := Some(LeafNode(leafId, id))), id, now)
    else
      var tree := s.visibleTree.value;
      var anchor := Anchor(tree, s.focused);
      if anchor == "" then s
      else FocusSurface(s.(visibleTree := Some(ReplaceLeafWithSplit(tree, anchor, direction, LeafNode(leafId, id),
          splitId))), id, now)
  }

  function FirstVisible(tree: Option<TreeNode>): Option<string> {
    if tree.None? then None else Some(FirstLeaf(tree.value))
  }

  function RemoveSurfaceFromLayout(s: WorkspaceState, id: string): WorkspaceState {
    if id !in VisibleSet(s.visibleTree) then s
    else
      var tree := RemoveVisible(s.visibleTree, id);
      var kept := tree.Some? && s.focused.GetOr("") in LeafSet(tree.value);
      s.(visibleTree := tree, focused := if kept then s.focused else FirstVisible(tree))
  }

  function FindClosed(h: seq<ClosedSurface>, id: string): Option<ClosedSurface> {
    if h == [] then None else if h[0].record.id == id then Some(h[0]) else FindClosed(h[1..], id)
  }

  function WithoutClosed(h: seq<ClosedSurface>, id: string): seq<ClosedSurface> {
    if h == [] then []
    else if h[0].record.id == id then WithoutClosed(h[1..], id)
    else [h[0]] + WithoutClosed(h[1..], id)
  }

  function CloseSurface(s: WorkspaceState, id: string, now: real): WorkspaceState {
    if id !in s.active then s
    else
      var tree := RemoveVisible(s.visibleTree, id);
      s.(visibleTree := tree,
         active := s.active - {id},
         history := if FindClosed(s.history, id).Some? then s.history
             else [ClosedSurface(s.active[id], now)] + s.history,
         focused := FirstVisible(tree))
  }

  function ReopenSurface(s: WorkspaceState, id: string): WorkspaceState {
    var entry := FindClosed(s.history, id);
    if entry.None? || id in s.active then s
    else s.(active := s.active[id := entry.value.record], history := WithoutClosed(s.history, id))
  }

  function DeleteSurfaceFromHistory(s: WorkspaceState, id: string): WorkspaceState {
    s.(history := WithoutClosed(s.history, id))
  }

  // ----- Resizing -----

  function Abs(x: real): real {
    if x < 0.0 then -x else x
  }

  /** None when no split has the surface in its first subtree; the node itself when the ratio hardly moves. */
  function ResizeSplitNode(t: TreeNode, s: string, deltaPx: real, viewport: real): Option<TreeNode>
    requires viewport > 0.0
  {
    match t
    case LeafNode(_, _) => None
    case SplitNode(_, _, r, a, b) =>
      if s in LeafSet(a) then
        var ratio := ClampRatio(r + deltaPx / viewport);
        Some(if Abs(ratio - r) < 0.001 then t else t.(ratio := ratio))
      else
        var first := ResizeSplitNode(a, s, deltaPx, viewport);
        if first.Some? && first.value != a then Some(t.(first := first.value))
        else
          var second := ResizeSplitNode(b, s, deltaPx, viewport);
          if second.Some? && second.value != b then Some(t.(second := second.value)) else None
  }

  function ResizeSplitByPixels(s: WorkspaceState, id: string, deltaPx: real, viewport: real): WorkspaceState {
    if s.visibleTree.None? || viewport <= 0.0 || deltaPx == 0.0 then s
    else
      var updated := ResizeSplitNode(s.visibleTree.value, id, deltaPx, viewport);
      if updated.None? then s else s.(visibleTree := updated)
  }

  /** The node reached by a path; `false` goes to the first child, `true` to the second. */
  function At(t: TreeNode, path: seq<bool>): Option<TreeNode>
    decreases path
  {
    if path == [] then Some(t)
    else if t.LeafNode? then None
    else At(if path[0] then t.second else t.first, path[1..])
  }

  predicate HoldsInFirst(t: Option<TreeNode>, s: string) {
    t.Some? && t.value.SplitNode? && s in LeafSet(t.value.first)
  }

  /** The split at the path has the surface in its first subtree, and no split above it does. */
  ghost predicate Outermost(t: TreeNode, path: seq<bool>, s: string) {
    HoldsInFirst(At(t, path), s) && forall k :: 0 <= k < |path| ==> !HoldsInFirst(At(t, path[..k]), s)
  }

  function WithRatio(t: TreeNode, path: seq<bool>, ratio: real): TreeNode
    decreases path
  {
    if t.LeafNode? then t
    else if path == [] then t.(ratio := ratio)
    else if path[0] then t.(second := WithRatio(t.second, path[1..], ratio))
    else t.(first := WithRatio(t.first, path[1..], ratio))
  }

  lemma {:induction false} ResizeAbsent(t: TreeNode, s: string, deltaPx: real, viewport: real)
    requires viewport > 0.0 && s !in LeafSet(t)
    ensures ResizeSplitNode(t, s, deltaPx, viewport).None?
  {
    if t.SplitNode? {
      ResizeAbsent(t.first, s, deltaPx, viewport);
      ResizeAbsent(t.second, s, deltaPx, viewport);
    }
  }

  lemma OutermostBelow(t: TreeNode, path: seq<bool>, s: string)
    requires t.SplitNode? && s !in LeafSet(t.first)
    ensures Outermost(t, [true] + path, s) <==> Outermost(t.second, path, s)
  {
    var below := [true] + path;
    assert below[1..] == path && At(t, below) == At(t.second, path);
    assert At(t, below[..0]) == Some(t);
    forall k | 0 <= k < |path| ensures At(t, below[..k + 1]) == At(t.second, path[..k]) {
      assert below[..k + 1][1..] == path[..k];
    }
    if Outermost(t, below, s) {
      forall k | 0 <= k < |path| ensures !HoldsInFirst(At(t.second, path[..k]), s) {
        assert !HoldsInFirst(At(t, below[..k + 1]), s);
      }
    }
    if Outermost(t.second, path, s) {
      forall k | 0 <= k < |below| ensures !HoldsInFirst(At(t, below[..k]), s) {
        if k > 0 {
          assert At(t, below[..(k - 1) + 1]) == At(t.second, path[..k - 1]);
        }
      }
    }
  }

  /**
   * Dragging a splitter changes the ratio of at most one split: the outermost one with the surface in its
   * first subtree. There is one exactly when the surface is visible before the last leaf.
   */
  lemma {:induction false} ResizeExactly(t: TreeNode, s: string, deltaPx: real, viewport: real)
      returns (path: seq<bool>)
    requires viewport > 0.0 && UniqueLeaves(t)
    ensures var r := ResizeSplitNode(t, s, deltaPx, viewport);
            if s in LeafSet(t) && s != LastLeaf(t) then
              && Outermost(t, path, s)
              && var ratio := At(t, path).value.ratio;
                 var ratio' := ClampRatio(ratio + deltaPx / viewport);
                 r.GetOr(t) == if Abs(ratio' - ratio) < 0.001 then t else WithRatio(t, path, ratio')
            else r.None?
  {
    path := [];
    if t.SplitNode? {
      if s in LeafSet(t.first) {
        assert s != LastLeaf(t) by {
          assert LastLeaf(t) in LeafSet(t.second);
        }
      } else {
        ResizeAbsent(t.first, s, deltaPx, viewport);
        var below := ResizeExactly(t.second, s, deltaPx, viewport);
        path := [true] + below;
        assert path[1..] == below;
        OutermostBelow(t, below, s);
      }
    }
  }

  lemma {:induction false} WithRatioKeeps(t: TreeNode, path: seq<bool>, ratio: real)
    ensures Leaves(WithRatio(t, path, ratio)) == Leaves(t) && LeafSet(WithRatio(t, path, ratio)) == LeafSet(t)
    ensures UniqueLeaves(WithRatio(t, path, ratio)) == UniqueLeaves(t)
    ensures forall lo, hi ::
              RatiosWithin(t, lo, hi) && lo <= ratio <= hi ==> RatiosWithin(WithRatio(t, path, ratio), lo, hi)
    decreases path
  {
    if t.SplitNode? && path != [] {
      WithRatioKeeps(if path[0] then t.second else t.first, path[1..], ratio);
    }
  }
}
