/**
 * What the workspace operations keep: the invariant over whole runs, and who every surface is. The two
 * operations that can break the invariant get the exact condition under which they keep it.
 */
module WorkspaceRuns {
  import opened Prelude
  import opened Workspace

  // ----- The invariant -----

  function HistoryIds(h: seq<ClosedSurface>): set<string> {
    if h == [] then {} else {h[0].record.id} + HistoryIds(h[1..])
  }

  predicate DistinctHistory(h: seq<ClosedSurface>) {
    h == [] || (h[0].record.id !in HistoryIds(h[1..]) && DistinctHistory(h[1..]))
  }

  ghost predicate KeysAreIds(active: map<string, SurfaceRecord>) {
    forall k :: k in active ==> active[k].id == k
  }

  /** Ratios may lie outside [MIN_RATIO, MAX_RATIO] by the tolerance below which they are not repaired. */
  ghost predicate ValidTree(t: TreeNode, active: set<string>) {
    UniqueLeaves(t) && LeafSet(t) <= active && RatiosWithin(t, MIN_RATIO - RATIO_EPSILON, MAX_RATIO + RATIO_EPSILON)
  }

  ghost predicate FocusVisible(tree: Option<TreeNode>, focused: Option<string>) {
    if tree.None? then focused.None? else focused.Some? && focused.value in LeafSet(tree.value)
  }

  ghost predicate Inv(s: WorkspaceState) {
    && KeysAreIds(s.active)
    && (s.visibleTree.Some? ==> ValidTree(s.visibleTree.value, s.active.Keys))
    && DistinctHistory(s.history) && HistoryIds(s.history) !! s.active.Keys
    && FocusVisible(s.visibleTree, s.focused)
  }

  // ----- Tree edits -----

  lemma {:induction false} UpdateLeafAbsent(t: TreeNode, a: string, b: string)
    requires a !in LeafSet(t)
    ensures UpdateLeafSurface(t, a, b) == t
  {
    if t.SplitNode? {
      UpdateLeafAbsent(t.first, a, b);
      UpdateLeafAbsent(t.second, a, b);
    }
  }

  /** Exchanging a leaf's surface keeps leaves unique exactly when the newcomer was not visible. */
  lemma {:induction false} UpdateLeafLaws(t: TreeNode, a: string, b: string)
    requires UniqueLeaves(t) && a in LeafSet(t)
    ensures var r := UpdateLeafSurface(t, a, b);
            && LeafSet(r) == LeafSet(t) - {a} + {b}
            && (UniqueLeaves(r) <==> b !in LeafSet(t) || b == a)
            && (forall lo, hi :: RatiosWithin(r, lo, hi) == RatiosWithin(t, lo, hi))
  {
    if t.SplitNode? {
      if a in LeafSet(t.first) {
        UpdateLeafLaws(t.first, a, b);
        UpdateLeafAbsent(t.second, a, b);
      } else {
        UpdateLeafLaws(t.second, a, b);
        UpdateLeafAbsent(t.first, a, b);
      }
    }
  }

  lemma {:induction false} SplitLeafAbsent(t: TreeNode, a: string, d: SplitDirection, newLeaf: TreeNode,
      splitId: string)
    requires a !in LeafSet(t)
    ensures ReplaceLeafWithSplit(t, a, d, newLeaf, splitId) == t
  {
    if t.SplitNode? {
      SplitLeafAbsent(t.first, a, d, newLeaf, splitId);
      SplitLeafAbsent(t.second, a, d, newLeaf, splitId);
    }
  }

  lemma {:induction false} SplitLeafLaws(t: TreeNode, a: string, d: SplitDirection, newLeaf: TreeNode, splitId: string)
    requires UniqueLeaves(t) && a in LeafSet(t) && newLeaf.LeafNode?
    ensures var r := ReplaceLeafWithSplit(t, a, d, newLeaf, splitId);
            && LeafSet(r) == LeafSet(t) + {newLeaf.surfaceId}
            && (UniqueLeaves(r) <==> newLeaf.surfaceId !in LeafSet(t))
            && (forall lo, hi :: lo <= 0.5 <= hi ==> RatiosWithin(r, lo, hi) == RatiosWithin(t, lo, hi))
  {
    if t.SplitNode? {
      if a in LeafSet(t.first) {
        SplitLeafLaws(t.first, a, d, newLeaf, splitId);
        SplitLeafAbsent(t.second, a, d, newLeaf, splitId);
      } else {
        SplitLeafLaws(t.second, a, d, newLeaf, splitId);
        SplitLeafAbsent(t.first, a, d, newLeaf, splitId);
      }
    }
  }

  lemma {:induction false} RemoveAbsent(t: TreeNode, s: string)
    requires s !in LeafSet(t)
    ensures RemoveFromTree(t, s) == Some(t)
  {
    if t.SplitNode? {
      RemoveAbsent(t.first, s);
      RemoveAbsent(t.second, s);
    }
  }

  lemma {:induction false} RemoveLaws(t: TreeNode, s: string)
    requires UniqueLeaves(t)
    ensures var r := RemoveFromTree(t, s);
            && VisibleSet(r) == LeafSet(t) - {s}
            && (r.Some? ==> UniqueLeaves(r.value)
                            && forall lo, hi :: RatiosWithin(t, lo, hi) ==> RatiosWithin(r.value, lo, hi))
  {
    if t.SplitNode? {
      RemoveLaws(t.first, s);
      RemoveLaws(t.second, s);
    }
  }

  /** Removing a surface that was just split in gives back exactly the old tree, ids and ratios included. */
  lemma {:induction false} RemoveUndoesSplit(t: TreeNode, a: string, d: SplitDirection, leafId: string, s: string,
      splitId: string)
    requires s !in LeafSet(t)
    ensures RemoveFromTree(ReplaceLeafWithSplit(t, a, d, LeafNode(leafId, s), splitId), s) == Some(t)
  {
    if t.SplitNode? {
      RemoveUndoesSplit(t.first, a, d, leafId, s, splitId);
      RemoveUndoesSplit(t.second, a, d, leafId, s, splitId);
    }
  }

  /**
   * At the level of states: when a hidden surface is split in and removed again the layout comes back, the
   * surface counts as focused now, and the focus is on the first leaf, wherever it was before. (The leaf with the
   * empty id is no anchor for a split.)
   */
  lemma RemoveUndoesSplitFocused(s: WorkspaceState, id: string, d: SplitDirection, leafId: string, splitId: string,
      now: real)
    requires Inv(s) && id in s.active && id !in VisibleSet(s.visibleTree)
    ensures var t := RemoveSurfaceFromLayout(SplitFocusedSurface(s, id, d, leafId, splitId, now), id);
            if s.visibleTree.Some? && Anchor(s.visibleTree.value, s.focused) == "" then t == s
            else t == s.(focused := FirstVisible(s.visibleTree),
                         active := s.active[id := s.active[id].(lastFocusedAt := now)])
  {
    if s.visibleTree.Some? {
      var tree := s.visibleTree.value;
      var anchor := Anchor(tree, s.focused);
      SplitLeafLaws(tree, anchor, d, LeafNode(leafId, id), splitId);
      RemoveUndoesSplit(tree, anchor, d, leafId, id, splitId);
    }
  }

  // ----- History -----

  lemma {:induction false} FindClosedMeaning(h: seq<ClosedSurface>, id: string)
    ensures FindClosed(h, id).Some? <==> id in HistoryIds(h)
    ensures FindClosed(h, id).Some? ==> FindClosed(h, id).value.record.id == id
  {
    if h != [] {
      FindClosedMeaning(h[1..], id);
    }
  }

  lemma {:induction false} WithoutClosedLaws(h: seq<ClosedSurface>, id: string)
    ensures HistoryIds(WithoutClosed(h, id)) == HistoryIds(h) - {id}
    ensures DistinctHistory(h) ==> DistinctHistory(WithoutClosed(h, id))
    ensures forall x :: x != id ==> FindClosed(WithoutClosed(h, id), x) == FindClosed(h, x)
  {
    if h != [] {
      WithoutClosedLaws(h[1..], id);
    }
  }

  // ----- Each operation -----

  lemma FocusKeeps(s: WorkspaceState, id: string, now: real)
    requires KeysAreIds(s.active)
    ensures var t := FocusSurface(s, id, now);
            && KeysAreIds(t.active) && t.active.Keys == s.active.Keys
            && t.visibleTree == s.visibleTree && t.history == s.history
            && (id in s.active && id in VisibleSet(s.visibleTree) ==> t.focused == Some(id))
            && (Inv(s) ==> Inv(t))
  {
  }

  lemma CreateKeeps(s: WorkspaceState, id: string, kind: SurfaceKind, resourceId: string, title: Option<string>,
      projectId: string, now: real)
    requires Inv(s) && id !in s.active && id !in HistoryIds(s.history)
    ensures var t := CreateSurface(s, id, kind, resourceId, title, projectId, now);
            && Inv(t) && t.active.Keys == s.active.Keys + {id} && id !in VisibleSet(t.visibleTree)
            && t.active[id] == SurfaceRecord(id, kind, resourceId, title, false, projectId, now, now)
            && t == s.(active := t.active) && forall k :: k in s.active ==> t.active[k] == s.active[k]
  {
  }

  /** When replacing is safe: the surface is not visible, or it is the one being replaced. */
  predicate MayReplace(s: WorkspaceState, id: string) {
    id !in s.active || s.visibleTree.None? || id !in LeafSet(s.visibleTree.value)
    || id == Anchor(s.visibleTree.value, s.focused)
  }

  lemma ReplaceKeepsExactly(s: WorkspaceState, id: string, leafId: string, now: real)
    requires Inv(s)
    ensures Inv(ReplaceFocusedSurface(s, id, leafId, now)) <==> MayReplace(s, id)
  {
    if id in s.active && s.visibleTree.Some? {
      var tree := s.visibleTree.value;
      var anchor := Anchor(tree, s.focused);
      UpdateLeafLaws(tree, anchor, id);
      FocusKeeps(s.(visibleTree := Some(UpdateLeafSurface(tree, anchor, id))), id, now);
    }
  }

  /** When splitting is safe: the surface is not visible (or nothing happens). */
  predicate MaySplit(s: WorkspaceState, id: string) {
    id !in s.active || s.visibleTree.None? || id !in LeafSet(s.visibleTree.value)
        || Anchor(s.visibleTree.value, s.focused) == ""
  }

  lemma SplitKeepsExactly(s: WorkspaceState, id: string, d: SplitDirection, leafId: string, splitId: string, now: real)
    requires Inv(s)
    ensures Inv(SplitFocusedSurface(s, id, d, leafId, splitId, now)) <==> MaySplit(s, id)
  {
    if id in s.active && s.visibleTree.Some? {
      var tree := s.visibleTree.value;
      var anchor := Anchor(tree, s.focused);
      if anchor != "" {
        SplitLeafLaws(tree, anchor, d, LeafNode(leafId, id), splitId);
        FocusKeeps(s.(visibleTree := Some(ReplaceLeafWithSplit(tree, anchor, d, LeafNode(leafId, id), splitId))), id,
            now);
      }
    }
  }

  lemma RemoveKeeps(s: WorkspaceState, id: string)
    requires Inv(s)
    ensures Inv(RemoveSurfaceFromLayout(s, id))
    ensures VisibleSet(RemoveSurfaceFromLayout(s, id).visibleTree) == VisibleSet(s.visibleTree) - {id}
  {
    if s.visibleTree.Some? {
      RemoveLaws(s.visibleTree.value, id);
    }
  }

  lemma CloseKeeps(s: WorkspaceState, id: string, now: real)
    requires Inv(s)
    ensures Inv(CloseSurface(s, id, now))
    ensures id in s.active ==>
              FindClosed(CloseSurface(s, id, now).history, id) == Some(ClosedSurface(s.active[id], now))
  {
    FindClosedMeaning(s.history, id);
    if id in s.active {
      var t := CloseSurface(s, id, now);
      assert t.history[1..] == s.history;
      if s.visibleTree.Some? {
        RemoveLaws(s.visibleTree.value, id);
      }
    }
  }

  lemma ReopenKeeps(s: WorkspaceState, id: string)
    requires Inv(s)
    ensures Inv(ReopenSurface(s, id)) && ReopenSurface(s, id).visibleTree == s.visibleTree
  {
    FindClosedMeaning(s.history, id);
    WithoutClosedLaws(s.history, id);
  }

  lemma DeleteKeeps(s: WorkspaceState, id: string)
    requires Inv(s)
    ensures Inv(DeleteSurfaceFromHistory(s, id))
  {
    WithoutClosedLaws(s.history, id);
  }

  lemma ResizeKeeps(s: WorkspaceState, id: string, deltaPx: real, viewport: real)
    requires Inv(s)
    ensures var t := ResizeSplitByPixels(s, id, deltaPx, viewport);
            && Inv(t) && LeavesOf(t.visibleTree) == LeavesOf(s.visibleTree) && t == s.(visibleTree := t.visibleTree)
  {
    if s.visibleTree.Some? && viewport > 0.0 && deltaPx != 0.0 {
      var tree := s.visibleTree.value;
      var path := ResizeExactly(tree, id, deltaPx, viewport);
      var node := At(tree, path);
      if node.Some? && node.value.SplitNode? {
        WithRatioKeeps(tree, path, ClampRatio(node.value.ratio + deltaPx / viewport));
      }
    }
  }

  // ----- Runs -----

  datatype Op =
    | Create(id: string, kind: SurfaceKind, resourceId: string, title: Option<string>, projectId: string)
    | Focus(id: string)
    | Replace(id: string, leafId: string)
    | SplitIn(id: string, direction: SplitDirection, leafId: string, splitId: string)
    | Remove(id: string)
    | Close(id: string)
    | Reopen(id: string)
    | Delete(id: string)
    | Drag(id: string, deltaPx: real, viewport: real)

  function Apply(s: WorkspaceState, op: Op, now: real): WorkspaceState {
    match op
    case Create(id, kind, resourceId, title, projectId) => CreateSurface(s, id, kind, resourceId, title, projectId, now)
    case Focus(id) => FocusSurface(s, id, now)
    case Replace(id, leafId) => ReplaceFocusedSurface(s, id, leafId, now)
    case SplitIn(id, d, leafId, splitId) => SplitFocusedSurface(s, id, d, leafId, splitId, now)
    case Remove(id) => RemoveSurfaceFromLayout(s, id)
    case Close(id) => CloseSurface(s, id, now)
    case Reopen(id) => ReopenSurface(s, id)
    case Delete(id) => DeleteSurfaceFromHistory(s, id)
    case Drag(id, deltaPx, viewport) => ResizeSplitByPixels(s, id, deltaPx, viewport)
  }

  /** Created ids are fresh; a surface is not placed twice. Everything else may happen at any time. */
  predicate Allowed(s: WorkspaceState, op: Op) {
    match op
    case Create(id, _, _, _, _) => id !in s.active && id !in HistoryIds(s.history)
    case Replace(id, _) => MayReplace(s, id)
    case SplitIn(id, _, _, _) => MaySplit(s, id)
    case _ => true
  }

  lemma StepKeeps(s: WorkspaceState, op: Op, now: real)
    requires Inv(s) && Allowed(s, op)
    ensures Inv(Apply(s, op, now))
  {
    match op
    case Create(id, kind, resourceId, title, projectId) => CreateKeeps(s, id, kind, resourceId, title, projectId, now);
    case Focus(id) => FocusKeeps(s, id, now);
    case Replace(id, leafId) => ReplaceKeepsExactly(s, id, leafId, now);
    case SplitIn(id, d, leafId, splitId) => SplitKeepsExactly(s, id, d, leafId, splitId, now);
    case Remove(id) => RemoveKeeps(s, id);
    case Close(id) => CloseKeeps(s, id, now);
    case Reopen(id) => ReopenKeeps(s, id);
    case Delete(id) => DeleteKeeps(s, id);
    case Drag(id, deltaPx, viewport) => ResizeKeeps(s, id, deltaPx, viewport);
  }

  /** A step and the clock reading at which it happens. */
  datatype Step = Step(op: Op, now: real)

  function Run(s: WorkspaceState, steps: seq<Step>): WorkspaceState
    decreases steps
  {
    if steps == [] then s else Run(Apply(s, steps[0].op, steps[0].now), steps[1..])
  }

  predicate AllowedRun(s: WorkspaceState, steps: seq<Step>)
    decreases steps
  {
    steps == [] || (Allowed(s, steps[0].op) && AllowedRun(Apply(s, steps[0].op, steps[0].now), steps[1..]))
  }

  lemma {:induction false} RunKeeps(s: WorkspaceState, steps: seq<Step>)
    requires Inv(s) && AllowedRun(s, steps)
    ensures Inv(Run(s, steps))
    decreases steps
  {
    if steps != [] {
      StepKeeps(s, steps[0].op, steps[0].now);
      RunKeeps(Apply(s, steps[0].op, steps[0].now), steps[1..]);
    }
  }

  // ----- Who is there -----

  /** A surface without its focus time. */
  function Identity(r: SurfaceRecord): SurfaceRecord {
    r.(lastFocusedAt := 0.0)
  }

  /** The surface with this id, active or closed. */
  function Known(s: WorkspaceState, id: string): Option<SurfaceRecord> {
    if id in s.active then Some(Identity(s.active[id]))
    else
      var c := FindClosed(s.history, id);
      if c.Some? then Some(Identity(c.value.record)) else None
  }

  /** Only creating and deleting change which surfaces exist; nothing else touches any surface's identity. */
  lemma StepKnows(s: WorkspaceState, op: Op, now: real, x: string)
    requires Inv(s) && Allowed(s, op)
    ensures var t := Apply(s, op, now);
            match op
            case Create(id, kind, resourceId, title, projectId) =>
              Known(t, x) == if x != id then Known(s, x)
                             else Some(SurfaceRecord(id, kind, resourceId, title, false, projectId, now, 0.0))
            case Delete(id) => Known(t, x) == if x == id && x !in s.active then None else Known(s, x)
            case _ => Known(t, x) == Known(s, x)
  {
    match op
    case Close(id) =>
      FindClosedMeaning(s.history, x);
      FindClosedMeaning(s.history, id);
      if id in s.active {
        assert CloseSurface(s, id, now).history[1..] == s.history;
      }
    case Reopen(id) =>
      FindClosedMeaning(s.history, id);
      WithoutClosedLaws(s.history, id);
    case Delete(id) =>
      WithoutClosedLaws(s.history, id);
      FindClosedMeaning(WithoutClosed(s.history, id), x);
    case _ =>
  }

  predicate ChangesExistence(op: Op) {
    op.Create? || op.Delete?
  }

  /** Over any run without creating or deleting, every surface is still there and still the same surface. */
  lemma {:induction false} RunKnows(s: WorkspaceState, steps: seq<Step>, x: string)
    requires Inv(s) && AllowedRun(s, steps) && forall i :: 0 <= i < |steps| ==> !ChangesExistence(steps[i].op)
    ensures Known(Run(s, steps), x) == Known(s, x)
    decreases steps
  {
    if steps != [] {
      assert !ChangesExistence(steps[0].op);
      StepKeeps(s, steps[0].op, steps[0].now);
      StepKnows(s, steps[0].op, steps[0].now, x);
      RunKnows(Apply(s, steps[0].op, steps[0].now), steps[1..], x);
    }
  }
}
