/**
 * Where each operation of the grid (src/lib/panelGrid.ts) takes its panel: the region it leaves, the region it
 * enters and at which end, the new focus, and what stays as it was.
 */
module GridMoves {
  import opened Prelude
  import opened Panels
  import opened SplitTree
  import opened PanelGrid
  import opened GridRuns

  // ----- Out of the visible tree -----

  /** A visible panel leaves the on-screen order, and the first panel left gets the focus. */
  ghost predicate TakenFromTree(s: GridState, t: GridState, id: string) {
    Shown(t.root) == Without(Shown(s.root), id) && t.activePanelId == FirstId(Shown(t.root))
  }

  lemma RemovedFromTree(s: GridState, id: string)
    requires Inv(s)
    ensures Shown(RemoveFromRoot(s.root, id)) == Without(Shown(s.root), id)
    ensures FindInRoot(s.root, id) == Find(Shown(s.root), id)
    ensures HasId(Shown(s.root), id) ==> !HasId(s.hidden, id) && !HasId(s.closed, id)
  {
    RemoveFromRootLeafOrder(s.root, id);
    FindInRootIsFind(s.root, id);
    assert Count(s, id) <= 1;
  }

  /** Hiding puts a visible panel in front of the hidden ones, and does nothing to any other. */
  lemma HideMoves(s: GridState, id: string)
    requires Inv(s)
    ensures var t := HidePanel(s, id);
            if !HasId(Shown(s.root), id) then t == s
            else
              && TakenFromTree(s, t, id)
              && t.hidden == [Find(Shown(s.root), id).value] + s.hidden
              && t.stashed == s.stashed && t.closed == s.closed
  {
    RemovedFromTree(s, id);
    WithoutIfAbsent(s.hidden, id);
  }

  lemma WithoutIfAbsent(ps: seq<Panel>, id: string)
    ensures !HasId(ps, id) ==> Without(ps, id) == ps
  {
    if !HasId(ps, id) {
      WithoutAbsent(ps, id);
    }
  }

  /** Closing puts a visible or hidden panel in front of the history. */
  lemma CloseMoves(s: GridState, id: string)
    requires Inv(s)
    ensures var t := ClosePanel(s, id);
            if HasId(Shown(s.root), id) then
              && TakenFromTree(s, t, id)
              && t.closed == [Find(Shown(s.root), id).value] + s.closed
              && t.hidden == s.hidden && t.stashed == s.stashed
            else t == CloseHiddenPanel(s, id)
  {
    RemovedFromTree(s, id);
  }

  lemma CloseHiddenMoves(s: GridState, id: string)
    requires Inv(s)
    ensures var t := CloseHiddenPanel(s, id);
            if !HasId(s.hidden, id) then t == s
            else
              && t.hidden == Without(s.hidden, id)
              && t.closed == [Find(s.hidden, id).value] + s.closed
              && t.root == s.root && t.activePanelId == s.activePanelId && t.stashed == s.stashed
  {
    assert Count(s, id) <= 1;
  }

  /** Reopening as hidden puts a closed panel in front of the hidden ones and leaves the layout alone. */
  lemma ReopenHiddenMoves(s: GridState, id: string)
    requires Inv(s)
    ensures var t := ReopenPanelHidden(s, id);
            if !HasId(s.closed, id) then t == s
            else
              && t.closed == Without(s.closed, id)
              && t.hidden == [Find(s.closed, id).value] + s.hidden
              && t.root == s.root && t.activePanelId == s.activePanelId && t.stashed == s.stashed
  {
    assert Count(s, id) <= 1;
    WithoutIfAbsent(s.hidden, id);
  }

  /** Removing from the grid does the same without keeping the panel. */
  lemma RemoveMoves(s: GridState, id: string)
    requires Inv(s)
    ensures var t := RemovePanelFromGrid(s, id);
            if !HasId(Shown(s.root), id) then t == s
            else TakenFromTree(s, t, id) && t.hidden == s.hidden && t.stashed == s.stashed && t.closed == s.closed
  {
    RemovedFromTree(s, id);
  }

  /** Deleting takes one panel out of the history and leaves the others in their order. */
  lemma DeleteMoves(s: GridState, id: string) returns (a: seq<Panel>, p: Panel, b: seq<Panel>)
    requires Inv(s) && HasId(s.closed, id)
    ensures s.closed == a + [p] + b && p.id == id
    ensures DeletePanelFromHistory(s, id) == s.(closed := a + b)
  {
    a, p, b := SplitAtId(s.closed, id);
    assert Count(s, id) <= 1;
    WithoutMiddle(a, p, b);
  }

  // ----- Into the visible tree -----

  /** A tree without its panels: the splits, their directions and sizes. */
  function Skeleton(n: Node): Node
    decreases n
  {
    match n
    case Leaf(p) => Leaf(Panel("", File, "", None, None, None, 0.0, None, None, None))
    case Split(d, cs, sizes) => Split(d, Skeletons(cs), sizes)
  }

  function Skeletons(ns: seq<Node>): seq<Node>
    decreases ns
  {
    if ns == [] then [] else [Skeleton(ns[0])] + Skeletons(ns[1..])
  }

  lemma {:induction false} ReplaceKeepsSkeleton(n: Node, id: string, p: Panel)
    ensures Skeleton(ReplacePanelLeaf(n, id, p)) == Skeleton(n)
    decreases n
  {
    if n.Split? {
      ReplaceInKeepsSkeleton(n.children, id, p);
    }
  }

  lemma {:induction false} ReplaceInKeepsSkeleton(ns: seq<Node>, id: string, p: Panel)
    ensures Skeletons(ReplacePanelLeafIn(ns, id, p)) == Skeletons(ns)
    decreases ns
  {
    if ns != [] {
      ReplaceKeepsSkeleton(ns[0], id, p);
      ReplaceInKeepsSkeleton(ns[1..], id, p);
    }
  }

  /** A hidden panel becomes visible and gets the focus. */
  ghost predicate BroughtIn(s: GridState, t: GridState, id: string) {
    t.activePanelId == Some(id) && t.closed == s.closed && t.stashed == s.stashed
  }

  /**
   * Showing a hidden panel in the focused place: it takes exactly the place of the focused panel, in the same
   * splits, and that one goes in front of the hidden panels; on an empty grid it is shown alone.
   */
  lemma ReplaceFocusedMoves(s: GridState, id: string)
    requires Inv(s)
    ensures var t := ReplaceFocusedWithHidden(s, id);
            if !HasId(s.hidden, id) then t == s
            else
              var incoming := Find(s.hidden, id).value;
              && BroughtIn(s, t, id) && t.root.Some?
              && (s.root.None? ==> t.root.value == Leaf(incoming) && t.hidden == Without(s.hidden, id))
              && (s.root.Some? ==>
                    var focused := s.activePanelId.value;
                    && Shown(t.root) == Substitute(Shown(s.root), focused, Only(incoming))
                    && Skeleton(t.root.value) == Skeleton(s.root.value)
                    && HasId(Shown(s.root), focused)
                    && t.hidden == [Find(Shown(s.root), focused).value] + Without(s.hidden, id))
  {
    if HasId(s.hidden, id) && s.root.Some? {
      SwapFocusedShape(s, id);
      var tree, focused := s.root.value, s.activePanelId.value;
      ReplaceLeafFlatten(tree, focused, Find(s.hidden, id).value);
      ReplaceKeepsSkeleton(tree, focused, Find(s.hidden, id).value);
    }
  }

  /** Linking puts a hidden panel beside the visible target. */
  lemma LinkMoves(s: GridState, id: string, targetId: string, side: DropSide)
    requires Inv(s)
    ensures var t := LinkHiddenPanel(s, id, targetId, side);
            if !HasId(s.hidden, id) || !HasId(Shown(s.root), targetId) then t == s
            else
              && BroughtIn(s, t, id) && t.hidden == Without(s.hidden, id)
              && t.root == Some(SplitPanelAt(s.root, targetId, Find(s.hidden, id).value, side))
              && Shown(t.root) == InsertBeside(Shown(s.root), targetId, Find(s.hidden, id).value, side)
  {
    FindInRootIsFind(s.root, targetId);
    if HasId(s.hidden, id) && HasId(Shown(s.root), targetId) {
      InvIdsUnique(s);
      SplitPanelAtLeafOrder(s.root.value, targetId, Find(s.hidden, id).value, side);
    }
  }

  /**
   * Splitting a hidden panel in puts it to the right of the focused panel or below it; on an empty grid it is shown
   * alone.
   */
  lemma SplitHiddenMoves(s: GridState, id: string, horizontal: bool)
    requires Inv(s)
    ensures var t, side := SplitHiddenPanel(s, id, horizontal), if horizontal then Right else Bottom;
            if s.root.None? then t == ReplaceFocusedWithHidden(s, id)
            else
              && t == LinkHiddenPanel(s, id, s.activePanelId.value, side)
              && HasId(Shown(s.root), s.activePanelId.value)
  {
    if s.root.Some? {
      assert Count(s, "") == 0;
      FindInRootIsFind(s.root, s.activePanelId.value);
    }
  }

  /** An accepted insertion puts the panel beside the requested one, or beside the first one if that is not visible. */
  lemma InsertMoves(s: GridState, panel: Panel, side: DropSide, anchorId: Option<string>)
    requires Inv(s) && InsertPanel(s, panel, side, anchorId).Inserted?
    ensures var t := InsertPanel(s, panel, side, anchorId).state;
            && t == s.(root := t.root, activePanelId := Some(panel.id))
            && (s.root.None? ==> Shown(t.root) == [panel])
            && (s.root.Some? ==>
                  var asked := anchorId.Some? && HasId(Shown(s.root), anchorId.value);
                  var anchor := if asked then anchorId.value else Shown(s.root)[0].id;
                  && Shown(t.root) == InsertBeside(Shown(s.root), anchor, panel, side)
                  && t.root == Some(SplitPanelAt(s.root, anchor, panel, side)))
  {
    if s.root.Some? {
      var anchor := AnchorIsLive(s, anchorId);
      InvIdsUnique(s);
      SplitPanelAtLeafOrder(s.root.value, anchor, panel, side);
      if anchorId.Some? {
        FindInRootIsFind(s.root, anchorId.value);
        assert Count(s, "") == 0;
      }
    }
  }

  /** Reopening puts a closed panel to the right of the focused one. */
  lemma ReopenMoves(s: GridState, id: string)
    requires Inv(s)
    ensures var t := ReopenPanel(s, id);
            if !HasId(s.closed, id) then t == s
            else
              var panel := Find(s.closed, id).value;
              && t.closed == Without(s.closed, id) && t.hidden == s.hidden && t.stashed == s.stashed
              && t.activePanelId == Some(id)
              && Shown(t.root) == (if s.root.None? then [panel]
                                   else InsertBeside(Shown(s.root), s.activePanelId.value, panel, Right))
  {
    ReopenExactly(s, id);
    if HasId(s.closed, id) {
      var panel, without := Find(s.closed, id).value, s.(closed := Without(s.closed, id));
      HistoryTaken(s, id);
      InsertMoves(without, panel, Right, s.activePanelId);
    }
  }

  lemma HistoryTaken(s: GridState, id: string)
    requires Inv(s) && HasId(s.closed, id)
    ensures Inv(s.(closed := Without(s.closed, id)))
    ensures Find(s.closed, id).value.id == id
  {
    DeleteTakesOne(s, id);
  }

  // ----- Activation -----

  /**
   * Activating a panel outside the visible tree sets the tree aside: a tree of several panels goes in front of
   * the stashed groups, a single panel in front of the hidden ones. History and the other groups stay in order.
   */
  lemma ActivateMoves(s: GridState, id: string)
    requires Inv(s)
    ensures var t, panels := ActivatePanel(s, id), Shown(s.root);
            && t.closed == s.closed
            && (HasId(panels, id) ==> t == s.(activePanelId := Some(id)))
            && (!HasId(panels, id) && !HasId(FlattenAll(s.stashed), id) && !HasId(s.hidden, id) ==> t == s)
            && (!HasId(panels, id) && HasId(FlattenAll(s.stashed), id) ==>
                  && GroupHolding(s.stashed, id).Some?
                  && var g := GroupHolding(s.stashed, id).value;
                  && g in s.stashed && HasId(Flatten(g), id) && t.root == Some(g) && t.activePanelId == Some(id)
                  && t.stashed == WithoutGroup((if |panels| > 1 then [s.root.value] else []) + s.stashed, g)
                  && t.hidden == (if |panels| == 1 then panels else []) + s.hidden)
            && (!HasId(panels, id) && !HasId(FlattenAll(s.stashed), id) && HasId(s.hidden, id) ==>
                  && t.root == Some(Leaf(Find(s.hidden, id).value)) && t.activePanelId == Some(id)
                  && t.stashed == (if |panels| > 1 then [s.root.value] else []) + s.stashed
                  && t.hidden == (if |panels| == 1 then panels else []) + Without(s.hidden, id))
  {
    FindInRootIsFind(s.root, id);
    if !HasId(Shown(s.root), id) {
      GroupHoldingMeaning(s.stashed, id);
      ParkedRegions(s, id);
    }
  }

  lemma ParkedRegions(s: GridState, id: string)
    requires Inv(s) && !HasId(Shown(s.root), id)
    ensures var (stashed, hidden) := ParkCurrentRoot(s);
            var panels := Shown(s.root);
            && stashed == (if |panels| > 1 then [s.root.value] else []) + s.stashed
            && hidden == (if |panels| == 1 then panels else []) + s.hidden
            && Without(hidden, id) == (if |panels| == 1 then panels else []) + Without(s.hidden, id)
  {
    var panels := Shown(s.root);
    assert [] + s.stashed == s.stashed && [] + s.hidden == s.hidden;
    if s.root.Some? && |panels| == 1 {
      ParkedSolo(s);
      assert panels == [panels[0]];
      WithoutConcat(panels, s.hidden, id);
      WithoutAbsent(panels, id);
    } else {
      assert [] + Without(s.hidden, id) == Without(s.hidden, id);
    }
  }
}
