/**
 * The whole grid: the visible tree, hidden panels, stashed linked groups and closed history, with the
 * operations that move panels between these four regions (src/lib/panelGrid.ts).
 */
module PanelGrid {
  import opened Prelude
  import opened Panels
  import opened SplitTree

  /** An absent `hiddenPanels` or `stashedGroups` field is the empty list, as the accessors read it. */
  datatype GridState = GridState(
    root: Option<Node>,
    activePanelId: Option<string>,
    closed: seq<Panel>,
    hidden: seq<Panel>,
    stashed: seq<Node>)

  datatype InsertResult = Inserted(state: GridState) | Rejected

  function EmptyGrid(): GridState {
    GridState(None, None, [], [], [])
  }

  function FirstId(ps: seq<Panel>): Option<string> {
    if ps == [] then None else Some(ps[0].id)
  }

  /** A string or null as a condition: null and "" are false. */
  predicate Truthy(s: Option<string>) {
    s.Some? && s.value != ""
  }

  // ----- Operations -----

  function ClosePanel(s: GridState, id: string): GridState {
    match FindInRoot(s.root, id)
    case None => CloseHiddenPanel(s, id)
    case Some(panel) =>
      var root := RemoveFromRoot(s.root, id);
      s.(root := root,
         activePanelId := FirstId(Shown(root)),
         closed := if HasId(s.closed, id) then s.closed else [panel] + s.closed)
  }

  function CloseHiddenPanel(s: GridState, id: string): GridState {
    match Find(s.hidden, id)
    case None => s
    case Some(panel) =>
      s.(hidden := Without(s.hidden, id),
         closed := if HasId(s.closed, id) then s.closed else [panel] + s.closed)
  }

  function HidePanel(s: GridState, id: string): GridState {
    match FindInRoot(s.root, id)
    case None => s
    case Some(panel) =>
      var root := RemoveFromRoot(s.root, id);
      s.(root := root,
         activePanelId := FirstId(Shown(root)),
         hidden := [panel] + Without(s.hidden, panel.id))
  }

  function ReplaceFocusedWithHidden(s: GridState, id: string): GridState {
    match Find(s.hidden, id)
    case None => s
    case Some(incoming) =>
      var focusedId := if s.activePanelId.Some? then s.activePanelId else FirstId(Shown(s.root));
      if !Truthy(focusedId) then
        s.(root := Some(Leaf(incoming)), activePanelId := Some(incoming.id), hidden := Without(s.hidden, id))
      else match FindInRoot(s.root, focusedId.value)
        case None => s
        case Some(displaced) =>
          s.(root := Some(ReplacePanelLeaf(s.root.value, focusedId.value, incoming)),
             activePanelId := Some(incoming.id),
             hidden := [displaced] + Without(Without(s.hidden, id), displaced.id))
  }

  /** Sets the visible tree aside: two or more panels as a group, a single panel as a hidden solo. */
  function ParkCurrentRoot(s: GridState): (seq<Node>, seq<Panel>) {
    var panels := Shown(s.root);
    if s.root.None? then (s.stashed, s.hidden)
    else if |panels| > 1 then ([s.root.value] + s.stashed, s.hidden)
    else if |panels| == 1 then (s.stashed, [panels[0]] + Without(s.hidden, panels[0].id))
    else (s.stashed, s.hidden)
  }

  function GroupHolding(groups: seq<Node>, id: string): Option<Node> {
    if groups == [] then None
    else if HasId(Flatten(groups[0]), id) then Some(groups[0])
    else GroupHolding(groups[1..], id)
  }

  function WithoutGroup(groups: seq<Node>, g: Node): seq<Node> {
    if groups == [] then []
    else if groups[0] == g then WithoutGroup(groups[1..], g)
    else [groups[0]] + WithoutGroup(groups[1..], g)
  }

  function ActivatePanel(s: GridState, id: string): GridState {
    if FindInRoot(s.root, id).Some? then s.(activePanelId := Some(id))
    else
      var (stashed, hidden) := ParkCurrentRoot(s);
      var group := GroupHolding(s.stashed, id);
      if group.Some? then
        s.(root := group, activePanelId := Some(id), stashed := WithoutGroup(stashed, group.value), hidden := hidden)
      else match Find(s.hidden, id)
        case None => s
        case Some(solo) =>
          s.(root := Some(Leaf(solo)),
             activePanelId := Some(id),
             stashed := stashed,
             hidden := Without(hidden, solo.id))
  }

  function LinkHiddenPanel(s: GridState, id: string, targetId: string, side: DropSide): GridState {
    var panel := Find(s.hidden, id);
    if panel.None? || FindInRoot(s.root, targetId).None? then s
    else
      s.(root := Some(SplitPanelAt(s.root, targetId, panel.value, side)),
         activePanelId := Some(panel.value.id),
         hidden := Without(s.hidden, id))
  }

  function SplitHiddenPanel(s: GridState, id: string, horizontal: bool): GridState {
    var panel := Find(s.hidden, id);
    if panel.None? then s
    else
      var anchorId := if s.activePanelId.Some? then s.activePanelId else FirstId(Shown(s.root));
      if !Truthy(anchorId) || s.root.None? then ReplaceFocusedWithHidden(s, id)
      else
        s.(root := Some(SplitPanelAt(s.root, anchorId.value, panel.value, if horizontal then Right else Bottom)),
           activePanelId := Some(panel.value.id),
           hidden := Without(s.hidden, id))
  }

  function ReopenPanelHidden(s: GridState, id: string): GridState {
    match Find(s.closed, id)
    case None => s
    case Some(panel) => s.(hidden := [panel] + Without(s.hidden, id), closed := Without(s.closed, id))
  }

  function ResolveAnchor(root: Option<Node>, requested: Option<string>): Option<string> {
    if Truthy(requested) && FindInRoot(root, requested.value).Some? then requested
    else FirstId(Shown(root))
  }

  function InsertPanel(s: GridState, panel: Panel, side: DropSide, anchorId: Option<string>): InsertResult {
    if FindInRoot(s.root, panel.id).Some? || HasId(s.hidden, panel.id) || HasId(s.closed, panel.id) then Rejected
    else if s.root.None? then
      Inserted(s.(root := Some(Leaf(panel)), activePanelId := Some(panel.id)))
    else
      var anchor := ResolveAnchor(s.root, anchorId);
      if !Truthy(anchor) then Rejected
      else
        var root := SplitPanelAt(s.root, anchor.value, panel, side);
        if CountId(Flatten(root), panel.id) != 1 then Rejected
        else Inserted(s.(root := Some(root), activePanelId := Some(panel.id)))
  }

  function ReopenPanelChecked(s: GridState, id: string): InsertResult {
    match Find(s.closed, id)
    case None => Rejected
    case Some(panel) => InsertPanel(s.(closed := Without(s.closed, id)), panel, Right, s.activePanelId)
  }

  function ReopenPanel(s: GridState, id: string): GridState {
    var r := ReopenPanelChecked(s, id);
    if r.Inserted? then r.state else s
  }

  function DeletePanelFromHistory(s: GridState, id: string): GridState {
    s.(closed := Without(s.closed, id))
  }

  function RemovePanelFromGrid(s: GridState, id: string): GridState {
    if FindInRoot(s.root, id).None? then s
    else
      var root := RemoveFromRoot(s.root, id);
      s.(root := root, activePanelId := FirstId(Shown(root)))
  }

  // ----- The invariant -----

  function AllPanels(s: GridState): seq<Panel> {
    Shown(s.root) + s.hidden + FlattenAll(s.stashed) + s.closed
  }

  function Count(s: GridState, id: string): nat {
    CountId(Shown(s.root), id) + CountId(s.hidden, id) + CountId(FlattenAll(s.stashed), id) + CountId(s.closed, id)
  }

  ghost predicate GroupsWellFormed(groups: seq<Node>) {
    forall i :: 0 <= i < |groups| ==> WellFormed(groups[i]) && |Flatten(groups[i])| >= 2
  }

  /** What every operation keeps. */
  ghost predicate Inv(s: GridState) {
    && (forall id :: Count(s, id) <= 1)
    && Count(s, "") == 0
    && (s.root.Some? ==> WellFormed(s.root.value))
    && GroupsWellFormed(s.stashed)
    && ActiveIsLive(s)
  }

  /** The active panel is a visible one, and there is one exactly when something is visible. */
  ghost predicate ActiveIsLive(s: GridState) {
    if s.root.None? then s.activePanelId.None?
    else s.activePanelId.Some? && HasId(Flatten(s.root.value), s.activePanelId.value)
  }

  lemma CountMeaning(s: GridState, id: string)
    ensures Count(s, id) == CountId(AllPanels(s), id)
  {
    CountConcat(Shown(s.root), s.hidden, id);
    CountConcat(Shown(s.root) + s.hidden, FlattenAll(s.stashed), id);
    CountConcat(Shown(s.root) + s.hidden + FlattenAll(s.stashed), s.closed, id);
  }

  /** The invariant's counting clause says that ids are unique over all four regions together. */
  lemma InvIdsUnique(s: GridState)
    requires Inv(s)
    ensures Unique(AllPanels(s))
    ensures Unique(Shown(s.root)) && Unique(s.hidden) && Unique(FlattenAll(s.stashed)) && Unique(s.closed)
  {
    forall id ensures CountId(AllPanels(s), id) <= 1 {
      CountMeaning(s, id);
    }
    forall id ensures CountId(Shown(s.root), id) <= 1 && CountId(s.hidden, id) <= 1
        && CountId(FlattenAll(s.stashed), id) <= 1 && CountId(s.closed, id) <= 1 {
      assert Count(s, id) <= 1;
    }
  }

  /** The multiset of panels over the four regions. */
  function Holding(s: GridState): multiset<Panel> {
    multiset(Shown(s.root)) + multiset(s.hidden) + multiset(FlattenAll(s.stashed)) + multiset(s.closed)
  }

  /** Moving panels between regions cannot create or lose an id. */
  lemma HoldingFixesCount(s: GridState, t: GridState, id: string)
    requires Holding(s) == Holding(t)
    ensures Count(s, id) == Count(t, id)
  {
    CountMeaning(s, id);
    CountMeaning(t, id);
    assert multiset(AllPanels(s)) == Holding(s) && multiset(AllPanels(t)) == Holding(t);
    CountPermutation(AllPanels(s), AllPanels(t), id);
  }

  /** A step that keeps the panels, a well-formed visible tree, the groups and a live focus keeps the invariant. */
  lemma Conserving(s: GridState, t: GridState)
    requires Inv(s) && Holding(t) == Holding(s)
    requires t.root.Some? ==> WellFormed(t.root.value)
    requires GroupsWellFormed(t.stashed) && ActiveIsLive(t)
    ensures Inv(t)
  {
    forall id ensures Count(t, id) == Count(s, id) {
      HoldingFixesCount(s, t, id);
    }
  }

  lemma RemovedRoot(s: GridState, id: string)
    requires Inv(s) && FindInRoot(s.root, id).Some?
    ensures var root, p := RemoveFromRoot(s.root, id), FindInRoot(s.root, id).value;
            && p.id == id && !HasId(s.hidden, id) && !HasId(s.closed, id)
            && multiset(Shown(root)) + multiset{p} == multiset(Shown(s.root))
            && (root.Some? ==> WellFormed(root.value))
            && ActiveIsLive(s.(root := root, activePanelId := FirstId(Shown(root))))
  {
    var root, p := RemoveFromRoot(s.root, id), FindInRoot(s.root, id).value;
    FindInRootIsFind(s.root, id);
    RemoveFromRootLeafOrder(s.root, id);
    assert Count(s, id) <= 1;
    WithoutTakesOne(Shown(s.root), p);
    if root.Some? {
      ShowsSomething(root.value);
      MemberHasId(Flatten(root.value), Flatten(root.value)[0]);
    }
  }

  lemma CloseHiddenConserves(s: GridState, id: string)
    requires Inv(s)
    ensures Holding(CloseHiddenPanel(s, id)) == Holding(s) && Inv(CloseHiddenPanel(s, id))
  {
    var p := Find(s.hidden, id);
    if p.Some? {
      assert Count(s, id) <= 1;
      WithoutTakesOne(s.hidden, p.value);
      Conserving(s, CloseHiddenPanel(s, id));
    }
  }

  lemma CloseConserves(s: GridState, id: string)
    requires Inv(s)
    ensures Holding(ClosePanel(s, id)) == Holding(s) && Inv(ClosePanel(s, id))
  {
    if FindInRoot(s.root, id).None? {
      CloseHiddenConserves(s, id);
    } else {
      RemovedRoot(s, id);
      Conserving(s, ClosePanel(s, id));
    }
  }

  lemma HideConserves(s: GridState, id: string)
    requires Inv(s)
    ensures Holding(HidePanel(s, id)) == Holding(s) && Inv(HidePanel(s, id))
  {
    if FindInRoot(s.root, id).Some? {
      RemovedRoot(s, id);
      WithoutAbsent(s.hidden, id);
      Conserving(s, HidePanel(s, id));
    }
  }

  lemma ReopenHiddenConserves(s: GridState, id: string)
    requires Inv(s)
    ensures Holding(ReopenPanelHidden(s, id)) == Holding(s) && Inv(ReopenPanelHidden(s, id))
  {
    var p := Find(s.closed, id);
    if p.Some? {
      assert Count(s, id) <= 1;
      WithoutTakesOne(s.closed, p.value);
      WithoutAbsent(s.hidden, id);
      Conserving(s, ReopenPanelHidden(s, id));
    }
  }

  /** Deleting from history takes out exactly that panel, for good. */
  lemma DeleteTakesOne(s: GridState, id: string)
    requires Inv(s)
    ensures var t := DeletePanelFromHistory(s, id);
            && Inv(t) && t == s.(closed := t.closed) && !HasId(t.closed, id)
            && Holding(s) == Holding(t) + if HasId(s.closed, id) then multiset{Find(s.closed, id).value} else multiset{}
  {
    var t := DeletePanelFromHistory(s, id);
    forall x ensures Count(t, x) <= Count(s, x) {
      CountWithout(s.closed, id, x);
    }
    CountWithout(s.closed, id, id);
    if HasId(s.closed, id) {
      assert Count(s, id) <= 1;
      WithoutTakesOne(s.closed, Find(s.closed, id).value);
    } else {
      WithoutAbsent(s.closed, id);
    }
  }

  /** Removing from the grid takes out exactly that visible panel and moves the focus to the first one left. */
  lemma RemoveFromGridTakesOne(s: GridState, id: string)
    requires Inv(s)
    ensures var t := RemovePanelFromGrid(s, id);
            && Inv(t) && t == s.(root := t.root, activePanelId := t.activePanelId) && !HasId(Shown(t.root), id)
            && Holding(s) == Holding(t)
                             + if HasId(Shown(s.root), id) then multiset{Find(Shown(s.root), id).value} else multiset{}
  {
    FindInRootIsFind(s.root, id);
    if HasId(Shown(s.root), id) {
      RemovedRoot(s, id);
      RemoveFromRootLeafOrder(s.root, id);
      CountWithout(Shown(s.root), id, id);
      FewerInRoot(s, RemovePanelFromGrid(s, id), id);
    }
  }

  lemma FewerInRoot(s: GridState, t: GridState, id: string)
    requires Inv(s) && t == s.(root := t.root, activePanelId := t.activePanelId)
    requires Shown(t.root) == Without(Shown(s.root), id)
    requires (t.root.Some? ==> WellFormed(t.root.value)) && ActiveIsLive(t)
    ensures Inv(t)
  {
    forall x ensures Count(t, x) <= Count(s, x) {
      CountWithout(Shown(s.root), id, x);
    }
    assert forall x :: Count(t, x) <= Count(s, x) <= 1;
  }

  /** Taking a hidden panel out of the registry. */
  lemma TakenHidden(s: GridState, id: string)
    requires Inv(s) && Find(s.hidden, id).Some?
    ensures var p := Find(s.hidden, id).value;
            && multiset(Without(s.hidden, id)) + multiset{p} == multiset(s.hidden)
            && !HasId(Shown(s.root), id)
  {
    assert Count(s, id) <= 1;
    WithoutTakesOne(s.hidden, Find(s.hidden, id).value);
  }

  lemma {:induction false} SplitAtId(ps: seq<Panel>, id: string) returns (a: seq<Panel>, q: Panel, b: seq<Panel>)
    requires HasId(ps, id)
    ensures ps == a + [q] + b && q.id == id && !HasId(a, id) && Find(ps, id) == Some(q)
  {
    if ps[0].id == id {
      a, q, b := [], ps[0], ps[1..];
    } else {
      a, q, b := SplitAtId(ps[1..], id);
      a := [ps[0]] + a;
    }
  }

  lemma SubstituteSwaps(ps: seq<Panel>, id: string, p: Panel)
    requires HasId(ps, id)
    ensures multiset(Substitute(ps, id, Only(p))) + multiset{Find(ps, id).value} == multiset(ps) + multiset{p}
    ensures HasId(Substitute(ps, id, Only(p)), p.id)
  {
    var a, q, b := SplitAtId(ps, id);
    SubstituteMiddle(a, q, b, Only(p));
    assert Substitute(ps, id, Only(p)) == a + [p] + b;
    CountConcat(a + [p], b, p.id);
    CountConcat(a, [p], p.id);
  }

  lemma SwapInRoot(root: Node, id: string, incoming: Panel)
    requires CountId(Flatten(root), id) == 1
    ensures var r := ReplacePanelLeaf(root, id, incoming);
            && multiset(Flatten(r)) + multiset{Find(Flatten(root), id).value}
                == multiset(Flatten(root)) + multiset{incoming}
            && HasId(Flatten(r), incoming.id)
            && (WellFormed(r) <==> WellFormed(root))
  {
    ReplaceLeafFlatten(root, id, incoming);
    ReplaceLeafWellFormed(root, id, incoming);
    SubstituteSwaps(Flatten(root), id, incoming);
  }

  lemma ReplaceFocusedConserves(s: GridState, id: string)
    requires Inv(s)
    ensures Holding(ReplaceFocusedWithHidden(s, id)) == Holding(s) && Inv(ReplaceFocusedWithHidden(s, id))
  {
    if Find(s.hidden, id).Some? {
      TakenHidden(s, id);
      if s.root.None? {
        Conserving(s, ReplaceFocusedWithHidden(s, id));
      } else {
        SwapFocusedConserves(s, id);
      }
    }
  }

  lemma SwapFocusedShape(s: GridState, id: string)
    requires Inv(s) && Find(s.hidden, id).Some? && s.root.Some?
    ensures var tree, incoming, focused := s.root.value, Find(s.hidden, id).value, s.activePanelId.value;
            && CountId(Flatten(tree), focused) == 1
            && ReplaceFocusedWithHidden(s, id) == s.(
                 root := Some(ReplacePanelLeaf(tree, focused, incoming)),
                 activePanelId := Some(incoming.id),
                 hidden := [Find(Flatten(tree), focused).value] + Without(s.hidden, id))
  {
    var focused := s.activePanelId.value;
    assert Count(s, "") == 0 && Count(s, focused) <= 1;
    FindInRootIsFind(s.root, focused);
    CountWithout(s.hidden, id, focused);
    WithoutAbsent(Without(s.hidden, id), focused);
  }

  lemma SwapFocusedConserves(s: GridState, id: string)
    requires Inv(s) && Find(s.hidden, id).Some? && s.root.Some?
    ensures Holding(ReplaceFocusedWithHidden(s, id)) == Holding(s) && Inv(ReplaceFocusedWithHidden(s, id))
  {
    var tree, incoming, focused := s.root.value, Find(s.hidden, id).value, s.activePanelId.value;
    var t := ReplaceFocusedWithHidden(s, id);
    SwapFocusedShape(s, id);
    TakenHidden(s, id);
    SwapInRoot(tree, focused, incoming);
    assert Holding(t) == Holding(s) by {
      var displaced, w := Find(Flatten(tree), focused).value, Without(s.hidden, id);
      Exchange(multiset(Flatten(t.root.value)), multiset(Flatten(tree)), multiset(w), multiset(s.hidden), displaced,
          incoming);
      assert multiset(t.hidden) == multiset{displaced} + multiset(w);
    }
    Conserving(s, t);
  }

  lemma Exchange(r: multiset<Panel>, root: multiset<Panel>, w: multiset<Panel>, hidden: multiset<Panel>,
      displaced: Panel, incoming: Panel)
    requires r + multiset{displaced} == root + multiset{incoming}
    requires w + multiset{incoming} == hidden
    ensures r + (multiset{displaced} + w) == root + hidden
  {
    assert r + (multiset{displaced} + w) == (r + multiset{displaced}) + w;
    assert root + hidden == (root + multiset{incoming}) + w;
  }

  /** Inserting beside a live panel adds the newcomer to the visible tree and nothing else. */
  lemma SplitIntoRoot(root: Node, targetId: string, p: Panel, side: DropSide)
    requires Unique(Flatten(root)) && WellFormed(root) && HasId(Flatten(root), targetId) && !side.Center?
    ensures var r := SplitPanelAt(Some(root), targetId, p, side);
            WellFormed(r) && HasId(Flatten(r), p.id) && multiset(Flatten(r)) == multiset(Flatten(root)) + multiset{p}
  {
    SplitPanelAtLeafOrder(root, targetId, p, side);
    InsertBesidePermutes(Flatten(root), targetId, p, side);
    assert p in multiset(InsertBeside(Flatten(root), targetId, p, side));
    MemberHasId(InsertBeside(Flatten(root), targetId, p, side), p);
  }

  lemma LinkConserves(s: GridState, id: string, targetId: string, side: DropSide)
    requires Inv(s) && !side.Center?
    ensures Holding(LinkHiddenPanel(s, id, targetId, side)) == Holding(s) && Inv(LinkHiddenPanel(s, id, targetId, side))
  {
    var t := LinkHiddenPanel(s, id, targetId, side);
    if t != s {
      TakenHidden(s, id);
      InvIdsUnique(s);
      FindInRootIsFind(s.root, targetId);
      SplitIntoRoot(s.root.value, targetId, Find(s.hidden, id).value, side);
      Conserving(s, t);
    }
  }

  lemma SplitHiddenConserves(s: GridState, id: string, horizontal: bool)
    requires Inv(s)
    ensures Holding(SplitHiddenPanel(s, id, horizontal)) == Holding(s) && Inv(SplitHiddenPanel(s, id, horizontal))
  {
    if Find(s.hidden, id).Some? {
      if s.root.None? {
        ReplaceFocusedConserves(s, id);
      } else {
        assert Count(s, "") == 0;
        TakenHidden(s, id);
        InvIdsUnique(s);
        var side := if horizontal then Right else Bottom;
        SplitIntoRoot(s.root.value, s.activePanelId.value, Find(s.hidden, id).value, side);
        Conserving(s, SplitHiddenPanel(s, id, horizontal));
      }
    }
  }

  // ----- Checked insertion -----

  /** When insertPanel accepts: the id is new to tree, hidden and history, and the drop is no centre drop. */
  lemma InsertAccepts(s: GridState, panel: Panel, side: DropSide, anchorId: Option<string>)
    requires Inv(s)
    ensures InsertPanel(s, panel, side, anchorId).Inserted? <==>
              && !HasId(Shown(s.root), panel.id) && !HasId(s.hidden, panel.id) && !HasId(s.closed, panel.id)
              && (s.root.None? || !side.Center?)
  {
    FindInRootIsFind(s.root, panel.id);
    if s.root.Some? && !HasId(Shown(s.root), panel.id) {
      var anchor := AnchorIsLive(s, anchorId);
      InvIdsUnique(s);
      InsertedCount(s.root.value, anchor, panel, side);
    }
  }

  /** The tree after an accepted insertion. */
  lemma InsertedTree(s: GridState, panel: Panel, side: DropSide, anchorId: Option<string>) returns (root: Node)
    requires Inv(s) && InsertPanel(s, panel, side, anchorId).Inserted?
    ensures InsertPanel(s, panel, side, anchorId) == Inserted(s.(root := Some(root), activePanelId := Some(panel.id)))
    ensures WellFormed(root) && HasId(Flatten(root), panel.id)
    ensures multiset(Flatten(root)) == multiset(Shown(s.root)) + multiset{panel}
  {
    InsertAccepts(s, panel, side, anchorId);
    if s.root.None? {
      root := Leaf(panel);
      CountOne(panel, panel.id);
    } else {
      var anchor := AnchorIsLive(s, anchorId);
      InvIdsUnique(s);
      root := SplitPanelAt(s.root, anchor, panel, side);
      SplitIntoRoot(s.root.value, anchor, panel, side);
    }
  }

  /**
   * insertPanel accepts a panel exactly when its id is new to the tree, the hidden registry and history and
   * the drop is beside a panel or into an empty grid; then the panel is the one thing that is added.
   */
  lemma InsertPanelExactly(s: GridState, panel: Panel, side: DropSide, anchorId: Option<string>)
    requires Inv(s)
    ensures var r := InsertPanel(s, panel, side, anchorId);
            && (r.Inserted? <==>
                  && !HasId(Shown(s.root), panel.id) && !HasId(s.hidden, panel.id) && !HasId(s.closed, panel.id)
                  && (s.root.None? || !side.Center?))
            && (r.Inserted? ==>
                  && Holding(r.state) == Holding(s) + multiset{panel}
                  && r.state.root.Some? && WellFormed(r.state.root.value)
                  && ActiveIsLive(r.state) && r.state.activePanelId == Some(panel.id)
                  && r.state == s.(root := r.state.root, activePanelId := Some(panel.id)))
  {
    InsertAccepts(s, panel, side, anchorId);
    if InsertPanel(s, panel, side, anchorId).Inserted? {
      var root := InsertedTree(s, panel, side, anchorId);
      HoldingWithRoot(s, s.(root := Some(root), activePanelId := Some(panel.id)), panel);
    }
  }

  lemma HoldingWithRoot(s: GridState, t: GridState, panel: Panel)
    requires t == s.(root := t.root, activePanelId := t.activePanelId)
    requires multiset(Shown(t.root)) == multiset(Shown(s.root)) + multiset{panel}
    ensures Holding(t) == Holding(s) + multiset{panel}
  {
  }

  /** On a non-empty grid the anchor is a visible panel. */
  lemma AnchorIsLive(s: GridState, anchorId: Option<string>) returns (anchor: string)
    requires Inv(s) && s.root.Some?
    ensures ResolveAnchor(s.root, anchorId) == Some(anchor) && anchor != "" && HasId(Flatten(s.root.value), anchor)
  {
    var tree := s.root.value;
    ShowsSomething(tree);
    MemberHasId(Flatten(tree), Flatten(tree)[0]);
    if anchorId.Some? {
      FindInRootIsFind(s.root, anchorId.value);
    }
    assert Count(s, "") == 0;
    anchor := ResolveAnchor(s.root, anchorId).value;
  }

  /** How often the new id shows after the drop: once beside a panel, never as a tab. */
  lemma InsertedCount(root: Node, targetId: string, p: Panel, side: DropSide)
    requires Unique(Flatten(root)) && HasId(Flatten(root), targetId) && !HasId(Flatten(root), p.id)
    ensures CountId(Flatten(SplitPanelAt(Some(root), targetId, p, side)), p.id) == if side.Center? then 0 else 1
  {
    SplitPanelAtLeafOrder(root, targetId, p, side);
    InsertBesideCount(Flatten(root), targetId, p, side, p.id);
  }

  lemma {:induction false} InsertBesideCount(ps: seq<Panel>, targetId: string, p: Panel, side: DropSide, id: string)
    requires HasId(ps, targetId)
    ensures CountId(InsertBeside(ps, targetId, p, side), id)
            == CountId(ps, id) + if !side.Center? && p.id == id then 1 else 0
  {
    var with := Drop(p, side);
    if ps[0].id == targetId {
      CountConcat(with(ps[0]), ps[1..], id);
      if !side.Center? {
        var pair := Beside(ps[0], p, side);
        assert pair == [pair[0]] + [pair[1]];
        CountConcat([pair[0]], [pair[1]], id);
      }
    } else {
      InsertBesideCount(ps[1..], targetId, p, side, id);
      assert InsertBeside(ps, targetId, p, side)[1..] == InsertBeside(ps[1..], targetId, p, side);
    }
  }

  lemma HoldingPlusOne(s: GridState, t: GridState, p: Panel, id: string)
    requires Holding(t) == Holding(s) + multiset{p}
    ensures Count(t, id) == Count(s, id) + if p.id == id then 1 else 0
  {
    var before, after := AllPanels(s) + [p], AllPanels(t);
    CountMeaning(s, id);
    CountMeaning(t, id);
    CountConcat(AllPanels(s), [p], id);
    assert multiset(AllPanels(s)) == Holding(s) && multiset(after) == Holding(t);
    CountPermutation(before, after, id);
  }

  /**
   * insertPanel never looks at the stashed groups: a successful insertion keeps the invariant exactly when
   * the id is not the id of a stashed panel (and is not empty).
   */
  lemma InsertPanelInvariant(s: GridState, panel: Panel, side: DropSide, anchorId: Option<string>)
    requires Inv(s) && InsertPanel(s, panel, side, anchorId).Inserted?
    ensures Inv(InsertPanel(s, panel, side, anchorId).state)
        <==> panel.id != "" && !HasId(FlattenAll(s.stashed), panel.id)
  {
    var t := InsertPanel(s, panel, side, anchorId).state;
    InsertPanelExactly(s, panel, side, anchorId);
    forall id ensures Count(t, id) == Count(s, id) + if id == panel.id then 1 else 0 {
      HoldingPlusOne(s, t, panel, id);
    }
    if Inv(t) {
      assert Count(t, panel.id) <= 1 && Count(t, "") == 0;
    }
  }

  /** reopenPanelChecked succeeds exactly when the panel is in history, and then only moves that panel. */
  lemma ReopenExactly(s: GridState, id: string)
    requires Inv(s)
    ensures ReopenPanelChecked(s, id).Inserted? <==> HasId(s.closed, id)
    ensures Holding(ReopenPanel(s, id)) == Holding(s) && Inv(ReopenPanel(s, id))
    ensures HasId(s.closed, id) ==> ReopenPanel(s, id).activePanelId == Some(id)
  {
    if HasId(s.closed, id) {
      var panel := Find(s.closed, id).value;
      var without := s.(closed := Without(s.closed, id));
      assert Count(s, id) <= 1;
      WithoutTakesOne(s.closed, panel);
      forall x ensures Count(without, x) == if x == id then 0 else Count(s, x) {
        CountWithout(s.closed, id, x);
        assert Count(s, x) <= 1;
      }
      InsertPanelExactly(without, panel, Right, s.activePanelId);
      var t := ReopenPanel(s, id);
      Conserving(s, t);
    }
  }

  /** The failing family of insertions is not empty: the id of a stashed panel is accepted and repeated. */
  lemma InsertCanRepeatStashed(panel: Panel)
    requires panel.id == "b"
    ensures exists s, side, anchorId ::
              Inv(s) && InsertPanel(s, panel, side, anchorId).Inserted?
                  && !Inv(InsertPanel(s, panel, side, anchorId).state)
  {
    var s := StashedPair(panel.(id := "a"), panel, panel.(id := "c"));
    StashedPairInv(panel.(id := "a"), panel, panel.(id := "c"));
    CountOne(panel.(id := "a"), "b");
    CountConcat([panel], [panel.(id := "c")], "b");
    CountOne(panel, "b");
    InsertPanelExactly(s, panel, Right, None);
    InsertPanelInvariant(s, panel, Right, None);
  }

  /** One visible panel and two stashed together. */
  function StashedPair(a: Panel, b: Panel, c: Panel): GridState {
    GridState(Some(Leaf(a)), Some(a.id), [], [], [Split(Row, [Leaf(b), Leaf(c)], [0.5, 0.5])])
  }

  lemma StashedPairInv(a: Panel, b: Panel, c: Panel)
    requires a.id != b.id && a.id != c.id && b.id != c.id && "" !in {a.id, b.id, c.id}
    ensures Inv(StashedPair(a, b, c)) && FlattenAll(StashedPair(a, b, c).stashed) == [b] + [c]
  {
    var s, group, leaves := StashedPair(a, b, c), Split(Row, [Leaf(b), Leaf(c)], [0.5, 0.5]), [Leaf(b), Leaf(c)];
    assert leaves[1..] == [Leaf(c)] && [Leaf(c)][1..] == [];
    assert FlattenAll([Leaf(c)]) == [c] + FlattenAll([]) == [c];
    assert FlattenAll(leaves) == [b] + FlattenAll(leaves[1..]) == [b] + [c];
    assert FlattenAll(s.stashed) == Flatten(group) + FlattenAll(s.stashed[1..]) && s.stashed[1..] == [];
    assert FlattenAll(s.stashed) == [b] + [c] && Shown(s.root) == [a];
    forall id ensures Count(s, id) == (if id == a.id then 1 else 0) + (if id == b.id then 1 else 0)
        + (if id == c.id then 1 else 0) {
      CountConcat([b], [c], id);
      CountOne(a, id);
      CountOne(b, id);
      CountOne(c, id);
    }
    assert WellFormedAll([Leaf(c)][1..]);
    assert WellFormedAll(leaves[1..]);
    assert WellFormed(leaves[0]) && WellFormedAll(leaves);
    CountOne(a, a.id);
  }

  lemma CountOne(p: Panel, id: string)
    ensures CountId([p], id) == if p.id == id then 1 else 0
  {
    assert CountId([p], id) == (if p.id == id then 1 else 0) + CountId([p][1..], id) && [p][1..] == [];
  }
}
