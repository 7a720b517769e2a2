/**
 * Tabs inside panels: tearing a tab off into a panel of its own and closing a tab (src/lib/panelGrid.ts).
 */
module TabOps {
  import opened Prelude
  import opened Panels
  import opened SplitTree
  import opened PanelGrid

  /** `updatePanelInTree` with its patch as a function of the panel. */
  function UpdatePanel(n: Node, id: string, patch: Panel -> Panel): Node
    decreases n
  {
    match n
    case Leaf(p) => if p.id == id then Leaf(patch(p)) else n
    case Split(d, cs, sizes) => Split(d, UpdatePanelIn(cs, id, patch), sizes)
  }

  function UpdatePanelIn(ns: seq<Node>, id: string, patch: Panel -> Panel): (r: seq<Node>)
    ensures |r| == |ns|
    decreases ns
  {
    if ns == [] then [] else [UpdatePanel(ns[0], id, patch)] + UpdatePanelIn(ns[1..], id, patch)
  }

  function TabsWithout(tabs: seq<PanelTab>, id: string): seq<PanelTab> {
    if tabs == [] then []
    else if tabs[0].id == id then TabsWithout(tabs[1..], id)
    else [tabs[0]] + TabsWithout(tabs[1..], id)
  }

  /** The panel after a tab left it: a single remaining tab lends the panel its identity fields, not its id. */
  function WithRemaining(p: Panel, remaining: seq<PanelTab>): Panel
    requires remaining != []
  {
    var t := remaining[0];
    if |remaining| == 1 then
      p.(tabs := None, activeTabId := None, kind := t.kind, title := t.title,
         chatSessionId := t.chatSessionId, terminalId := t.terminalId, filePath := t.filePath)
    else p.(tabs := Some(remaining), activeTabId := Some(t.id))
  }

  function StandalonePanel(id: string, t: PanelTab): Panel {
    Panel(id, t.kind, t.title, t.chatSessionId, t.terminalId, t.filePath, t.createdAt, None, None, None)
  }

  /** `Failed` is the exception raised when no tab remains, which takes tabs that all share one id. */
  datatype TearResult = NotTorn | Failed | Torn(root: Node)

  function TearOffTab(root: Option<Node>, panelId: string, side: DropSide, newId: string): TearResult {
    match FindInRoot(root, panelId)
    case None => NotTorn
    case Some(panel) =>
      if panel.tabs.None? || |panel.tabs.value| < 2 then NotTorn
      else
        var tabs := panel.tabs.value;
        var activeId := panel.activeTabId.GetOr(tabs[0].id);
        var torn := FindTab(tabs, activeId);
        var remaining := TabsWithout(tabs, activeId);
        if torn.None? then NotTorn
        else if remaining == [] then Failed
        else
          var updated := UpdatePanel(root.value, panelId, Remain(remaining));
          Torn(SplitPanelAt(Some(updated), panelId, StandalonePanel(newId, torn.value), side))
  }

  function Remain(remaining: seq<PanelTab>): Panel -> Panel
    requires remaining != []
  {
    p => WithRemaining(p, remaining)
  }

  // ----- What a panel holds -----

  /** A tab as its resources, without id and timestamps. */
  datatype Content = Content(
    kind: PanelType, title: string, chatSessionId: Option<string>, terminalId: Option<real>, filePath: Option<string>)

  function ContentOf(t: PanelTab): Content {
    Content(t.kind, t.title, t.chatSessionId, t.terminalId, t.filePath)
  }

  function TabContents(tabs: seq<PanelTab>): multiset<Content> {
    if tabs == [] then multiset{} else multiset{ContentOf(tabs[0])} + TabContents(tabs[1..])
  }

  /** The tabs of a panel that has some, else the panel's own identity. */
  function Contents(p: Panel): multiset<Content> {
    if p.tabs.Some? && p.tabs.value != [] then TabContents(p.tabs.value)
    else multiset{ContentOf(PanelToTab(p))}
  }

  function AllContents(ps: seq<Panel>): multiset<Content> {
    if ps == [] then multiset{} else Contents(ps[0]) + AllContents(ps[1..])
  }

  ghost predicate DistinctTabs(tabs: seq<PanelTab>) {
    forall i, j :: 0 <= i < j < |tabs| ==> tabs[i].id != tabs[j].id
  }

  lemma {:induction false} ContentsConcat(a: seq<Panel>, b: seq<Panel>)
    ensures AllContents(a + b) == AllContents(a) + AllContents(b)
  {
    if a == [] {
      assert a + b == b;
    } else {
      assert (a + b)[1..] == a[1..] + b;
      ContentsConcat(a[1..], b);
    }
  }

  lemma {:induction false} TabContentsConcat(a: seq<PanelTab>, b: seq<PanelTab>)
    ensures TabContents(a + b) == TabContents(a) + TabContents(b)
  {
    if a == [] {
      assert a + b == b;
    } else {
      assert (a + b)[1..] == a[1..] + b;
      TabContentsConcat(a[1..], b);
    }
  }

  lemma {:induction false} TabsWithoutAbsent(tabs: seq<PanelTab>, id: string)
    requires forall i :: 0 <= i < |tabs| ==> tabs[i].id != id
    ensures TabsWithout(tabs, id) == tabs
  {
    if tabs != [] {
      TabsWithoutAbsent(tabs[1..], id);
    }
  }

  lemma {:induction false} TearTakesOne(tabs: seq<PanelTab>, id: string)
    requires DistinctTabs(tabs) && FindTab(tabs, id).Some?
    ensures TabContents(TabsWithout(tabs, id)) + multiset{ContentOf(FindTab(tabs, id).value)} == TabContents(tabs)
    ensures |TabsWithout(tabs, id)| == |tabs| - 1
  {
    if tabs[0].id == id {
      TabsWithoutAbsent(tabs[1..], id);
    } else {
      TearTakesOne(tabs[1..], id);
      assert TabsWithout(tabs, id)[1..] == TabsWithout(tabs[1..], id);
    }
  }

  // ----- Updating one panel -----

  function Patched(patch: Panel -> Panel): Panel -> seq<Panel> {
    p => [patch(p)]
  }

  lemma {:induction false} UpdateFlatten(n: Node, id: string, patch: Panel -> Panel)
    requires CountId(Flatten(n), id) <= 1
    ensures Flatten(UpdatePanel(n, id, patch)) == Substitute(Flatten(n), id, Patched(patch))
    ensures WellFormed(UpdatePanel(n, id, patch)) <==> WellFormed(n)
    decreases n
  {
    if n.Split? {
      UpdateFlattenIn(n.children, id, patch);
    } else {
      SubstituteOne(n.panel, id, Patched(patch));
    }
  }

  lemma {:induction false} UpdateFlattenIn(ns: seq<Node>, id: string, patch: Panel -> Panel)
    requires CountId(FlattenAll(ns), id) <= 1
    ensures FlattenAll(UpdatePanelIn(ns, id, patch)) == Substitute(FlattenAll(ns), id, Patched(patch))
    ensures WellFormedAll(UpdatePanelIn(ns, id, patch)) <==> WellFormedAll(ns)
    decreases ns
  {
    if ns != [] {
      var head, rest := Flatten(ns[0]), FlattenAll(ns[1..]);
      CountConcat(head, rest, id);
      UpdateFlatten(ns[0], id, patch);
      UpdateFlattenIn(ns[1..], id, patch);
      assert UpdatePanelIn(ns, id, patch)[1..] == UpdatePanelIn(ns[1..], id, patch);
      SubstituteConcat(head, rest, id, Patched(patch));
      if HasId(head, id) {
        SubstituteAbsent(rest, id, Patched(patch));
      } else {
        SubstituteAbsent(head, id, Patched(patch));
      }
    }
  }

  /** The tree around the one panel that is updated. */
  lemma UpdateAround(root: Node, id: string, patch: Panel -> Panel) returns (a: seq<Panel>, p: Panel, b: seq<Panel>)
    requires Unique(Flatten(root)) && HasId(Flatten(root), id)
    ensures p.id == id && FindPanel(root, id) == Some(p)
    ensures Flatten(root) == a + [p] + b && Flatten(UpdatePanel(root, id, patch)) == a + [patch(p)] + b
    ensures !HasId(a, id) && !HasId(b, id)
  {
    FindPanelIsFind(root, id);
    UpdateFlatten(root, id, patch);
    a, p, b := SplitAtId(Flatten(root), id);
    WithoutMiddle(a, p, b);
    SubstituteMiddle(a, p, b, Patched(patch));
  }

  lemma CountAround(a: seq<Panel>, p: Panel, b: seq<Panel>, id: string)
    ensures CountId(a + [p] + b, id) == CountId(a, id) + (if p.id == id then 1 else 0) + CountId(b, id)
  {
    CountConcat(a + [p], b, id);
    CountConcat(a, [p], id);
  }

  lemma ContentsAround(a: seq<Panel>, m: seq<Panel>, b: seq<Panel>)
    ensures AllContents(a + m + b) == AllContents(a) + AllContents(m) + AllContents(b)
  {
    ContentsConcat(a + m, b);
    ContentsConcat(a, m);
  }

  // ----- tearOffTab -----

  lemma SingleTab(t: PanelTab)
    ensures TabContents([t]) == multiset{ContentOf(t)}
  {
    assert TabContents([t]) == multiset{ContentOf(t)} + TabContents([]);
  }

  lemma SinglePanel(p: Panel)
    ensures AllContents([p]) == Contents(p)
  {
    assert AllContents([p]) == Contents(p) + AllContents([]);
  }

  lemma WithRemainingContents(p: Panel, remaining: seq<PanelTab>)
    requires remaining != []
    ensures Contents(WithRemaining(p, remaining)) == TabContents(remaining)
  {
    if |remaining| == 1 {
      assert remaining == [remaining[0]];
      SingleTab(remaining[0]);
    }
  }

  /** A panel loses exactly the torn tab's content, also when the last tab becomes the panel itself. */
  lemma RemainingContents(p: Panel, id: string)
    requires p.tabs.Some? && |p.tabs.value| >= 2 && DistinctTabs(p.tabs.value) && FindTab(p.tabs.value, id).Some?
    ensures var remaining := TabsWithout(p.tabs.value, id);
            && remaining != []
            && Contents(WithRemaining(p, remaining)) + multiset{ContentOf(FindTab(p.tabs.value, id).value)}
                == Contents(p)
  {
    TearTakesOne(p.tabs.value, id);
    WithRemainingContents(p, TabsWithout(p.tabs.value, id));
  }

  lemma BesideContents(p: Panel, q: Panel, side: DropSide)
    requires q.tabs.None? && p.tabs != Some([])
    ensures AllContents(Beside(p, q, side)) == Contents(p) + Contents(q)
  {
    if side.Center? {
      TabbedContents(p, q);
      SinglePanel(AddTabToPanelLeaf(p, q));
    } else {
      SinglePanel(p);
      SinglePanel(q);
      ContentsConcat([p], [q]);
      ContentsConcat([q], [p]);
      assert [p] + [q] == [p, q] && [q] + [p] == [q, p];
    }
  }

  lemma TabbedContents(p: Panel, q: Panel)
    requires q.tabs.None? && p.tabs != Some([])
    ensures Contents(AddTabToPanelLeaf(p, q)) == Contents(p) + Contents(q)
  {
    var existing := p.tabs.GetOr([PanelToTab(p)]);
    TabContentsConcat(existing, [PanelToTab(q)]);
    SingleTab(PanelToTab(q));
    SingleTab(PanelToTab(p));
  }

  /** When tearing does something: a panel of the tree with two or more tabs, one of which is the active one. */
  ghost predicate CanTear(root: Option<Node>, panelId: string) {
    var p := FindInRoot(root, panelId);
    p.Some? && p.value.tabs.Some? && |p.value.tabs.value| >= 2
    && FindTab(p.value.tabs.value, p.value.activeTabId.GetOr(p.value.tabs.value[0].id)).Some?
  }

  /**
   * Tearing off never loses or copies a tab's resources. Beside a panel it adds exactly one leaf, under the
   * new id; dropped in the centre it puts the tab back where it was and adds none.
   */
  lemma TearOffConserves(root: Node, panelId: string, side: DropSide, newId: string)
    requires Unique(Flatten(root)) && WellFormed(root) && !HasId(Flatten(root), newId)
    requires CanTear(Some(root), panelId) ==> DistinctTabs(FindPanel(root, panelId).value.tabs.value)
    ensures var r := TearOffTab(Some(root), panelId, side, newId);
            && (r.Torn? <==> CanTear(Some(root), panelId)) && !r.Failed?
            && (r.Torn? ==>
                  && AllContents(Flatten(r.root)) == AllContents(Flatten(root))
                  && |Flatten(r.root)| == |Flatten(root)| + (if side.Center? then 0 else 1)
                  && (forall id :: CountId(Flatten(r.root), id)
                                   == CountId(Flatten(root), id) + if !side.Center? && id == newId then 1 else 0)
                  && WellFormed(r.root))
  {
    if CanTear(Some(root), panelId) {
      var panel := FindPanel(root, panelId).value;
      var activeId := panel.activeTabId.GetOr(panel.tabs.value[0].id);
      var torn, remaining := FindTab(panel.tabs.value, activeId).value, TabsWithout(panel.tabs.value, activeId);
      RemainingContents(panel, activeId);
      TornAround(root, panelId, side, StandalonePanel(newId, torn), Remain(remaining));
    }
  }

  lemma TornAround(root: Node, id: string, side: DropSide, q: Panel, patch: Panel -> Panel)
    requires Unique(Flatten(root)) && WellFormed(root) && FindPanel(root, id).Some?
    requires var p := FindPanel(root, id).value;
             && patch(p).id == p.id && patch(p).tabs != Some([])
             && Contents(patch(p)) + Contents(q) == Contents(p)
    requires q.tabs.None?
    ensures var r := SplitPanelAt(Some(UpdatePanel(root, id, patch)), id, q, side);
            && AllContents(Flatten(r)) == AllContents(Flatten(root))
            && |Flatten(r)| == |Flatten(root)| + (if side.Center? then 0 else 1)
            && (forall x ::
                  CountId(Flatten(r), x) == CountId(Flatten(root), x) + if !side.Center? && x == q.id then 1 else 0)
            && WellFormed(r)
  {
    FindPanelIsFind(root, id);
    var a, p, b := UpdateAround(root, id, patch);
    var updated := UpdatePanel(root, id, patch);
    UpdateFlatten(root, id, patch);
    forall x ensures CountId(Flatten(updated), x) == CountId(Flatten(root), x) {
      CountAround(a, p, b, x);
      CountAround(a, patch(p), b, x);
    }
    SplitPanelAtLeafOrder(updated, id, q, side);
    SubstituteMiddle(a, patch(p), b, Drop(q, side));
    ContentsInPlace(a, p, patch(p), b, q, side);
    CountAround(a, patch(p), b, id);
    forall x ensures CountId(InsertBeside(Flatten(updated), id, q, side), x)
                     == CountId(Flatten(root), x) + if !side.Center? && x == q.id then 1 else 0 {
      InsertBesideCount(Flatten(updated), id, q, side, x);
    }
  }

  lemma ContentsInPlace(a: seq<Panel>, p: Panel, p': Panel, b: seq<Panel>, q: Panel, side: DropSide)
    requires p'.tabs != Some([]) && q.tabs.None? && Contents(p') + Contents(q) == Contents(p)
    ensures AllContents(a + Beside(p', q, side) + b) == AllContents(a + [p] + b)
  {
    ContentsAround(a, Beside(p', q, side), b);
    ContentsAround(a, [p], b);
    SinglePanel(p);
    BesideContents(p', q, side);
  }

  // ----- removeTabFromPanel -----

  /** Closing all but one tab spreads that tab over the panel, and so renames the panel to the tab's id. */
  function Collapse(t: PanelTab): Panel -> Panel {
    (p: Panel) => Panel(t.id, t.kind, t.title, t.chatSessionId, t.terminalId, t.filePath, t.createdAt, p.lastUsedAt,
        None, None)
  }

  function KeepTabs(tabs: seq<PanelTab>, closedId: string): Panel -> Panel
    requires tabs != []
  {
    (p: Panel) => p.(tabs := Some(tabs),
            activeTabId := if p.activeTabId == Some(closedId) then Some(tabs[0].id) else p.activeTabId)
  }

  function RemoveTabFromPanel(s: GridState, panelId: string, tabId: string): GridState {
    var panel := FindInRoot(s.root, panelId);
    if panel.None? || panel.value.tabs.None? then ClosePanel(s, panelId)
    else
      var tabs := TabsWithout(panel.value.tabs.value, tabId);
      if tabs == [] then ClosePanel(s, panelId)
      else if |tabs| == 1 then s.(root := Some(UpdatePanel(s.root.value, panelId, Collapse(tabs[0]))))
      else s.(root := Some(UpdatePanel(s.root.value, panelId, KeepTabs(tabs, tabId))))
  }

  /** The tab a panel collapses to when `tabId` is closed, if it collapses. */
  function CollapsesTo(s: GridState, panelId: string, tabId: string): Option<PanelTab> {
    var panel := FindInRoot(s.root, panelId);
    if panel.None? || panel.value.tabs.None? then None
    else
      var tabs := TabsWithout(panel.value.tabs.value, tabId);
      if |tabs| == 1 then Some(tabs[0]) else None
  }

  /**
   * Closing a tab keeps the grid valid exactly when it does not collapse the panel under a new id, or the
   * panel is not the active one and the tab's id is new to the grid (and not empty).
   */
  lemma RemoveTabInvariant(s: GridState, panelId: string, tabId: string)
    requires Inv(s)
    ensures Inv(RemoveTabFromPanel(s, panelId, tabId)) <==>
              var t := CollapsesTo(s, panelId, tabId);
              t.None? || t.value.id == panelId
              || (s.activePanelId != Some(panelId) && t.value.id != "" && Count(s, t.value.id) == 0)
  {
    var panel := FindInRoot(s.root, panelId);
    if panel.None? || panel.value.tabs.None? || TabsWithout(panel.value.tabs.value, tabId) == [] {
      CloseConserves(s, panelId);
    } else {
      var tabs := TabsWithout(panel.value.tabs.value, tabId);
      FindInRootIsFind(s.root, panelId);
      if |tabs| == 1 {
        RenameInvariant(s, panelId, Collapse(tabs[0]), tabs[0].id);
      } else {
        RenameInvariant(s, panelId, KeepTabs(tabs, tabId), panelId);
      }
    }
  }

  /** Patching one visible panel matters to the invariant only through the panel's id. */
  lemma RenameInvariant(s: GridState, panelId: string, patch: Panel -> Panel, newId: string)
    requires Inv(s) && s.root.Some? && FindInRoot(s.root, panelId).Some?
    requires patch(FindInRoot(s.root, panelId).value).id == newId
    ensures Inv(s.(root := Some(UpdatePanel(s.root.value, panelId, patch)))) <==>
              newId == panelId || (s.activePanelId != Some(panelId) && newId != "" && Count(s, newId) == 0)
  {
    var root := s.root.value;
    var t := s.(root := Some(UpdatePanel(root, panelId, patch)));
    InvIdsUnique(s);
    FindPanelIsFind(root, panelId);
    var a, p, b := UpdateAround(root, panelId, patch);
    UpdateFlatten(root, panelId, patch);
    forall x ensures CountId(Flatten(t.root.value), x)
                     == CountId(Flatten(root), x) - (if x == panelId then 1 else 0) + if x == newId then 1 else 0 {
      CountAround(a, p, b, x);
      CountAround(a, patch(p), b, x);
    }
    assert Count(s, panelId) <= 1 && Count(s, "") == 0 && Count(s, newId) <= 1;
    if Inv(t) {
      assert Count(t, newId) <= 1 && Count(t, "") == 0;
    } else if newId == panelId || Count(s, newId) == 0 {
      assert forall x :: Count(s, x) <= 1 ==> Count(t, x) <= 1;
    }
  }

  /** The failing family is not empty: closing one of two tabs of the active panel leaves the focus dangling. */
  lemma RemoveTabCanStrandFocus()
    ensures exists s, panelId, tabId :: Inv(s) && !Inv(RemoveTabFromPanel(s, panelId, tabId))
  {
    var t1 := PanelTab("t1", Chat, "One", None, None, None, 0.0);
    var t2 := PanelTab("t2", Chat, "Two", None, None, None, 0.0);
    var p := Panel("p", Chat, "P", None, None, None, 0.0, None, Some([t1, t2]), Some("t1"));
    var s := GridState(Some(Leaf(p)), Some("p"), [], [], []);
    assert Flatten(Leaf(p)) == [p] && CountId([p], "p") == 1;
    assert forall id :: Count(s, id) <= 1;
    assert Inv(s);
    assert TabsWithout([t1, t2], "t1") == [t2] by {
      assert [t1, t2][1..] == [t2] && TabsWithout([t2], "t1") == [t2] + TabsWithout([], "t1");
    }
    RemoveTabInvariant(s, "p", "t1");
  }

  // ----- movePanel -----

  /** What a dropped panel brings along: all its contents beside a panel, its own identity as a tab. */
  function Brought(p: Panel, side: DropSide): multiset<Content> {
    if side.Center? then multiset{ContentOf(PanelToTab(p))} else Contents(p)
  }

  lemma DroppedContents(target: Panel, p: Panel, side: DropSide)
    requires side.Center? ==> target.tabs != Some([])
    ensures AllContents(Beside(target, p, side)) == Contents(target) + Brought(p, side)
  {
    if side.Center? {
      TabDropped(target, p);
    } else {
      PairContents(target, p);
      PairContents(p, target);
    }
  }

  lemma TabDropped(target: Panel, p: Panel)
    requires target.tabs != Some([])
    ensures AllContents([AddTabToPanelLeaf(target, p)]) == Contents(target) + multiset{ContentOf(PanelToTab(p))}
  {
    var existing := target.tabs.GetOr([PanelToTab(target)]);
    TabContentsConcat(existing, [PanelToTab(p)]);
    SingleTab(PanelToTab(p));
    SingleTab(PanelToTab(target));
    SinglePanel(AddTabToPanelLeaf(target, p));
  }

  lemma PairContents(p: Panel, q: Panel)
    ensures AllContents([p, q]) == Contents(p) + Contents(q)
  {
    SinglePanel(p);
    SinglePanel(q);
    ContentsConcat([p], [q]);
    assert [p] + [q] == [p, q];
  }

  lemma InsertedContents(ps: seq<Panel>, targetId: string, p: Panel, side: DropSide)
    requires HasId(ps, targetId) && (side.Center? ==> Find(ps, targetId).value.tabs != Some([]))
    ensures AllContents(InsertBeside(ps, targetId, p, side)) == AllContents(ps) + Brought(p, side)
  {
    var a, t, b := SplitAtId(ps, targetId);
    SubstituteMiddle(a, t, b, Drop(p, side));
    DroppedContents(t, p, side);
    ContentsAround(a, Beside(t, p, side), b);
    ContentsAround(a, [t], b);
    SinglePanel(t);
  }

  lemma TakenContents(ps: seq<Panel>, id: string)
    requires Unique(ps) && HasId(ps, id)
    ensures AllContents(Without(ps, id)) + Contents(Find(ps, id).value) == AllContents(ps)
  {
    var a, p, b := SplitAtId(ps, id);
    assert CountId(ps, id) <= 1;
    WithoutMiddle(a, p, b);
    ContentsAround(a, [p], b);
    ContentsConcat(a, b);
    SinglePanel(p);
  }

  lemma {:induction false} FindWithout(ps: seq<Panel>, id: string, other: string)
    requires id != other
    ensures Find(Without(ps, id), other) == Find(ps, other)
  {
    if ps != [] {
      FindWithout(ps[1..], id, other);
    }
  }

  /** When a move does something. */
  predicate Moves(root: Option<Node>, draggedId: string, targetId: string) {
    draggedId != targetId && HasId(Shown(root), draggedId) && HasId(Shown(root), targetId)
  }

  /**
   * Moving a panel beside another conserves the contents of all panels. Dropping it into the centre of another
   * does exactly when its contents are its own identity: any other tab is lost. (A target whose tab list is
   * empty loses its own identity as well, so there a centre drop always loses something.)
   */
  lemma MoveConservesExactly(root: Option<Node>, draggedId: string, targetId: string, side: DropSide)
    requires Unique(Shown(root)) && Moves(root, draggedId, targetId)
    ensures var before, after := Shown(root), Shown(MovePanel(root, draggedId, targetId, side));
            var dragged, target := Find(before, draggedId).value, Find(before, targetId).value;
            AllContents(after) == AllContents(before) <==>
              !side.Center? || (Contents(dragged) == multiset{ContentOf(PanelToTab(dragged))}
                  && target.tabs != Some([]))
  {
    var before := Shown(root);
    var dragged, target := Find(before, draggedId).value, Find(before, targetId).value;
    MovePanelLeafOrder(root, draggedId, targetId, side);
    TakenContents(before, draggedId);
    CountWithout(before, draggedId, targetId);
    FindWithout(before, draggedId, targetId);
    if side.Center? && target.tabs == Some([]) {
      EmptyTargetLoses(Without(before, draggedId), targetId, dragged);
      SomeContents(dragged);
    } else {
      InsertedContents(Without(before, draggedId), targetId, dragged, side);
      Cancel(AllContents(Without(before, draggedId)), Brought(dragged, side), Contents(dragged));
    }
  }

  lemma Cancel(rest: multiset<Content>, a: multiset<Content>, b: multiset<Content>)
    ensures rest + a == rest + b <==> a == b
  {
    if rest + a == rest + b {
      forall x ensures a[x] == b[x] {
        assert (rest + a)[x] == (rest + b)[x];
      }
    }
  }

  lemma {:induction false} SomeTabContents(tabs: seq<PanelTab>)
    ensures |TabContents(tabs)| == |tabs|
  {
    if tabs != [] {
      SomeTabContents(tabs[1..]);
    }
  }

  lemma SomeContents(p: Panel)
    ensures |Contents(p)| >= 1
  {
    if p.tabs.Some? {
      SomeTabContents(p.tabs.value);
    }
  }

  lemma EmptyTargetLoses(ps: seq<Panel>, targetId: string, p: Panel)
    requires HasId(ps, targetId) && Find(ps, targetId).value.tabs == Some([])
    ensures |AllContents(InsertBeside(ps, targetId, p, Center))| == |AllContents(ps)|
  {
    var a, t, b := SplitAtId(ps, targetId);
    var full := AddTabToPanelLeaf(t, p);
    SubstituteMiddle(a, t, b, Drop(p, Center));
    ContentsAround(a, [full], b);
    ContentsAround(a, [t], b);
    SinglePanel(full);
    SinglePanel(t);
    OnlyTab(t, p);
  }

  lemma OnlyTab(t: Panel, p: Panel)
    requires t.tabs == Some([])
    ensures |Contents(AddTabToPanelLeaf(t, p))| == |Contents(t)| == 1
  {
    assert [] + [PanelToTab(p)] == [PanelToTab(p)];
    SingleTab(PanelToTab(p));
  }

  lemma TwoLeaves(p: Panel, q: Panel)
    ensures Flatten(Split(Row, [Leaf(p), Leaf(q)], [0.5, 0.5])) == [p, q]
  {
    var leaves := [Leaf(p), Leaf(q)];
    assert leaves[1..] == [Leaf(q)] && [Leaf(q)][1..] == [];
    assert FlattenAll([Leaf(q)]) == [q] + FlattenAll([]) == [q];
    assert FlattenAll(leaves) == [p] + FlattenAll(leaves[1..]) == [p] + [q];
  }

  lemma TwoPanels(p: Panel, q: Panel)
    requires p.id != q.id
    ensures Unique([p, q]) && Find([p, q], p.id) == Some(p) && HasId([p, q], p.id) && HasId([p, q], q.id)
  {
    assert [p, q][1..] == [q] && [q][1..] == [];
    forall id ensures CountId([p, q], id) == (if id == p.id then 1 else 0) + if id == q.id then 1 else 0 {
      assert CountId([q], id) == (if id == q.id then 1 else 0) + CountId([], id);
    }
  }

  /** A centre drop in a grid of distinct panels that loses tab contents. */
  ghost predicate LosesContents(root: Option<Node>, draggedId: string, targetId: string) {
    && Unique(Shown(root)) && Moves(root, draggedId, targetId)
    && AllContents(Shown(MovePanel(root, draggedId, targetId, Center))) != AllContents(Shown(root))
  }

  /** A panel with two tabs, dropped into the centre of another, does not bring them along. */
  lemma TwoTabsAreLost(p: Panel, q: Panel)
    requires p.id != q.id && p.tabs.Some? && |p.tabs.value| == 2
    ensures LosesContents(Some(Split(Row, [Leaf(p), Leaf(q)], [0.5, 0.5])), p.id, q.id)
  {
    TwoLeaves(p, q);
    TwoPanels(p, q);
    SomeTabContents(p.tabs.value);
    assert |Contents(p)| == 2 && |multiset{ContentOf(PanelToTab(p))}| == 1;
    MoveConservesExactly(Some(Split(Row, [Leaf(p), Leaf(q)], [0.5, 0.5])), p.id, q.id, Center);
  }

  /** The failing family of moves is not empty. */
  lemma MoveCanLoseTab()
    ensures exists root, draggedId, targetId :: LosesContents(root, draggedId, targetId)
  {
    var t1 := PanelTab("t1", Chat, "One", None, None, None, 0.0);
    var t2 := PanelTab("t2", Chat, "Two", None, None, None, 0.0);
    var p := Panel("p", Chat, "P", None, None, None, 0.0, None, Some([t1, t2]), Some("t1"));
    var q := Panel("q", Chat, "Q", None, None, None, 0.0, None, None, None);
    TwoTabsAreLost(p, q);
  }
}
