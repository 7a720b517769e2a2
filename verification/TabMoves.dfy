/** Which tab a panel shows, and which tabs of which panel each operation on tabs moves (src/lib/panelGrid.ts). */
module TabMoves {
  import opened Prelude
  import opened Panels
  import opened SplitTree
  import opened PanelGrid
  import opened TabOps

  /** The tabs of a panel that has some, else the panel's own identity as a single tab. */
  function TabList(p: Panel): (r: seq<PanelTab>)
    ensures r != []
  {
    if p.tabs.Some? && p.tabs.value != [] then p.tabs.value else [PanelToTab(p)]
  }

  /** What the tabs hold, in order. */
  function Shelf(tabs: seq<PanelTab>): (r: seq<Content>)
    ensures |r| == |tabs|
  {
    if tabs == [] then [] else [ContentOf(tabs[0])] + Shelf(tabs[1..])
  }

  function Dropped<T>(xs: seq<T>, k: nat): (r: seq<T>)
    requires k < |xs|
    ensures |r| == |xs| - 1
  {
    xs[..k] + xs[k + 1..]
  }

  /** The list without one tab, the first of those with this id. */
  ghost predicate IsFirst(tabs: seq<PanelTab>, id: string, k: nat) {
    k < |tabs| && tabs[k].id == id && forall i :: 0 <= i < k ==> tabs[i].id != id
  }

  lemma {:induction false} FindTabIsFirst(tabs: seq<PanelTab>, id: string) returns (k: nat)
    ensures FindTab(tabs, id).Some? ==> IsFirst(tabs, id, k) && FindTab(tabs, id) == Some(tabs[k])
    ensures FindTab(tabs, id).None? ==> forall i :: 0 <= i < |tabs| ==> tabs[i].id != id
  {
    k := 0;
    if tabs != [] && tabs[0].id != id {
      var j := FindTabIsFirst(tabs[1..], id);
      k := j + 1;
      assert forall i :: 0 < i < |tabs| ==> tabs[i] == tabs[1..][i - 1];
    }
  }

  /** A panel shows the first of its tabs that its active id names, or else its first tab. */
  lemma ActiveTabExactly(p: Panel)
    ensures var tabs := TabList(p);
            if p.tabs.Some? && exists k: nat :: p.activeTabId.Some? && IsFirst(tabs, p.activeTabId.value, k)
            then exists k: nat :: IsFirst(tabs, p.activeTabId.value, k) && ActiveTab(p) == tabs[k]
            else ActiveTab(p) == tabs[0]
  {
    if p.tabs.Some? && p.tabs.value != [] && p.activeTabId.Some? {
      var k := FindTabIsFirst(p.tabs.value, p.activeTabId.value);
    }
  }

  /** A panel dropped into the centre of another becomes its last tab, and is shown. */
  lemma CentreDrop(target: Panel, p: Panel)
    requires target.tabs != Some([])
    ensures var r := AddTabToPanelLeaf(target, p);
            && r.id == target.id && TabList(r) == TabList(target) + [PanelToTab(p)]
            && ActiveTab(r).id == p.id
            && (FindTab(TabList(target), p.id).None? ==> ActiveTab(r) == PanelToTab(p))
  {
    FindTabLast(TabList(target), PanelToTab(p));
  }

  lemma {:induction false} FindTabLast(tabs: seq<PanelTab>, t: PanelTab)
    ensures FindTab(tabs + [t], t.id).Some?
    ensures FindTab(tabs, t.id).None? ==> FindTab(tabs + [t], t.id) == Some(t)
  {
    if tabs == [] {
      assert tabs + [t] == [t];
    } else {
      assert (tabs + [t])[1..] == tabs[1..] + [t];
      FindTabLast(tabs[1..], t);
    }
  }

  // ----- A tab leaves its panel -----

  lemma {:induction false} WithoutIsDropped(tabs: seq<PanelTab>, k: nat)
    requires DistinctTabs(tabs) && k < |tabs|
    ensures TabsWithout(tabs, tabs[k].id) == Dropped(tabs, k)
  {
    if k == 0 {
      TabsWithoutAbsent(tabs[1..], tabs[0].id);
      assert Dropped(tabs, 0) == tabs[1..];
    } else {
      assert tabs[1..][k - 1] == tabs[k];
      WithoutIsDropped(tabs[1..], k - 1);
      assert Dropped(tabs, k) == [tabs[0]] + Dropped(tabs[1..], k - 1);
    }
  }

  lemma {:induction false} ShelfDropped(tabs: seq<PanelTab>, k: nat)
    requires k < |tabs|
    ensures Shelf(tabs)[k] == ContentOf(tabs[k]) && Shelf(Dropped(tabs, k)) == Dropped(Shelf(tabs), k)
  {
    if k == 0 {
      assert Dropped(tabs, 0) == tabs[1..] && Dropped(Shelf(tabs), 0) == Shelf(tabs[1..]);
    } else {
      ShelfDropped(tabs[1..], k - 1);
      assert Dropped(tabs, k) == [tabs[0]] + Dropped(tabs[1..], k - 1);
      assert Dropped(Shelf(tabs), k) == [ContentOf(tabs[0])] + Dropped(Shelf(tabs[1..]), k - 1);
    }
  }

  lemma RemainShows(p: Panel, rest: seq<PanelTab>)
    requires rest != []
    ensures var r := WithRemaining(p, rest);
            r.id == p.id && Shelf(TabList(r)) == Shelf(rest) && ContentOf(ActiveTab(r)) == ContentOf(rest[0])
  {
    if |rest| == 1 {
      assert rest == [rest[0]] && rest[1..] == [];
      assert [PanelToTab(WithRemaining(p, rest))][1..] == [];
    }
  }

  /**
   * Tearing off takes the tab that the panel shows, wherever it is in the list: it becomes a panel of its own, at
   * the asked side of the old one, which goes on to show the first of the tabs it has left.
   */
  lemma TearOffTakesShown(root: Node, panelId: string, side: DropSide, newId: string)
      returns (a: seq<Panel>, p: Panel, left: Panel, torn: Panel, b: seq<Panel>, k: nat)
    requires Unique(Flatten(root)) && WellFormed(root) && CanTear(Some(root), panelId) && !side.Center?
    requires DistinctTabs(FindPanel(root, panelId).value.tabs.value)
    ensures Flatten(root) == a + [p] + b && p.id == panelId
    ensures var r := TearOffTab(Some(root), panelId, side, newId);
            r.Torn? && Flatten(r.root) == a + (if side.Left? || side.Top? then [torn, left] else [left, torn]) + b
    ensures k < |TabList(p)| && TabList(p)[k] == ActiveTab(p)
    ensures left.id == panelId && Shelf(TabList(left)) == Dropped(Shelf(TabList(p)), k)
    ensures ContentOf(ActiveTab(left)) == Shelf(TabList(left))[0]
    ensures torn.id == newId && TabList(torn) == [ActiveTab(p).(id := newId)]
  {
    var panel := FindPanel(root, panelId).value;
    var tabs := panel.tabs.value;
    var activeId := panel.activeTabId.GetOr(tabs[0].id);
    k := FindTabIsFirst(tabs, activeId);
    WithoutIsDropped(tabs, k);
    ShelfDropped(tabs, k);
    var rest := TabsWithout(tabs, activeId);
    RemainShows(panel, rest);
    FindPanelIsFind(root, panelId);
    a, p, b := UpdateAround(root, panelId, Remain(rest));
    left, torn := Remain(rest)(p), StandalonePanel(newId, tabs[k]);
    TornBeside(UpdatePanel(root, panelId, Remain(rest)), Flatten(root), a, p, left, b, torn, side);
  }

  /** The torn panel beside the one it left. */
  lemma TornBeside(updated: Node, before: seq<Panel>, a: seq<Panel>, p: Panel, left: Panel, b: seq<Panel>, torn: Panel,
      side: DropSide)
    requires Unique(before) && before == a + [p] + b && left.id == p.id
    requires Flatten(updated) == a + [left] + b && !HasId(a, p.id)
    ensures Flatten(SplitPanelAt(Some(updated), p.id, torn, side)) == a + Beside(left, torn, side) + b
  {
    forall x ensures CountId(Flatten(updated), x) == CountId(before, x) {
      CountAround(a, p, b, x);
      CountAround(a, left, b, x);
    }
    SplitPanelAtLeafOrder(updated, p.id, torn, side);
    SubstituteMiddle(a, left, b, Drop(torn, side));
  }

  // ----- A tab is closed -----

  /** The tabs of a panel after one was closed, and which of them it shows. */
  ghost predicate TabClosed(p: Panel, p': Panel, k: nat) {
    && k < |TabList(p)| && TabList(p') == Dropped(TabList(p), k)
    && ActiveTab(p') == (if ActiveTab(p) == TabList(p)[k] then TabList(p')[0] else ActiveTab(p))
    && p'.lastUsedAt == p.lastUsedAt
    && (if |TabList(p')| == 1 then p'.tabs.None? && p'.activeTabId.None? else PanelToTab(p') == PanelToTab(p))
  }

  lemma FindInDropped(tabs: seq<PanelTab>, k: nat, id: string)
    requires k < |tabs| && DistinctTabs(tabs) && id != tabs[k].id
    ensures FindTab(Dropped(tabs, k), id) == FindTab(tabs, id)
  {
    WithoutIsDropped(tabs, k);
    FindInRest(tabs, tabs[k].id, id);
  }

  lemma {:induction false} FindInRest(tabs: seq<PanelTab>, closed: string, id: string)
    requires id != closed
    ensures FindTab(TabsWithout(tabs, closed), id) == FindTab(tabs, id)
  {
    if tabs != [] {
      FindInRest(tabs[1..], closed, id);
    }
  }

  lemma CollapsedTabs(p: Panel, k: nat)
    requires p.tabs.Some? && DistinctTabs(p.tabs.value) && k < |p.tabs.value| == 2
    ensures TabClosed(p, Collapse(Dropped(p.tabs.value, k)[0])(p), k)
  {
    if p.activeTabId.Some? {
      var j := FindTabIsFirst(p.tabs.value, p.activeTabId.value);
    }
  }

  lemma KeptTabs(p: Panel, k: nat)
    requires p.tabs.Some? && DistinctTabs(p.tabs.value) && k < |p.tabs.value| && |p.tabs.value| > 2
    ensures TabClosed(p, KeepTabs(Dropped(p.tabs.value, k), p.tabs.value[k].id)(p), k)
  {
    var tabs := p.tabs.value;
    if p.activeTabId.Some? {
      var id := p.activeTabId.value;
      var j := FindTabIsFirst(tabs, id);
      if id == tabs[k].id {
        assert j == k;
      } else {
        FindInDropped(tabs, k, id);
      }
    }
  }

  /**
   * Closing one of several tabs takes exactly that tab out of its panel, and nothing else changes on screen or off
   * it. A closed tab that was shown makes way for the first one left. Closing the only tab closes the panel.
   */
  lemma CloseTabMoves(s: GridState, panelId: string, k: nat)
      returns (a: seq<Panel>, p: Panel, p': Panel, b: seq<Panel>)
    requires Inv(s) && HasId(Shown(s.root), panelId)
    requires var panel := Find(Shown(s.root), panelId).value;
             DistinctTabs(TabList(panel)) && k < |TabList(panel)|
    ensures Shown(s.root) == a + [p] + b && p.id == panelId && k < |TabList(p)|
    ensures var t := RemoveTabFromPanel(s, panelId, TabList(p)[k].id);
            if |TabList(p)| == 1 then t == ClosePanel(s, panelId)
            else
              && Shown(t.root) == a + [p'] + b && TabClosed(p, p', k)
              && t == s.(root := t.root)
  {
    var root := s.root.value;
    var panel := Find(Shown(s.root), panelId).value;
    FindInRootIsFind(s.root, panelId);
    FindPanelIsFind(root, panelId);
    InvIdsUnique(s);
    var tabs := TabList(panel);
    WithoutIsDropped(tabs, k);
    var rest := Dropped(tabs, k);
    if |tabs| == 1 {
      assert rest == [];
      assert panel.tabs.Some? && panel.tabs.value == [] ==> TabsWithout(panel.tabs.value, tabs[k].id) == [];
      a, p, b := UpdateAround(root, panelId, (q: Panel) => q);
      p' := p;
    } else {
      var patch := if |rest| == 1 then Collapse(rest[0]) else KeepTabs(rest, tabs[k].id);
      a, p, b := UpdateAround(root, panelId, patch);
      p' := patch(p);
      if |rest| == 1 {
        CollapsedTabs(p, k);
      } else {
        KeptTabs(p, k);
      }
    }
  }
}
