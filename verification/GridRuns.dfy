/**
 * Activation and whole runs of the grid: activating a panel never breaks a linked group apart, and no
 * sequence of operations can lose a panel, duplicate one, or leave the focus dangling.
 */
module GridRuns {
  import opened Prelude
  import opened Panels
  import opened SplitTree
  import opened PanelGrid

  // ----- Groups and solos -----

  /** The trees of two or more panels: the visible one, if it is one, and the stashed ones. */
  function GroupsOf(s: GridState): multiset<Node> {
    multiset(if |Shown(s.root)| >= 2 then [s.root.value] else []) + multiset(s.stashed)
  }

  /** The panels that stand alone: a single visible one and the hidden ones. */
  function SolosOf(s: GridState): multiset<Panel> {
    multiset(if |Shown(s.root)| == 1 then Shown(s.root) else []) + multiset(s.hidden)
  }

  lemma {:induction false} GroupHoldingMeaning(groups: seq<Node>, id: string)
    ensures var g := GroupHolding(groups, id);
            && (g.Some? <==> HasId(FlattenAll(groups), id))
            && (g.Some? ==> g.value in groups && HasId(Flatten(g.value), id))
  {
    if groups != [] {
      CountConcat(Flatten(groups[0]), FlattenAll(groups[1..]), id);
      GroupHoldingMeaning(groups[1..], id);
    }
  }

  /** A group with a uniquely identified panel is in the list once. */
  lemma {:induction false} GroupOnce(groups: seq<Node>, g: Node, id: string)
    requires g in groups && HasId(Flatten(g), id) && CountId(FlattenAll(groups), id) == 1
    ensures multiset(groups)[g] == 1
  {
    CountConcat(Flatten(groups[0]), FlattenAll(groups[1..]), id);
    assert groups == [groups[0]] + groups[1..];
    if g in groups[1..] {
      var k :| 0 <= k < |groups[1..]| && groups[1..][k] == g;
      ChildCounts(groups[1..], k, k, id);
      GroupOnce(groups[1..], g, id);
    }
  }

  lemma {:induction false} WithoutGroupAbsent(groups: seq<Node>, g: Node)
    requires g !in groups
    ensures WithoutGroup(groups, g) == groups
  {
    if groups != [] {
      WithoutGroupAbsent(groups[1..], g);
    }
  }

  lemma {:induction false} WithoutGroupSplits(groups: seq<Node>, g: Node) returns (a: seq<Node>, b: seq<Node>)
    requires multiset(groups)[g] == 1
    ensures groups == a + [g] + b && WithoutGroup(groups, g) == a + b
  {
    assert groups == [groups[0]] + groups[1..];
    if groups[0] == g {
      a, b := [], groups[1..];
      WithoutGroupAbsent(b, g);
    } else {
      a, b := WithoutGroupSplits(groups[1..], g);
      a := [groups[0]] + a;
    }
  }

  lemma WithoutGroupTakesOne(groups: seq<Node>, g: Node)
    requires multiset(groups)[g] == 1
    ensures multiset(WithoutGroup(groups, g)) + multiset{g} == multiset(groups)
    ensures multiset(FlattenAll(WithoutGroup(groups, g))) + multiset(Flatten(g)) == multiset(FlattenAll(groups))
  {
    var a, b := WithoutGroupSplits(groups, g);
    TakenFromMiddle(a, g, b);
    FlattenConcat(a + [g], b);
    FlattenConcat(a, [g]);
    FlattenOne(g);
    FlattenConcat(a, b);
    var x, y, z := FlattenAll(a), Flatten(g), FlattenAll(b);
    assert multiset(x + y + z) == multiset(x + z) + multiset(y);
  }

  lemma TakenFromMiddle(a: seq<Node>, g: Node, b: seq<Node>)
    ensures multiset(a + b) + multiset{g} == multiset(a + [g] + b)
  {
  }

  lemma {:induction false} WithoutGroupWellFormed(groups: seq<Node>, g: Node)
    requires GroupsWellFormed(groups)
    ensures GroupsWellFormed(WithoutGroup(groups, g))
  {
    if groups != [] {
      assert GroupsWellFormed(groups[1..]);
      WithoutGroupWellFormed(groups[1..], g);
    }
  }

  lemma SingletonIsLeaf(n: Node)
    requires WellFormed(n) && |Flatten(n)| == 1
    ensures n == Leaf(Flatten(n)[0])
  {
    ShowsSomething(n);
  }

  /** Where the visible tree goes when it is set aside. */
  lemma Parked(s: GridState)
    requires Inv(s)
    ensures var (stashed, hidden) := ParkCurrentRoot(s);
            && multiset(stashed) == GroupsOf(s)
            && multiset(hidden) == SolosOf(s)
            && multiset(FlattenAll(stashed)) + multiset(hidden)
               == multiset(Shown(s.root)) + multiset(FlattenAll(s.stashed)) + multiset(s.hidden)
            && GroupsWellFormed(stashed)
  {
    if s.root.Some? {
      ShowsSomething(s.root.value);
      if |Flatten(s.root.value)| >= 2 {
        ParkedGroup(s);
      } else {
        ParkedSolo(s);
      }
    }
  }

  lemma ParkedGroup(s: GridState)
    requires Inv(s) && s.root.Some? && |Flatten(s.root.value)| >= 2
    ensures ParkCurrentRoot(s) == ([s.root.value] + s.stashed, s.hidden)
    ensures FlattenAll([s.root.value] + s.stashed) == Flatten(s.root.value) + FlattenAll(s.stashed)
    ensures GroupsWellFormed([s.root.value] + s.stashed)
  {
    assert ([s.root.value] + s.stashed)[1..] == s.stashed;
  }

  lemma ParkedSolo(s: GridState)
    requires Inv(s) && s.root.Some? && |Flatten(s.root.value)| == 1
    ensures var solo := Flatten(s.root.value)[0];
            s.root.value == Leaf(solo) && ParkCurrentRoot(s) == (s.stashed, [solo] + s.hidden)
  {
    SingletonIsLeaf(s.root.value);
    var solo := Flatten(s.root.value)[0];
    assert CountId([solo], solo.id) == 1;
    assert Count(s, solo.id) <= 1;
    WithoutAbsent(s.hidden, solo.id);
  }

  /** The parked regions as a state of their own: nothing visible, everything else where it was put. */
  function ParkedState(s: GridState): GridState {
    var (stashed, hidden) := ParkCurrentRoot(s);
    GridState(None, None, s.closed, hidden, stashed)
  }

  lemma ParkedInv(s: GridState)
    requires Inv(s)
    ensures Inv(ParkedState(s)) && Holding(ParkedState(s)) == Holding(s)
    ensures GroupsOf(ParkedState(s)) == GroupsOf(s) && SolosOf(ParkedState(s)) == SolosOf(s)
  {
    Parked(s);
    ParkedHolding(s);
    Conserving(s, ParkedState(s));
  }

  lemma ParkedHolding(s: GridState)
    requires Inv(s)
    ensures Holding(ParkedState(s)) == Holding(s)
  {
    Parked(s);
    var t := ParkedState(s);
    assert multiset(Shown(t.root)) == multiset{};
    Regroup(multiset(FlattenAll(t.stashed)), multiset(t.hidden), multiset(Shown(s.root)),
        multiset(FlattenAll(s.stashed)),
            multiset(s.hidden), multiset(s.closed));
  }

  lemma Regroup(stashed: multiset<Panel>, hidden: multiset<Panel>, shown0: multiset<Panel>, stashed0: multiset<Panel>,
                hidden0: multiset<Panel>, closed: multiset<Panel>)
    requires stashed + hidden == shown0 + stashed0 + hidden0
    ensures multiset{} + hidden + stashed + closed == shown0 + hidden0 + stashed0 + closed
  {
    assert multiset{} + hidden + stashed == stashed + hidden;
    assert shown0 + hidden0 + stashed0 == shown0 + stashed0 + hidden0;
  }

  /** Bringing a group back from a state in which nothing is visible. */
  lemma RestoreGroup(s: GridState, g: Node, id: string)
    requires Inv(s) && s.root.None? && g in s.stashed && HasId(Flatten(g), id)
    ensures var t := s.(root := Some(g), activePanelId := Some(id), stashed := WithoutGroup(s.stashed, g));
            Inv(t) && Holding(t) == Holding(s) && GroupsOf(t) == GroupsOf(s) && SolosOf(t) == SolosOf(s)
  {
    var t := s.(root := Some(g), activePanelId := Some(id), stashed := WithoutGroup(s.stashed, g));
    var k :| 0 <= k < |s.stashed| && s.stashed[k] == g;
    ChildCounts(s.stashed, k, k, id);
    assert Count(s, id) <= 1;
    GroupOnce(s.stashed, g, id);
    WithoutGroupTakesOne(s.stashed, g);
    WithoutGroupWellFormed(s.stashed, g);
    assert multiset(Shown(s.root)) == multiset{};
    RestoredMultisets(s, t, g);
    Conserving(s, t);
  }

  lemma RestoredMultisets(s: GridState, t: GridState, g: Node)
    requires s.root.None? && t.root == Some(g) && |Flatten(g)| >= 2 && t.hidden == s.hidden && t.closed == s.closed
    requires multiset(t.stashed) + multiset{g} == multiset(s.stashed)
    requires multiset(FlattenAll(t.stashed)) + multiset(Flatten(g)) == multiset(FlattenAll(s.stashed))
    ensures Holding(t) == Holding(s) && GroupsOf(t) == GroupsOf(s) && SolosOf(t) == SolosOf(s)
  {
    assert multiset(Shown(s.root)) == multiset{};
    assert multiset([g]) == multiset{g};
  }

  /** Bringing a hidden solo back from a state in which nothing is visible. */
  lemma RestoreSolo(s: GridState, id: string)
    requires Inv(s) && s.root.None? && HasId(s.hidden, id)
    ensures var p := Find(s.hidden, id).value;
            var t := s.(root := Some(Leaf(p)), activePanelId := Some(id), hidden := Without(s.hidden, id));
            Inv(t) && Holding(t) == Holding(s) && GroupsOf(t) == GroupsOf(s) && SolosOf(t) == SolosOf(s)
  {
    var p := Find(s.hidden, id).value;
    var t := s.(root := Some(Leaf(p)), activePanelId := Some(id), hidden := Without(s.hidden, id));
    TakenHidden(s, id);
    assert CountId([p], id) == 1;
    Conserving(s, t);
  }

  /** Activating a panel outside the visible tree parks the tree and restores the panel's group or the solo. */
  lemma ActivateIsParkThenRestore(s: GridState, id: string)
    requires Inv(s) && !HasId(Shown(s.root), id)
    ensures var p := ParkedState(s);
            && (HasId(FlattenAll(s.stashed), id) ==>
                  && GroupHolding(s.stashed, id).Some?
                  && var g := GroupHolding(s.stashed, id).value;
                  && g in p.stashed && HasId(Flatten(g), id)
                  && ActivatePanel(s, id)
                     == p.(root := Some(g), activePanelId := Some(id), stashed := WithoutGroup(p.stashed, g)))
            && (!HasId(FlattenAll(s.stashed), id) && HasId(s.hidden, id) ==>
                  && HasId(p.hidden, id)
                  && ActivatePanel(s, id) == p.(root := Some(Leaf(Find(p.hidden, id).value)), activePanelId := Some(id),
                                                hidden := Without(p.hidden, id)))
            && (!HasId(FlattenAll(s.stashed), id) && !HasId(s.hidden, id) ==> ActivatePanel(s, id) == s)
  {
    FindInRootIsFind(s.root, id);
    GroupHoldingMeaning(s.stashed, id);
    var panels := Shown(s.root);
    if s.root.Some? && |panels| == 1 {
      assert panels == [panels[0]] && CountId(panels, panels[0].id) == 1;
      assert Count(s, panels[0].id) <= 1;
      WithoutAbsent(s.hidden, panels[0].id);
      assert CountId(panels, id) == 0;
      assert ([panels[0]] + s.hidden)[1..] == s.hidden;
    }
    if s.root.Some? {
      ShowsSomething(s.root.value);
    }
  }

  /**
   * Activation never breaks a group: the trees of two or more panels, and the panels standing alone, are
   * the same before and after, wherever the activated panel was.
   */
  lemma ActivateKeepsGroups(s: GridState, id: string)
    requires Inv(s)
    ensures var t := ActivatePanel(s, id);
            && GroupsOf(t) == GroupsOf(s) && SolosOf(t) == SolosOf(s)
            && Holding(t) == Holding(s) && Inv(t)
  {
    FindInRootIsFind(s.root, id);
    if HasId(Shown(s.root), id) {
      Conserving(s, ActivatePanel(s, id));
    } else {
      var p := ParkedState(s);
      ParkedInv(s);
      ActivateIsParkThenRestore(s, id);
      if HasId(FlattenAll(s.stashed), id) {
        RestoreGroup(p, GroupHolding(s.stashed, id).value, id);
      } else if HasId(s.hidden, id) {
        RestoreSolo(p, id);
      }
    }
  }

  /** A panel ends up visible and focused exactly when it was visible, stashed or hidden. */
  lemma ActivateShows(s: GridState, id: string)
    requires Inv(s)
    ensures HasId(Shown(ActivatePanel(s, id).root), id) <==>
              HasId(Shown(s.root), id) || HasId(FlattenAll(s.stashed), id) || HasId(s.hidden, id)
    ensures HasId(Shown(ActivatePanel(s, id).root), id) ==> ActivatePanel(s, id).activePanelId == Some(id)
  {
    FindInRootIsFind(s.root, id);
    if !HasId(Shown(s.root), id) {
      ActivateIsParkThenRestore(s, id);
      if !HasId(FlattenAll(s.stashed), id) && HasId(s.hidden, id) {
        var p := Find(ParkedState(s).hidden, id).value;
        assert CountId([p], id) == 1;
      }
    }
  }

  /** In a list with unique ids, the group found for a panel of `g` is `g`. */
  lemma {:induction false} GroupHoldingFinds(groups: seq<Node>, g: Node, id: string)
    requires g in groups && HasId(Flatten(g), id) && CountId(FlattenAll(groups), id) == 1
    ensures GroupHolding(groups, id) == Some(g)
  {
    CountConcat(Flatten(groups[0]), FlattenAll(groups[1..]), id);
    if g in groups[1..] {
      var k :| 0 <= k < |groups[1..]| && groups[1..][k] == g;
      ChildCounts(groups[1..], k, k, id);
      GroupHoldingFinds(groups[1..], g, id);
    }
  }

  /** Going somewhere else and coming back shows the tree that was shown before, splits and sizes included. */
  lemma ActivateAndReturn(s: GridState, id: string, back: string)
    requires Inv(s) && HasId(Shown(s.root), back)
    ensures ActivatePanel(ActivatePanel(s, id), back).root == s.root
  {
    var t := ActivatePanel(s, id);
    ActivateKeepsGroups(s, id);
    FindInRootIsFind(t.root, back);
    if t.root != s.root {
      assert Count(s, back) <= 1;
      HoldingFixesCount(s, t, back);
      ReturnFrom(s, t, back);
    }
  }

  lemma ReturnFrom(s: GridState, t: GridState, back: string)
    requires Inv(s) && Inv(t) && GroupsOf(t) == GroupsOf(s) && SolosOf(t) == SolosOf(s)
    requires t.root != s.root && HasId(Shown(s.root), back) && Count(t, back) == 1
    ensures ActivatePanel(t, back).root == s.root
  {
    var tree := s.root.value;
    ShowsSomething(tree);
    if |Flatten(tree)| >= 2 {
      StashedAfter(s, t, tree, back);
      ActivateIsParkThenRestore(t, back);
      GroupHoldingFinds(t.stashed, tree, back);
    } else {
      SingletonIsLeaf(tree);
      var p := tree.panel;
      assert Flatten(tree) == [p] && CountId([p], back) == 1 && p.id == back;
      HiddenAfter(s, t, p);
      ActivateIsParkThenRestore(t, back);
      ParkedFinds(t, p);
    }
  }

  /** Parking puts at most a different panel in front of the hidden ones. */
  lemma ParkedFinds(s: GridState, p: Panel)
    requires Inv(s) && Find(s.hidden, p.id) == Some(p)
    ensures Find(ParkedState(s).hidden, p.id) == Some(p)
  {
    assert Count(s, p.id) <= 1;
    var panels := Shown(s.root);
    if s.root.Some? && |panels| == 1 {
      assert panels == [panels[0]] && CountId(panels, panels[0].id) == 1;
      assert Count(s, panels[0].id) <= 1;
      WithoutAbsent(s.hidden, panels[0].id);
      assert ([panels[0]] + s.hidden)[1..] == s.hidden;
      assert CountId(panels, p.id) == 0;
    }
  }

  lemma StashedAfter(s: GridState, t: GridState, tree: Node, back: string)
    requires Inv(s) && Inv(t) && GroupsOf(t) == GroupsOf(s) && s.root == Some(tree) && |Flatten(tree)| >= 2
    requires t.root != s.root && HasId(Flatten(tree), back) && Count(t, back) == 1
    ensures tree in t.stashed && CountId(FlattenAll(t.stashed), back) == 1 && !HasId(Shown(t.root), back)
  {
    assert tree in GroupsOf(s);
    assert tree in GroupsOf(t);
    assert tree in t.stashed;
    var k :| 0 <= k < |t.stashed| && t.stashed[k] == tree;
    ChildCounts(t.stashed, k, k, back);
  }

  lemma HiddenAfter(s: GridState, t: GridState, p: Panel)
    requires Inv(s) && Inv(t) && SolosOf(t) == SolosOf(s) && s.root == Some(Leaf(p))
    requires t.root != s.root && Count(t, p.id) == 1
    ensures Find(t.hidden, p.id) == Some(p) && !HasId(Shown(t.root), p.id) && !HasId(FlattenAll(t.stashed), p.id)
  {
    assert p in SolosOf(s);
    if |Shown(t.root)| == 1 {
      SingletonIsLeaf(t.root.value);
      assert Shown(t.root) == [t.root.value.panel];
    }
    assert p in t.hidden;
    MemberHasId(t.hidden, p);
    FindsUnique(t.hidden, p);
  }

  lemma {:induction false} FindsUnique(ps: seq<Panel>, p: Panel)
    requires p in ps && CountId(ps, p.id) == 1
    ensures Find(ps, p.id) == Some(p)
  {
    if ps[0] != p {
      MemberHasId(ps[1..], p);
      FindsUnique(ps[1..], p);
    }
  }

  // ----- Runs -----

  /** The operations that only move panels; `side` of a link is never the centre. */
  datatype Op =
    | Close(id: string)
    | Hide(id: string)
    | ReplaceFocused(id: string)
    | Activate(id: string)
    | Link(id: string, targetId: string, direction: Direction, before: bool)
    | SplitHidden(id: string, horizontal: bool)
    | CloseHidden(id: string)
    | ReopenHidden(id: string)
    | Reopen(id: string)

  function LinkSide(direction: Direction, before: bool): DropSide {
    match direction
    case Row => if before then Left else Right
    case Column => if before then Top else Bottom
  }

  function Apply(s: GridState, op: Op): GridState {
    match op
    case Close(id) => ClosePanel(s, id)
    case Hide(id) => HidePanel(s, id)
    case ReplaceFocused(id) => ReplaceFocusedWithHidden(s, id)
    case Activate(id) => ActivatePanel(s, id)
    case Link(id, target, d, before) => LinkHiddenPanel(s, id, target, LinkSide(d, before))
    case SplitHidden(id, h) => SplitHiddenPanel(s, id, h)
    case CloseHidden(id) => CloseHiddenPanel(s, id)
    case ReopenHidden(id) => ReopenPanelHidden(s, id)
    case Reopen(id) => ReopenPanel(s, id)
  }

  function Run(s: GridState, ops: seq<Op>): GridState
    decreases ops
  {
    if ops == [] then s else Run(Apply(s, ops[0]), ops[1..])
  }

  lemma StepIsSafe(s: GridState, op: Op)
    requires Inv(s)
    ensures Inv(Apply(s, op)) && Holding(Apply(s, op)) == Holding(s)
  {
    match op
    case Close(id) => CloseConserves(s, id);
    case Hide(id) => HideConserves(s, id);
    case ReplaceFocused(id) => ReplaceFocusedConserves(s, id);
    case Activate(id) => ActivateKeepsGroups(s, id);
    case Link(id, target, d, before) => LinkConserves(s, id, target, LinkSide(d, before));
    case SplitHidden(id, h) => SplitHiddenConserves(s, id, h);
    case CloseHidden(id) => CloseHiddenConserves(s, id);
    case ReopenHidden(id) => ReopenHiddenConserves(s, id);
    case Reopen(id) => ReopenExactly(s, id);
  }

  /**
   * Over any sequence of operations with any ids the grid stays valid and the panels it holds, in the tree,
   * hidden, stashed or closed, are the panels it started with.
   */
  lemma {:induction false} RunIsSafe(s: GridState, ops: seq<Op>)
    requires Inv(s)
    ensures Inv(Run(s, ops)) && Holding(Run(s, ops)) == Holding(s)
    decreases ops
  {
    if ops != [] {
      StepIsSafe(s, ops[0]);
      RunIsSafe(Apply(s, ops[0]), ops[1..]);
    }
  }
}
