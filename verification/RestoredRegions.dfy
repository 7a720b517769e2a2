/**
 * Into which region restoring puts the panels of a saved grid, also of one saved before there were several
 * stashed groups (src/lib/panelGrid.ts).
 */
module RestoredRegions {
  import opened Prelude
  import opened Json
  import opened Panels
  import opened SplitTree
  import opened PanelGrid
  import opened GridNormalize
  import opened GridRestore
  import GridSave

  /** What each of the saved trees in turn adds to the panels seen so far. */
  function Parts(raws: seq<Json>, now: real, seen: set<string>): seq<seq<Panel>> {
    if raws == [] then []
    else [Firsts(Offered(raws[0], now), seen)] + Parts(raws[1..], now, seen + Ids(Offered(raws[0], now)))
  }

  function Groups(parts: seq<seq<Panel>>): seq<seq<Panel>> {
    if parts == [] then [] else (if |parts[0]| >= 2 then [parts[0]] else []) + Groups(parts[1..])
  }

  function Solos(parts: seq<seq<Panel>>): seq<Panel> {
    if parts == [] then [] else (if |parts[0]| == 1 then parts[0] else []) + Solos(parts[1..])
  }

  /** The panels of each tree, in on-screen order. */
  function Orders(trees: seq<Node>): seq<seq<Panel>> {
    if trees == [] then [] else [Flatten(trees[0])] + Orders(trees[1..])
  }

  lemma {:induction false} GroupsInOrder(raws: seq<Json>, now: real, seen: set<string>)
    ensures var (groups, solos) := GroupsSpec(raws, now, seen).result;
            var parts := Parts(raws, now, seen);
            Orders(groups) == Groups(parts) && solos == Solos(parts)
  {
    if raws != [] {
      var head := NodeSpec(raws[0], now, seen);
      NodeSpecKeeps(raws[0], now, seen);
      GroupsInOrder(raws[1..], now, head.seen);
      var groups := GroupsSpec(raws[1..], now, head.seen).result.0;
      if |Shown(head.result)| >= 2 {
        assert ([head.result.value] + groups)[1..] == groups;
      } else {
        assert [] + groups == groups;
      }
    }
  }

  /** The saved trees of stashed groups: the list, or else the single tree that older versions wrote. */
  ghost predicate SavesGroups(raw: Json, saved: seq<Json>) {
    if Field(raw, "stashedGroups").JArr? then Field(raw, "stashedGroups") == JArr(saved)
    else saved == if Field(raw, "stashedRoot") == JNull then [] else [Field(raw, "stashedRoot")]
  }

  /**
   * Every region of a restored grid. Ids are claimed in the order root, hidden, stashed, closed. A saved tree that
   * still adds several panels is a group, in the order of the trees; one that adds a single panel gives a hidden one.
   */
  lemma RestoredExactly(raw: Json, now: real, saved: seq<Json>)
    requires IsObject(raw) && SavesGroups(raw, saved)
    ensures var s := NormalizeSpec(raw, now).state;
            var root := Offered(Field(raw, "root"), now);
            var hidden := OfferedPanels(Items(Field(raw, "hiddenPanels")), now);
            var stashed := OfferedAll(saved, now);
            var closed := OfferedPanels(Items(Field(raw, "closedPanels")), now);
            var parts := Parts(saved, now, Ids(root) + Ids(hidden));
            && Holding(s) == multiset(Firsts(root + hidden + stashed + closed, {}))
            && Shown(s.root) == Firsts(root, {})
            && s.hidden == Firsts(hidden, Ids(root)) + Solos(parts)
            && Orders(s.stashed) == Groups(parts)
            && s.closed == Firsts(closed, Ids(root) + Ids(hidden) + Ids(stashed))
  {
    RestoredHolding(raw, now, saved);
    RestoredGroups(raw, now, saved);
    NoneBefore(Ids(Offered(Field(raw, "root"), now)));
  }

  lemma NoneBefore(seen: set<string>)
    ensures {} + seen == seen
  {
  }

  lemma RestoredHolding(raw: Json, now: real, saved: seq<Json>)
    requires IsObject(raw) && RawGroups(raw) == saved
    ensures var s := NormalizeSpec(raw, now).state;
            && Holding(s) == multiset(Firsts(Offered(Field(raw, "root"), now)
                                             + OfferedPanels(Items(Field(raw, "hiddenPanels")), now)
                                             + OfferedAll(saved, now)
                                             + OfferedPanels(Items(Field(raw, "closedPanels")), now), {}))
            && Shown(s.root) == Firsts(Offered(Field(raw, "root"), now), {})
  {
    NormalizeKeepsFirsts(raw, now);
  }

  /** The regions behind the visible tree. */
  lemma RestoredGroups(raw: Json, now: real, saved: seq<Json>)
    requires IsObject(raw) && RawGroups(raw) == saved
    ensures var s := NormalizeSpec(raw, now).state;
            var a := {} + Ids(Offered(Field(raw, "root"), now));
            var b := a + Ids(OfferedPanels(Items(Field(raw, "hiddenPanels")), now));
            && s.hidden
               == Firsts(OfferedPanels(Items(Field(raw, "hiddenPanels")), now), a) + Solos(Parts(saved, now, b))
            && Orders(s.stashed) == Groups(Parts(saved, now, b))
            && s.closed
               == Firsts(OfferedPanels(Items(Field(raw, "closedPanels")), now), b + Ids(OfferedAll(saved, now)))
  {
    var root := NodeSpec(Field(raw, "root"), now, {});
    var hidden := PanelsSpec(Items(Field(raw, "hiddenPanels")), now, root.seen);
    var groups := GroupsSpec(saved, now, hidden.seen);
    NodeSpecKeeps(Field(raw, "root"), now, {});
    PanelsSpecKeeps(Items(Field(raw, "hiddenPanels")), now, root.seen);
    GroupsSpecKeeps(saved, now, hidden.seen);
    GroupsInOrder(saved, now, hidden.seen);
    PanelsSpecKeeps(Items(Field(raw, "closedPanels")), now, groups.seen);
  }

  lemma {:induction false} OneTree(tree: Json, now: real, seen: set<string>)
    ensures Parts([tree], now, seen) == [Firsts(Offered(tree, now), seen)]
    ensures OfferedAll([tree], now) == Offered(tree, now)
  {
    var rest := [tree][1..];
    assert rest == [];
    assert Parts(rest, now, seen + Ids(Offered(tree, now))) == [] && OfferedAll(rest, now) == [];
  }

  /** A grid saved with a single stashed tree keeps it: as a group, as a hidden panel, or not at all. */
  lemma StashedRootRestored(raw: Json, now: real)
    requires IsObject(raw) && !Field(raw, "stashedGroups").JArr? && Field(raw, "stashedRoot") != JNull
    ensures var s := NormalizeSpec(raw, now).state;
            var root := Offered(Field(raw, "root"), now);
            var hidden := OfferedPanels(Items(Field(raw, "hiddenPanels")), now);
            var stashed := Offered(Field(raw, "stashedRoot"), now);
            var closed := OfferedPanels(Items(Field(raw, "closedPanels")), now);
            var part := Firsts(stashed, Ids(root) + Ids(hidden));
            && Holding(s) == multiset(Firsts(root + hidden + stashed + closed, {}))
            && Orders(s.stashed) == (if |part| >= 2 then [part] else [])
            && s.hidden == Firsts(hidden, Ids(root)) + (if |part| == 1 then part else [])
  {
    var tree := Field(raw, "stashedRoot");
    var seen := Ids(Offered(Field(raw, "root"), now)) + Ids(OfferedPanels(Items(Field(raw, "hiddenPanels")), now));
    RestoredExactly(raw, now, [tree]);
    OneTree(tree, now, seen);
    OnePart(Parts([tree], now, seen), Firsts(Offered(tree, now), seen));
  }

  lemma OnePart(parts: seq<seq<Panel>>, part: seq<Panel>)
    requires parts == [part]
    ensures Groups(parts) == if |part| >= 2 then [part] else []
    ensures Solos(parts) == if |part| == 1 then part else []
  {
    assert parts[1..] == [];
  }

  /** Where there is a list of stashed groups, even an empty one, a single stashed tree is not read. */
  lemma StashedRootIgnored(fields: map<string, Json>, tree: Json, now: real)
    requires "stashedGroups" in fields && fields["stashedGroups"].JArr?
    ensures NormalizeSpec(JObj(fields["stashedRoot" := tree]), now) == NormalizeSpec(JObj(fields), now)
  {
    var a, b := JObj(fields["stashedRoot" := tree]), JObj(fields);
    assert Field(a, "root") == Field(b, "root") && Field(a, "hiddenPanels") == Field(b, "hiddenPanels");
    assert Field(a, "closedPanels") == Field(b, "closedPanels");
    assert Field(a, "activePanelId") == Field(b, "activePanelId");
    assert Field(a, "stashedGroups") == Field(b, "stashedGroups");
  }

  /** The saved focus is kept where it is on screen; otherwise the first panel has it, and none in an empty layout. */
  lemma ActiveRestored(raw: Json, now: real)
    requires IsObject(raw)
    ensures var s := NormalizeSpec(raw, now).state;
            var active := Field(raw, "activePanelId");
            s.activePanelId == if active.JStr? && HasId(Shown(s.root), active.s) then Some(active.s)
                               else FirstId(Shown(s.root))
  {
    var root := NodeSpec(Field(raw, "root"), now, {}).result;
    if Field(raw, "activePanelId").JStr? {
      FindInRootIsFind(root, Field(raw, "activePanelId").s);
    }
  }

  // ----- What is usable as a panel -----

  /** A value of the right type is taken; any other is as if it were missing. */
  ghost predicate ReadsText(j: Json, s: Option<string>) {
    if s.Some? then j == JStr(s.value) else !j.JStr?
  }

  ghost predicate ReadsNumber(j: Json, n: Option<real>) {
    if n.Some? then j == JNum(n.value) else !j.JNum?
  }

  /** The value describes this tab, created now if it does not say when. */
  ghost predicate Describes(raw: Json, t: PanelTab, now: real) {
    && t.id != "" && Field(raw, "id") == JStr(t.id)
    && Field(raw, "type") == JStr(TypeName(t.kind))
    && Field(raw, "title") == JStr(t.title)
    && ReadsText(Field(raw, "chatSessionId"), t.chatSessionId)
    && ReadsNumber(Field(raw, "terminalId"), t.terminalId)
    && ReadsText(Field(raw, "filePath"), t.filePath)
    && (ReadsNumber(Field(raw, "createdAt"), Some(t.createdAt))
        || (ReadsNumber(Field(raw, "createdAt"), None) && t.createdAt == now))
  }

  /** A value is usable as a tab exactly when it describes one: a name, one of the five kinds and a title. */
  lemma TabRestored(raw: Json, now: real, t: PanelTab)
    ensures ValidateTab(raw, now) == Some(t) <==> Describes(raw, t, now)
  {
    TypeNamed(Str(Field(raw, "type")).GetOr(""));
    GridSave.TypeNameParses(t.kind);
  }

  lemma TypeNamed(s: string)
    ensures ParseType(s).Some? ==> TypeName(ParseType(s).value) == s
  {
  }

  /** The usable ones of some values, in order, together with those of some more. */
  lemma {:induction false} TabsConcat(raws: seq<Json>, more: seq<Json>, now: real)
    ensures ValidateTabs(raws + more, now) == ValidateTabs(raws, now) + ValidateTabs(more, now)
  {
    if raws == [] {
      assert raws + more == more;
    } else {
      var rest, all := raws[1..], raws + more;
      assert all[1..] == rest + more && all[0] == raws[0];
      TabsConcat(rest, more, now);
      var first := if ValidateTab(raws[0], now).Some? then [ValidateTab(raws[0], now).value] else [];
      Regrouped(first, ValidateTabs(rest, now), ValidateTabs(more, now));
    }
  }

  lemma Regrouped<T>(a: seq<T>, b: seq<T>, c: seq<T>)
    ensures a + (b + c) == a + b + c
  {
  }

  /** Unusable tabs are left out, and no other. */
  lemma TabsRestored(raws: seq<Json>, raw: Json, now: real)
    ensures ValidateTabs(raws + [raw], now)
         == ValidateTabs(raws, now)
            + (if ValidateTab(raw, now).Some? then [ValidateTab(raw, now).value] else [])
  {
    TabsConcat(raws, [raw], now);
    assert [raw][1..] == [];
  }

  /** A panel is what its own value describes as a tab, with the usable tabs if there are several of them. */
  lemma PanelRestored(raw: Json, now: real, p: Panel)
    ensures ValidatePanel(raw, now) == Some(p) <==>
            var tabs := ValidateTabs(Items(Field(raw, "tabs")), now);
            && Describes(raw, PanelToTab(p), now)
            && ReadsNumber(Field(raw, "lastUsedAt"), p.lastUsedAt)
            && p.tabs == (if |tabs| > 1 then Some(tabs) else None)
            && (|tabs| <= 1 ==> p.activeTabId == None)
            && (|tabs| > 1 ==>
                 var named := Field(raw, "activeTabId");
                 p.activeTabId == Some(if named.JStr? then named.s else tabs[0].id))
  {
    TabRestored(raw, now, PanelToTab(p));
    var items := Items(Field(raw, "tabs"));
    FewTabs(items, now);
  }

  lemma {:induction false} FewTabs(raws: seq<Json>, now: real)
    ensures |ValidateTabs(raws, now)| <= |raws|
  {
    if raws != [] {
      FewTabs(raws[1..], now);
    }
  }

  // ----- Sizes -----

  /** Saved sizes are taken exactly when there is one for each child, all at least 0.1, and they sum to about one. */
  lemma SizesTakenExactly(raw: Json, n: nat, sizes: seq<real>)
    ensures AcceptedSizes(raw, n) == Some(sizes) <==>
            && raw.JArr? && |raw.items| == n == |sizes|
            && (forall i :: 0 <= i < n ==> raw.items[i] == JNum(sizes[i]) && sizes[i] >= 0.1)
            && 0.98 <= Sum(sizes) <= 1.02
  {
    if raw.JArr? && |raw.items| == n && forall i :: 0 <= i < n ==> IsValidSize(raw.items[i]) {
      var read := Numbers(raw.items);
      if |sizes| == n && forall i :: 0 <= i < n ==> raw.items[i] == JNum(sizes[i]) {
        assert read == sizes;
      }
    }
  }
}
