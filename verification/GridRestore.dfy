/**
 * What restoring guarantees: any JSON value becomes a valid grid, nothing usable is lost except repeated
 * ids, and a valid grid survives saving and restoring unchanged.
 */
module GridRestore {
  import opened Prelude
  import opened Json
  import opened Panels
  import opened SplitTree
  import opened PanelGrid
  import opened GridNormalize

  // ----- Which panels a saved value offers -----

  /** The usable panels below a saved node, in leaf order, repeated ids included. */
  function Offered(raw: Json, now: real): seq<Panel>
    decreases raw
  {
    if Field(raw, "kind") == JStr("leaf") then
      var p := ValidatePanel(Field(raw, "panel"), now);
      if p.Some? then [p.value] else []
    else if Field(raw, "kind") == JStr("split")
        && (Field(raw, "direction") == JStr("row") || Field(raw, "direction") == JStr("column"))
        && Field(raw, "children").JArr?
    then OfferedAll(raw.fields["children"].items, now)
    else []
  }

  function OfferedAll(raws: seq<Json>, now: real): seq<Panel>
    decreases raws
  {
    if raws == [] then [] else Offered(raws[0], now) + OfferedAll(raws[1..], now)
  }

  function OfferedPanels(raws: seq<Json>, now: real): seq<Panel> {
    if raws == [] then []
    else
      var p := ValidatePanel(raws[0], now);
      (if p.Some? then [p.value] else []) + OfferedPanels(raws[1..], now)
  }

  /** Root, hidden, stashed, closed: the order in which ids are claimed. */
  function AllOffered(raw: Json, now: real): seq<Panel> {
    Offered(Field(raw, "root"), now)
    + OfferedPanels(Items(Field(raw, "hiddenPanels")), now)
    + OfferedAll(RawGroups(raw), now)
    + OfferedPanels(Items(Field(raw, "closedPanels")), now)
  }

  function Ids(ps: seq<Panel>): set<string> {
    if ps == [] then {} else {ps[0].id} + Ids(ps[1..])
  }

  /** Keeps each panel whose id was not seen before. */
  function Firsts(ps: seq<Panel>, seen: set<string>): seq<Panel> {
    if ps == [] then []
    else if ps[0].id in seen then Firsts(ps[1..], seen)
    else [ps[0]] + Firsts(ps[1..], seen + {ps[0].id})
  }

  lemma {:induction false} IdsConcat(a: seq<Panel>, b: seq<Panel>)
    ensures Ids(a + b) == Ids(a) + Ids(b)
  {
    if a == [] {
      assert a + b == b;
    } else {
      assert (a + b)[1..] == a[1..] + b;
      IdsConcat(a[1..], b);
    }
  }

  lemma {:induction false} FirstsConcat(a: seq<Panel>, b: seq<Panel>, seen: set<string>)
    ensures Firsts(a + b, seen) == Firsts(a, seen) + Firsts(b, seen + Ids(a))
  {
    if a == [] {
      assert a + b == b && seen + Ids(a) == seen;
    } else {
      assert (a + b)[1..] == a[1..] + b;
      var seen' := if a[0].id in seen then seen else seen + {a[0].id};
      FirstsConcat(a[1..], b, seen');
      assert seen' + Ids(a[1..]) == seen + Ids(a);
    }
  }

  lemma {:induction false} FirstsUnique(ps: seq<Panel>, seen: set<string>, id: string)
    ensures CountId(Firsts(ps, seen), id) == if id in seen || id !in Ids(ps) then 0 else 1
  {
    if ps != [] {
      FirstsUnique(ps[1..], if ps[0].id in seen then seen else seen + {ps[0].id}, id);
    }
  }

  // ----- What validating keeps -----

  ghost predicate ValidSizes(sizes: seq<real>) {
    (forall i :: 0 <= i < |sizes| ==> sizes[i] >= MIN_SPLIT_SIZE) && NearOne(Sum(sizes))
  }

  /** Every split has sizes that would be accepted, or exactly equal shares. */
  ghost predicate SizesOk(n: Node)
    decreases n
  {
    match n
    case Leaf(_) => true
    case Split(_, cs, sizes) => (ValidSizes(sizes) || sizes == EqualShares(|cs|)) && SizesOkAll(cs)
  }

  ghost predicate SizesOkAll(ns: seq<Node>)
    decreases ns
  {
    ns == [] || (SizesOk(ns[0]) && SizesOkAll(ns[1..]))
  }

  /** Every split's sizes sum to 1 within the tolerance. */
  ghost predicate SumsNearOne(n: Node)
    decreases n
  {
    match n
    case Leaf(_) => true
    case Split(_, cs, sizes) => NearOne(Sum(sizes)) && forall i :: 0 <= i < |cs| ==> SumsNearOne(cs[i])
  }

  lemma {:induction false} SizesOkSums(n: Node)
    requires SizesOk(n) && WellFormed(n)
    ensures SumsNearOne(n)
    decreases n
  {
    if n.Split? {
      EqualSharesSum(|n.children|);
      forall i | 0 <= i < |n.children| ensures SumsNearOne(n.children[i]) {
        SizesOkAt(n.children, i);
        WellFormedAt(n.children, i);
        SizesOkSums(n.children[i]);
      }
    }
  }

  lemma {:induction false} SizesOkAt(ns: seq<Node>, i: nat)
    requires i < |ns| && SizesOkAll(ns)
    ensures SizesOk(ns[i])
  {
    if i > 0 {
      SizesOkAt(ns[1..], i - 1);
    }
  }

  lemma {:induction false} SizesOkConcat(a: seq<Node>, b: seq<Node>)
    ensures SizesOkAll(a + b) <==> SizesOkAll(a) && SizesOkAll(b)
  {
    if a == [] {
      assert a + b == b;
    } else {
      assert (a + b)[1..] == a[1..] + b;
      SizesOkConcat(a[1..], b);
    }
  }

  /** A panel as the validator writes it: tabs only in the plural, and then one of them named active. */
  ghost predicate Canonical(p: Panel) {
    && p.id != ""
    && (p.tabs.None? <==> p.activeTabId.None?)
    && (p.tabs.Some? ==> |p.tabs.value| >= 2 && forall i :: 0 <= i < |p.tabs.value| ==> p.tabs.value[i].id != "")
  }

  ghost predicate CanonicalAll(ps: seq<Panel>) {
    forall i :: 0 <= i < |ps| ==> Canonical(ps[i])
  }

  lemma {:induction false} ValidTabsNamed(raws: seq<Json>, now: real)
    ensures forall i :: 0 <= i < |ValidateTabs(raws, now)| ==> ValidateTabs(raws, now)[i].id != ""
  {
    if raws != [] {
      ValidTabsNamed(raws[1..], now);
    }
  }

  lemma ValidPanelCanonical(raw: Json, now: real)
    ensures ValidatePanel(raw, now).Some? ==> Canonical(ValidatePanel(raw, now).value)
  {
    ValidTabsNamed(Items(Field(raw, "tabs")), now);
  }

  /** A validated subtree shows exactly the first occurrences of what the value offers, in order. */
  lemma {:induction false} NodeSpecKeeps(raw: Json, now: real, seen: set<string>)
    ensures var v := NodeSpec(raw, now, seen);
            && Shown(v.result) == Firsts(Offered(raw, now), seen)
            && v.seen == seen + Ids(Offered(raw, now))
            && (v.result.Some? ==> WellFormed(v.result.value) && SizesOk(v.result.value))
            && CanonicalAll(Offered(raw, now))
    decreases raw
  {
    if IsObject(raw) && Field(raw, "kind") == JStr("leaf") {
      ValidPanelCanonical(Field(raw, "panel"), now);
      var p := ValidatePanel(Field(raw, "panel"), now);
      if p.Some? {
        assert Firsts([p.value], seen) == (if p.value.id in seen then [] else [p.value]) + [] by {
          assert [p.value][1..] == [];
        }
        assert Ids([p.value]) == {p.value.id} + Ids([]);
      }
    } else if IsObject(raw) && Field(raw, "kind") == JStr("split") && ParseDirection(Field(raw, "direction")).Some?
              && Field(raw, "children").JArr? {
      var raws := raw.fields["children"].items;
      NodesSpecKeeps(raws, now, seen);
      var v := NodesSpec(raws, now, seen);
      BuildSplitKeeps(ParseDirection(Field(raw, "direction")).value, v, Get(raw, "sizes"));
    }
  }

  lemma {:induction false} NodesSpecKeeps(raws: seq<Json>, now: real, seen: set<string>)
    ensures var v := NodesSpec(raws, now, seen);
            && FlattenAll(v.result) == Firsts(OfferedAll(raws, now), seen)
            && v.seen == seen + Ids(OfferedAll(raws, now))
            && WellFormedAll(v.result) && SizesOkAll(v.result)
            && CanonicalAll(OfferedAll(raws, now))
    decreases raws
  {
    if raws != [] {
      var head := NodeSpec(raws[0], now, seen);
      NodeSpecKeeps(raws[0], now, seen);
      NodesSpecKeeps(raws[1..], now, head.seen);
      var kept := if head.result.Some? then [head.result.value] else [];
      var rest := NodesSpec(raws[1..], now, head.seen).result;
      FirstsConcat(Offered(raws[0], now), OfferedAll(raws[1..], now), seen);
      IdsConcat(Offered(raws[0], now), OfferedAll(raws[1..], now));
      FlattenConcat(kept, rest);
      WellFormedConcat(kept, rest);
      SizesOkConcat(kept, rest);
      if head.result.Some? {
        FlattenOne(head.result.value);
      }
    }
  }

  lemma BuildSplitKeeps(direction: Direction, v: Visit<seq<Node>>, rawSizes: Option<Json>)
    requires WellFormedAll(v.result) && SizesOkAll(v.result)
    ensures var b := BuildSplit(direction, v, rawSizes);
            && Shown(b.result) == FlattenAll(v.result) && b.seen == v.seen
            && (b.result.Some? ==> WellFormed(b.result.value) && SizesOk(b.result.value))
  {
    if |v.result| == 1 {
      FlattenOne(v.result[0]);
    }
  }

  lemma {:induction false} PanelsSpecKeeps(raws: seq<Json>, now: real, seen: set<string>)
    ensures var v := PanelsSpec(raws, now, seen);
            && v.result == Firsts(OfferedPanels(raws, now), seen)
            && v.seen == seen + Ids(OfferedPanels(raws, now))
            && CanonicalAll(OfferedPanels(raws, now))
  {
    if raws != [] {
      var p := ValidatePanel(raws[0], now);
      ValidPanelCanonical(raws[0], now);
      if p.Some? {
        PanelsSpecKeeps(raws[1..], now, if p.value.id in seen then seen else seen + {p.value.id});
        assert OfferedPanels(raws, now)[1..] == OfferedPanels(raws[1..], now);
      } else {
        PanelsSpecKeeps(raws[1..], now, seen);
        assert OfferedPanels(raws, now) == OfferedPanels(raws[1..], now);
      }
    }
  }

  /** A group down to one panel is demoted to a hidden panel; together nothing is lost. */
  lemma {:induction false} GroupsSpecKeeps(raws: seq<Json>, now: real, seen: set<string>)
    ensures var v := GroupsSpec(raws, now, seen);
            && multiset(FlattenAll(v.result.0)) + multiset(v.result.1) == multiset(Firsts(OfferedAll(raws, now), seen))
            && v.seen == seen + Ids(OfferedAll(raws, now))
            && GroupsWellFormed(v.result.0) && SizesOkAll(v.result.0)
            && CanonicalAll(OfferedAll(raws, now))
  {
    if raws != [] {
      var head := NodeSpec(raws[0], now, seen);
      NodeSpecKeeps(raws[0], now, seen);
      GroupsSpecKeeps(raws[1..], now, head.seen);
      FirstsConcat(Offered(raws[0], now), OfferedAll(raws[1..], now), seen);
      IdsConcat(Offered(raws[0], now), OfferedAll(raws[1..], now));
      var tail := GroupsSpec(raws[1..], now, head.seen).result;
      if head.result.Some? {
        ShowsSomething(head.result.value);
      }
      KeptOrDemoted(head.result, tail.0, tail.1);
    }
  }

  lemma KeptOrDemoted(tree: Option<Node>, groups: seq<Node>, demoted: seq<Panel>)
    requires GroupsWellFormed(groups) && SizesOkAll(groups)
    requires tree.Some? ==> WellFormed(tree.value) && SizesOk(tree.value) && |Shown(tree)| >= 1
    ensures var groups' := (if |Shown(tree)| >= 2 then [tree.value] else []) + groups;
            var demoted' := (if |Shown(tree)| == 1 then Shown(tree) else []) + demoted;
            && multiset(FlattenAll(groups')) + multiset(demoted')
               == multiset(Shown(tree)) + (multiset(FlattenAll(groups)) + multiset(demoted))
            && GroupsWellFormed(groups') && SizesOkAll(groups')
  {
    if |Shown(tree)| >= 2 {
      KeptGroup(tree.value, groups);
      assert [] + demoted == demoted;
    } else {
      assert [] + groups == groups;
    }
  }

  lemma KeptGroup(g: Node, groups: seq<Node>)
    requires GroupsWellFormed(groups) && SizesOkAll(groups)
    requires WellFormed(g) && SizesOk(g) && |Flatten(g)| >= 2
    ensures GroupsWellFormed([g] + groups) && SizesOkAll([g] + groups)
    ensures FlattenAll([g] + groups) == Flatten(g) + FlattenAll(groups)
  {
    FlattenConcat([g], groups);
    FlattenOne(g);
    SizesOkConcat([g], groups);
    assert SizesOkAll([g]) by {
      assert [g][1..] == [];
    }
  }

  // ----- Valid states -----

  /** A state as restoring produces it. */
  ghost predicate NormalForm(s: GridState) {
    && Inv(s)
    && (s.root.Some? ==> SizesOk(s.root.value))
    && SizesOkAll(s.stashed)
    && CanonicalAll(Shown(s.root)) && CanonicalAll(s.hidden) && CanonicalAll(FlattenAll(s.stashed))
        && CanonicalAll(s.closed)
  }

  lemma {:induction false} FirstsCanonical(ps: seq<Panel>, seen: set<string>)
    requires CanonicalAll(ps)
    ensures CanonicalAll(Firsts(ps, seen))
  {
    if ps != [] {
      FirstsCanonical(ps[1..], if ps[0].id in seen then seen else seen + {ps[0].id});
    }
  }

  lemma {:induction false} CanonicalIdsNamed(ps: seq<Panel>)
    requires CanonicalAll(ps)
    ensures "" !in Ids(ps)
  {
    if ps != [] {
      assert Canonical(ps[0]);
      CanonicalIdsNamed(ps[1..]);
    }
  }

  lemma CanonicalMultiset(a: seq<Panel>, b: seq<Panel>, c: seq<Panel>)
    requires multiset(a) + multiset(b) == multiset(c) && CanonicalAll(c)
    ensures CanonicalAll(a) && CanonicalAll(b)
  {
    forall i | 0 <= i < |a| ensures Canonical(a[i]) {
      assert a[i] in multiset(c);
    }
    forall i | 0 <= i < |b| ensures Canonical(b[i]) {
      assert b[i] in multiset(c);
    }
  }

  /** Region by region. */
  lemma RegionsKeep(raw: Json, now: real) returns (demoted: seq<Panel>)
    requires IsObject(raw)
    ensures var s := NormalizeSpec(raw, now).state;
            var a := Ids(Offered(Field(raw, "root"), now));
            var b := Ids(OfferedPanels(Items(Field(raw, "hiddenPanels")), now));
            var c := Ids(OfferedAll(RawGroups(raw), now));
            && Shown(s.root) == Firsts(Offered(Field(raw, "root"), now), {})
            && s.hidden == Firsts(OfferedPanels(Items(Field(raw, "hiddenPanels")), now), {} + a) + demoted
            && multiset(FlattenAll(s.stashed)) + multiset(demoted)
                == multiset(Firsts(OfferedAll(RawGroups(raw), now), {} + a + b))
            && s.closed == Firsts(OfferedPanels(Items(Field(raw, "closedPanels")), now), {} + a + b + c)
  {
    var root := NodeSpec(Field(raw, "root"), now, {});
    var hidden := PanelsSpec(Items(Field(raw, "hiddenPanels")), now, root.seen);
    var groups := GroupsSpec(RawGroups(raw), now, hidden.seen);
    NodeSpecKeeps(Field(raw, "root"), now, {});
    PanelsSpecKeeps(Items(Field(raw, "hiddenPanels")), now, root.seen);
    GroupsSpecKeeps(RawGroups(raw), now, hidden.seen);
    PanelsSpecKeeps(Items(Field(raw, "closedPanels")), now, groups.seen);
    demoted := groups.result.1;
  }

  /**
   * The panels of a restored grid are exactly the first occurrences of the panels the value offers, in the
   * order root, hidden, stashed, closed; the visible tree keeps its order.
   */
  lemma NormalizeKeepsFirsts(raw: Json, now: real)
    requires IsObject(raw)
    ensures var s := NormalizeSpec(raw, now).state;
            && Holding(s) == multiset(Firsts(AllOffered(raw, now), {}))
            && Shown(s.root) == Firsts(Offered(Field(raw, "root"), now), {})
  {
    var a, b := Offered(Field(raw, "root"), now), OfferedPanels(Items(Field(raw, "hiddenPanels")), now);
    var c, d := OfferedAll(RawGroups(raw), now), OfferedPanels(Items(Field(raw, "closedPanels")), now);
    var demoted := RegionsKeep(raw, now);
    FirstsOfFour(a, b, c, d);
    HoldingOfParts(NormalizeSpec(raw, now).state, Firsts(a, {}), Firsts(b, {} + Ids(a)), demoted,
                   Firsts(c, {} + Ids(a) + Ids(b)), Firsts(d, {} + Ids(a) + Ids(b) + Ids(c)));
  }

  lemma OfferedCanonical(raw: Json, now: real)
    ensures CanonicalAll(AllOffered(raw, now))
  {
    NodeSpecKeeps(Field(raw, "root"), now, {});
    PanelsSpecKeeps(Items(Field(raw, "hiddenPanels")), now, {});
    GroupsSpecKeeps(RawGroups(raw), now, {});
    PanelsSpecKeeps(Items(Field(raw, "closedPanels")), now, {});
  }

  lemma FirstsOfFour(a: seq<Panel>, b: seq<Panel>, c: seq<Panel>, d: seq<Panel>)
    ensures Firsts(a + b + c + d, {})
         == Firsts(a, {}) + Firsts(b, {} + Ids(a)) + Firsts(c, {} + Ids(a) + Ids(b))
             + Firsts(d, {} + Ids(a) + Ids(b) + Ids(c))
  {
    FirstsConcat(a + b + c, d, {});
    FirstsConcat(a + b, c, {});
    FirstsConcat(a, b, {});
    IdsConcat(a + b, c);
    IdsConcat(a, b);
    assert {} + Ids(a + b) == {} + Ids(a) + Ids(b) && {} + Ids(a + b + c) == {} + Ids(a) + Ids(b) + Ids(c);
  }

  lemma HoldingOfParts(s: GridState, fa: seq<Panel>, fb: seq<Panel>, demoted: seq<Panel>, fc: seq<Panel>,
      fd: seq<Panel>)
    requires Shown(s.root) == fa && s.hidden == fb + demoted && s.closed == fd
    requires multiset(FlattenAll(s.stashed)) + multiset(demoted) == multiset(fc)
    ensures Holding(s) == multiset(fa + fb + fc + fd)
  {
    assert multiset(s.hidden) == multiset(fb) + multiset(demoted);
  }

  /** Whatever was saved, what is restored is a valid state in normal form. */
  lemma NormalizeEstablishes(raw: Json, now: real)
    ensures NormalForm(NormalizeSpec(raw, now).state)
  {
    var s := NormalizeSpec(raw, now).state;
    if IsObject(raw) {
      NormalizeKeepsFirsts(raw, now);
      OfferedCanonical(raw, now);
      var all := AllOffered(raw, now);
      forall id ensures Count(s, id) <= 1 {
        RestoredCount(s, all, id);
      }
      RestoredCount(s, all, "");
      CanonicalIdsNamed(all);
      RestoredParts(raw, now);
    }
  }

  lemma RestoredCount(s: GridState, all: seq<Panel>, id: string)
    requires Holding(s) == multiset(Firsts(all, {}))
    ensures Count(s, id) == if id in Ids(all) then 1 else 0
  {
    CountMeaning(s, id);
    FirstsUnique(all, {}, id);
    assert multiset(AllPanels(s)) == Holding(s);
    CountPermutation(AllPanels(s), Firsts(all, {}), id);
  }

  lemma RestoredParts(raw: Json, now: real)
    requires IsObject(raw)
    ensures var s := NormalizeSpec(raw, now).state;
            && (s.root.Some? ==> WellFormed(s.root.value) && SizesOk(s.root.value))
            && GroupsWellFormed(s.stashed) && SizesOkAll(s.stashed) && ActiveIsLive(s)
            && CanonicalAll(Shown(s.root)) && CanonicalAll(s.hidden) && CanonicalAll(FlattenAll(s.stashed))
                && CanonicalAll(s.closed)
  {
    var s := NormalizeSpec(raw, now).state;
    var root := NodeSpec(Field(raw, "root"), now, {});
    var hidden := PanelsSpec(Items(Field(raw, "hiddenPanels")), now, root.seen);
    var groups := GroupsSpec(RawGroups(raw), now, hidden.seen);
    NodeSpecKeeps(Field(raw, "root"), now, {});
    PanelsSpecKeeps(Items(Field(raw, "hiddenPanels")), now, root.seen);
    GroupsSpecKeeps(RawGroups(raw), now, hidden.seen);
    PanelsSpecKeeps(Items(Field(raw, "closedPanels")), now, groups.seen);
    FirstsCanonical(Offered(Field(raw, "root"), now), {});
    FirstsCanonical(OfferedPanels(Items(Field(raw, "hiddenPanels")), now), root.seen);
    FirstsCanonical(OfferedAll(RawGroups(raw), now), hidden.seen);
    FirstsCanonical(OfferedPanels(Items(Field(raw, "closedPanels")), now), groups.seen);
    CanonicalMultiset(FlattenAll(s.stashed), groups.result.1, Firsts(OfferedAll(RawGroups(raw), now), hidden.seen));
    RepairedActive(s.root, Field(raw, "activePanelId"));
  }

  lemma RepairedActive(root: Option<Node>, rawActive: Json)
    requires root.Some? ==> WellFormed(root.value)
    ensures ActiveIsLive(GridState(root, RepairActive(root, rawActive).0, [], [], []))
  {
    if root.Some? {
      ShowsSomething(root.value);
      MemberHasId(Shown(root), Shown(root)[0]);
    }
    if rawActive.JStr? {
      FindInRootIsFind(root, rawActive.s);
    }
  }
}
