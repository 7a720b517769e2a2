/**
 * Saving a grid as a JSON value and restoring it: restoring is a left inverse of saving on valid states,
 * hence idempotent, and complains exactly about an empty grid or undersized shares.
 */
module GridSave {
  import opened Prelude
  import opened Json
  import opened Panels
  import opened SplitTree
  import opened PanelGrid
  import opened GridNormalize
  import opened GridRestore

  function SaveTab(t: PanelTab): map<string, Json> {
    map["id" := JStr(t.id), "type" := JStr(TypeName(t.kind)), "title" := JStr(t.title),
        "chatSessionId" := OrNull(t.chatSessionId), "terminalId" := NumOrNull(t.terminalId),
        "filePath" := OrNull(t.filePath), "createdAt" := JNum(t.createdAt)]
  }

  function SaveTabs(ts: seq<PanelTab>): (r: seq<Json>)
    ensures |r| == |ts|
  {
    if ts == [] then [] else [JObj(SaveTab(ts[0]))] + SaveTabs(ts[1..])
  }

  function SavePanel(p: Panel): Json {
    JObj(SaveTab(PanelToTab(p))
         + Optional("lastUsedAt", if p.lastUsedAt.Some? then Some(JNum(p.lastUsedAt.value)) else None)
         + Optional("tabs", if p.tabs.Some? then Some(JArr(SaveTabs(p.tabs.value))) else None)
         + Optional("activeTabId", if p.activeTabId.Some? then Some(JStr(p.activeTabId.value)) else None))
  }

  function SavePanels(ps: seq<Panel>): seq<Json> {
    if ps == [] then [] else [SavePanel(ps[0])] + SavePanels(ps[1..])
  }

  function SaveNumbers(xs: seq<real>): (r: seq<Json>)
    ensures |r| == |xs| && forall i :: 0 <= i < |xs| ==> r[i] == JNum(xs[i])
  {
    if xs == [] then [] else [JNum(xs[0])] + SaveNumbers(xs[1..])
  }

  function DirectionName(d: Direction): string {
    if d == Row then "row" else "column"
  }

  function SaveNode(n: Node): Json
    decreases n
  {
    match n
    case Leaf(p) => JObj(map["kind" := JStr("leaf"), "panel" := SavePanel(p)])
    case Split(d, cs, sizes) =>
      JObj(map["kind" := JStr("split"), "direction" := JStr(DirectionName(d)),
               "children" := JArr(SaveNodes(cs)), "sizes" := JArr(SaveNumbers(sizes))])
  }

  function SaveNodes(ns: seq<Node>): seq<Json>
    decreases ns
  {
    if ns == [] then [] else [SaveNode(ns[0])] + SaveNodes(ns[1..])
  }

  /** The stashed groups are written only when there are some. */
  function Save(s: GridState): Json {
    JObj(map["root" := if s.root.Some? then SaveNode(s.root.value) else JNull,
             "activePanelId" := OrNull(s.activePanelId),
             "closedPanels" := JArr(SavePanels(s.closed)),
             "hiddenPanels" := JArr(SavePanels(s.hidden))]
         + Optional("stashedGroups", if s.stashed != [] then Some(JArr(SaveNodes(s.stashed))) else None))
  }

  // ----- Panels come back -----

  lemma TypeNameParses(t: PanelType)
    ensures ParseType(TypeName(t)) == Some(t)
  {
  }

  lemma TabBack(t: PanelTab, fields: map<string, Json>, now: real)
    requires t.id != "" && forall k :: k in SaveTab(t) ==> k in fields && fields[k] == SaveTab(t)[k]
    ensures ValidateTab(JObj(fields), now) == Some(t)
  {
    var saved := SaveTab(t);
    assert "id" in saved && "type" in saved && "title" in saved && "chatSessionId" in saved
           && "terminalId" in saved && "filePath" in saved && "createdAt" in saved;
    TypeNameParses(t.kind);
  }

  lemma {:induction false} TabsBack(ts: seq<PanelTab>, now: real)
    requires forall i :: 0 <= i < |ts| ==> ts[i].id != ""
    ensures ValidateTabs(SaveTabs(ts), now) == ts
  {
    if ts != [] {
      TabBack(ts[0], SaveTab(ts[0]), now);
      TabsBack(ts[1..], now);
    }
  }

  /** The extra keys do not disturb the identity fields. */
  lemma SavedIdentityFields(p: Panel)
    ensures var j, t := SavePanel(p), SaveTab(PanelToTab(p));
            forall k :: k in t ==> k in j.fields && j.fields[k] == t[k]
  {
    var t := SaveTab(PanelToTab(p));
    assert "lastUsedAt" !in t && "tabs" !in t && "activeTabId" !in t;
  }

  lemma SavedExtraFields(p: Panel)
    ensures var j := SavePanel(p);
            && Num(Field(j, "lastUsedAt")) == p.lastUsedAt
            && Str(Field(j, "activeTabId")) == p.activeTabId
            && Items(Field(j, "tabs")) == SaveTabs(p.tabs.GetOr([]))
            && (p.tabs.Some? ==> Field(j, "tabs").JArr?)
  {
    var t := SaveTab(PanelToTab(p));
    assert "lastUsedAt" !in t && "tabs" !in t && "activeTabId" !in t;
  }

  lemma PanelBackFrom(p: Panel, j: Json, now: real)
    requires Canonical(p) && ValidateTab(j, now) == Some(PanelToTab(p))
    requires Num(Field(j, "lastUsedAt")) == p.lastUsedAt && Str(Field(j, "activeTabId")) == p.activeTabId
    requires Items(Field(j, "tabs")) == SaveTabs(p.tabs.GetOr([])) && (p.tabs.Some? ==> Field(j, "tabs").JArr?)
    ensures ValidatePanel(j, now) == Some(p)
  {
    if p.tabs.Some? {
      TabsBack(p.tabs.value, now);
    }
  }

  lemma PanelBack(p: Panel, now: real)
    requires Canonical(p)
    ensures ValidatePanel(SavePanel(p), now) == Some(p)
  {
    SavedIdentityFields(p);
    SavedExtraFields(p);
    TabBack(PanelToTab(p), SavePanel(p).fields, now);
    PanelBackFrom(p, SavePanel(p), now);
  }

  lemma {:induction false} NumbersBack(xs: seq<real>)
    ensures Numbers(SaveNumbers(xs)) == xs
  {
  }

  // ----- Trees come back -----

  /** Every split's sizes would be accepted as they are. */
  ghost predicate SizesAccepted(n: Node)
    decreases n
  {
    match n
    case Leaf(_) => true
    case Split(_, cs, sizes) => ValidSizes(sizes) && SizesAcceptedAll(cs)
  }

  ghost predicate SizesAcceptedAll(ns: seq<Node>)
    decreases ns
  {
    ns == [] || (SizesAccepted(ns[0]) && SizesAcceptedAll(ns[1..]))
  }

  lemma SizesBack(sizes: seq<real>, n: nat)
    requires |sizes| == n
    ensures AcceptedSizes(JArr(SaveNumbers(sizes)), n) == if ValidSizes(sizes) then Some(sizes) else None
  {
    NumbersBack(sizes);
    var items := SaveNumbers(sizes);
    if ValidSizes(sizes) {
      assert forall i :: 0 <= i < n ==> IsValidSize(items[i]);
    } else if forall i :: 0 <= i < n ==> IsValidSize(items[i]) {
      assert forall i :: 0 <= i < n ==> IsValidSize(items[i]) ==> sizes[i] >= MIN_SPLIT_SIZE;
    }
  }

  lemma {:induction false} NodeBack(n: Node, now: real, seen: set<string>)
    requires WellFormed(n) && SizesOk(n) && CanonicalAll(Flatten(n))
    requires Unique(Flatten(n)) && Ids(Flatten(n)) !! seen
    ensures var v := NodeSpec(SaveNode(n), now, seen);
            && v.result == Some(n) && v.seen == seen + Ids(Flatten(n))
            && (v.diagnostics == [] <==> SizesAccepted(n))
    decreases n
  {
    match n
    case Leaf(p) =>
      LeafBack(p, now, seen);
    case Split(d, cs, sizes) =>
      NodesBack(cs, now, seen);
      SplitBack(d, cs, sizes, now, seen);
  }

  lemma SavedLeafFields(p: Panel)
    ensures var saved := SaveNode(Leaf(p));
            IsObject(saved) && Field(saved, "kind") == JStr("leaf") && Field(saved, "panel") == SavePanel(p)
  {
  }

  lemma LeafBack(p: Panel, now: real, seen: set<string>)
    requires CanonicalAll([p]) && p.id !in seen
    ensures NodeSpec(SaveNode(Leaf(p)), now, seen) == Visit(Some(Leaf(p)), seen + {p.id}, [])
    ensures Ids([p]) == {p.id}
  {
    assert Canonical([p][0]);
    PanelBack(p, now);
    SavedLeafFields(p);
    assert Ids([p]) == {p.id} + Ids([]);
  }

  lemma SplitBack(d: Direction, cs: seq<Node>, sizes: seq<real>, now: real, seen: set<string>)
    requires |cs| >= 2 && |sizes| == |cs|
    requires NodesSpec(SaveNodes(cs), now, seen).result == cs
    requires ValidSizes(sizes) || sizes == EqualShares(|cs|)
    ensures var v, inner := NodeSpec(SaveNode(Split(d, cs, sizes)), now, seen), NodesSpec(SaveNodes(cs), now, seen);
            && v.result == Some(Split(d, cs, sizes)) && v.seen == inner.seen
            && (v.diagnostics == [] <==> inner.diagnostics == [] && ValidSizes(sizes))
  {
    var saved := SaveNode(Split(d, cs, sizes));
    assert Field(saved, "kind") == JStr("split") && ParseDirection(Field(saved, "direction")) == Some(d);
    assert Field(saved, "children") == JArr(SaveNodes(cs)) && Get(saved, "sizes") == Some(JArr(SaveNumbers(sizes)));
    SizesBack(sizes, |cs|);
  }

  lemma {:induction false} NodesBack(ns: seq<Node>, now: real, seen: set<string>)
    requires WellFormedAll(ns) && SizesOkAll(ns) && CanonicalAll(FlattenAll(ns))
    requires Unique(FlattenAll(ns)) && Ids(FlattenAll(ns)) !! seen
    ensures var v := NodesSpec(SaveNodes(ns), now, seen);
            && v.result == ns && v.seen == seen + Ids(FlattenAll(ns))
            && (v.diagnostics == [] <==> SizesAcceptedAll(ns))
    decreases ns
  {
    if ns != [] {
      var a, b := Flatten(ns[0]), FlattenAll(ns[1..]);
      SplitFresh(a, b, seen);
      NodeBack(ns[0], now, seen);
      NodesBack(ns[1..], now, seen + Ids(a));
      assert SaveNodes(ns)[0] == SaveNode(ns[0]) && SaveNodes(ns)[1..] == SaveNodes(ns[1..]);
    }
  }

  /** A prefix of fresh, unique panels leaves the rest fresh and unique. */
  lemma SplitFresh(a: seq<Panel>, b: seq<Panel>, seen: set<string>)
    requires Unique(a + b) && Ids(a + b) !! seen && CanonicalAll(a + b)
    ensures Unique(a) && Ids(a) !! seen && CanonicalAll(a)
    ensures Unique(b) && Ids(b) !! seen + Ids(a) && CanonicalAll(b)
    ensures Ids(a + b) == Ids(a) + Ids(b)
  {
    UniqueConcat(a, b);
    IdsConcat(a, b);
    forall id | id in Ids(a) && id in Ids(b) ensures false {
      IdsHasId(a, id);
      IdsHasId(b, id);
    }
    forall i | 0 <= i < |a| ensures Canonical(a[i]) {
      assert (a + b)[i] == a[i];
    }
    forall i | 0 <= i < |b| ensures Canonical(b[i]) {
      assert (a + b)[|a| + i] == b[i];
    }
  }

  lemma {:induction false} IdsHasId(ps: seq<Panel>, id: string)
    ensures id in Ids(ps) <==> HasId(ps, id)
  {
    if ps != [] {
      IdsHasId(ps[1..], id);
    }
  }

  lemma {:induction false} PanelsBack(ps: seq<Panel>, now: real, seen: set<string>)
    requires CanonicalAll(ps) && Unique(ps) && Ids(ps) !! seen
    ensures PanelsSpec(SavePanels(ps), now, seen) == Visit(ps, seen + Ids(ps), [])
  {
    if ps != [] {
      assert ps == [ps[0]] + ps[1..];
      SplitFresh([ps[0]], ps[1..], seen);
      assert Ids([ps[0]]) == {ps[0].id} + Ids([]);
      PanelBack(ps[0], now);
      PanelsBack(ps[1..], now, seen + {ps[0].id});
      assert SavePanels(ps)[0] == SavePanel(ps[0]) && SavePanels(ps)[1..] == SavePanels(ps[1..]);
      assert seen + {ps[0].id} + Ids(ps[1..]) == seen + Ids(ps);
    }
  }

  lemma {:induction false} GroupsBack(groups: seq<Node>, now: real, seen: set<string>)
    requires GroupsWellFormed(groups) && SizesOkAll(groups) && CanonicalAll(FlattenAll(groups))
    requires Unique(FlattenAll(groups)) && Ids(FlattenAll(groups)) !! seen
    ensures var v := GroupsSpec(SaveNodes(groups), now, seen);
            && v.result == (groups, []) && v.seen == seen + Ids(FlattenAll(groups))
            && (v.diagnostics == [] <==> SizesAcceptedAll(groups))
  {
    if groups != [] {
      var g, rest := groups[0], groups[1..];
      var a, b := Flatten(g), FlattenAll(rest);
      SplitFresh(a, b, seen);
      GroupsTail(groups);
      NodeBack(g, now, seen);
      GroupsBack(rest, now, seen + Ids(a));
      GroupsSpecCons(g, rest, now, seen);
      assert groups == [g] + rest;
      assert seen + Ids(a) + Ids(b) == seen + Ids(a + b);
    }
  }

  lemma GroupsTail(groups: seq<Node>)
    requires GroupsWellFormed(groups) && groups != []
    ensures WellFormed(groups[0]) && |Flatten(groups[0])| >= 2 && GroupsWellFormed(groups[1..])
  {
  }

  lemma GroupsSpecCons(g: Node, rest: seq<Node>, now: real, seen: set<string>)
    requires NodeSpec(SaveNode(g), now, seen).result == Some(g) && |Flatten(g)| >= 2
    ensures var head := NodeSpec(SaveNode(g), now, seen);
            var tail := GroupsSpec(SaveNodes(rest), now, head.seen);
            GroupsSpec(SaveNodes([g] + rest), now, seen)
            == Visit(([g] + tail.result.0, tail.result.1), tail.seen, head.diagnostics + tail.diagnostics)
  {
    var saved := SaveNodes([g] + rest);
    assert ([g] + rest)[1..] == rest;
    assert saved[0] == SaveNode(g) && saved[1..] == SaveNodes(rest);
    var tail := GroupsSpec(SaveNodes(rest), now, NodeSpec(SaveNode(g), now, seen).seen);
    assert [] + tail.result.1 == tail.result.1;
  }

  // ----- The state comes back -----

  lemma SavedFields(s: GridState)
    ensures var j := Save(s);
            && Field(j, "root") == (if s.root.Some? then SaveNode(s.root.value) else JNull)
            && Field(j, "activePanelId") == OrNull(s.activePanelId)
            && Items(Field(j, "closedPanels")) == SavePanels(s.closed)
            && Items(Field(j, "hiddenPanels")) == SavePanels(s.hidden)
            && RawGroups(j) == SaveNodes(s.stashed)
  {
    var j := Save(s);
    if s.stashed != [] {
      assert Field(j, "stashedGroups") == JArr(SaveNodes(s.stashed));
    } else {
      assert Field(j, "stashedGroups") == JNull && Field(j, "stashedRoot") == JNull;
    }
  }

  /** The claims of the four regions of a valid state do not meet. */
  lemma RegionsDisjoint(s: GridState)
    requires Inv(s)
    ensures var a, b, c, d := Ids(Shown(s.root)), Ids(s.hidden), Ids(FlattenAll(s.stashed)), Ids(s.closed);
            && b !! {} + a && c !! {} + a + b && d !! {} + a + b + c
    ensures Unique(Shown(s.root)) && Unique(s.hidden) && Unique(FlattenAll(s.stashed)) && Unique(s.closed)
  {
    InvIdsUnique(s);
    forall id ensures Count(s, id) <= 1 && (id in Ids(Shown(s.root)) <==> HasId(Shown(s.root), id))
                      && (id in Ids(s.hidden) <==> HasId(s.hidden, id))
                      && (id in Ids(FlattenAll(s.stashed)) <==> HasId(FlattenAll(s.stashed), id))
                      && (id in Ids(s.closed) <==> HasId(s.closed, id)) {
      IdsHasId(Shown(s.root), id);
      IdsHasId(s.hidden, id);
      IdsHasId(FlattenAll(s.stashed), id);
      IdsHasId(s.closed, id);
    }
  }

  lemma ActiveBack(s: GridState)
    requires Inv(s)
    ensures RepairActive(s.root, OrNull(s.activePanelId)) == (s.activePanelId, [])
  {
    if s.root.Some? {
      FindInRootIsFind(s.root, s.activePanelId.value);
      ShowsSomething(s.root.value);
    }
  }

  lemma RootBack(s: GridState, now: real)
    requires NormalForm(s)
    ensures var v := NodeSpec(Field(Save(s), "root"), now, {});
            && v.result == s.root && v.seen == {} + Ids(Shown(s.root))
            && (v.diagnostics == [] <==> s.root.Some? && SizesAccepted(s.root.value))
  {
    SavedFields(s);
    RegionsDisjoint(s);
    if s.root.Some? {
      NodeBack(s.root.value, now, {});
    }
  }

  /** A state put together from what the four visits give back. */
  lemma StateBack(s: GridState, raw: Json, now: real, root: Visit<Option<Node>>, hidden: Visit<seq<Panel>>,
                  groups: Visit<(seq<Node>, seq<Panel>)>, closed: Visit<seq<Panel>>)
    requires IsObject(raw) && RepairActive(s.root, Field(raw, "activePanelId")) == (s.activePanelId, [])
    requires root == NodeSpec(Field(raw, "root"), now, {}) && root.result == s.root
    requires hidden == PanelsSpec(Items(Field(raw, "hiddenPanels")), now, root.seen)
    requires hidden.result == s.hidden && hidden.diagnostics == []
    requires groups == GroupsSpec(RawGroups(raw), now, hidden.seen) && groups.result == (s.stashed, [])
    requires closed == PanelsSpec(Items(Field(raw, "closedPanels")), now, groups.seen)
    requires closed.result == s.closed && closed.diagnostics == []
    ensures NormalizeSpec(raw, now).state == s
    ensures NormalizeSpec(raw, now).repaired <==> root.diagnostics != [] || groups.diagnostics != []
  {
    assert s.hidden + [] == s.hidden;
  }

  /**
   * Restoring what was saved gives back the very same state. It reports a repair exactly when the grid is
   * empty or some split has an equal share below the minimum.
   */
  lemma SaveThenRestore(s: GridState, now: real)
    requires NormalForm(s)
    ensures NormalizeSpec(Save(s), now).state == s
    ensures NormalizeSpec(Save(s), now).repaired <==>
              s.root.None? || !SizesAccepted(s.root.value) || !SizesAcceptedAll(s.stashed)
  {
    SavedFields(s);
    RegionsDisjoint(s);
    ActiveBack(s);
    RootBack(s, now);
    var root := NodeSpec(Field(Save(s), "root"), now, {});
    PanelsBack(s.hidden, now, root.seen);
    var hidden := PanelsSpec(SavePanels(s.hidden), now, root.seen);
    GroupsBack(s.stashed, now, hidden.seen);
    var groups := GroupsSpec(SaveNodes(s.stashed), now, hidden.seen);
    PanelsBack(s.closed, now, groups.seen);
    StateBack(s, Save(s), now, root, hidden, groups, PanelsSpec(SavePanels(s.closed), now, groups.seen));
  }

  /** Restoring is idempotent, whatever was saved first and whenever it is restored again. */
  lemma RestoreIsIdempotent(raw: Json, now: real, later: real)
    ensures var s := NormalizeSpec(raw, now).state;
            NormalizeSpec(Save(s), later).state == s
  {
    NormalizeEstablishes(raw, now);
    SaveThenRestore(NormalizeSpec(raw, now).state, later);
  }
}
