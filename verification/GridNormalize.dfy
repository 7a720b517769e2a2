/**
 * Restoring a saved grid: any JSON value is turned into a valid state (src/lib/panelGrid.ts). The validator
 * is a class because the program fills `seenIds` and `diagnostics` in place while it recurses.
 */
module GridNormalize {
  import opened Prelude
  import opened Json
  import opened Panels
  import opened SplitTree
  import opened PanelGrid

  const SIZE_EPSILON := 0.02

  datatype DiagnosticKind = StaleActive | DuplicateId | Malformed | InvalidSize | Quarantined

  datatype Diagnostic = Diagnostic(kind: DiagnosticKind, panelId: Option<string>)

  datatype NormalizeResult = NormalizeResult(state: GridState, diagnostics: seq<Diagnostic>, repaired: bool)

  // ----- Panels -----

  function ParseType(s: string): Option<PanelType> {
    if s == "chat" then Some(Chat)
    else if s == "terminal" then Some(Terminal)
    else if s == "file" then Some(File)
    else if s == "schematic" then Some(Schematic)
    else if s == "omp" then Some(Omp)
    else None
  }

  function TypeName(t: PanelType): string {
    match t
    case Chat => "chat"
    case Terminal => "terminal"
    case File => "file"
    case Schematic => "schematic"
    case Omp => "omp"
  }

  /** `now` is the clock reading used where a creation time is missing. */
  function ValidateTab(raw: Json, now: real): Option<PanelTab> {
    var id, kind, title := Field(raw, "id"), Field(raw, "type"), Field(raw, "title");
    if !id.JStr? || id.s == "" then None
    else if !kind.JStr? || ParseType(kind.s).None? then None
    else if !title.JStr? then None
    else Some(PanelTab(
      id.s, ParseType(kind.s).value, title.s,
      Str(Field(raw, "chatSessionId")), Num(Field(raw, "terminalId")), Str(Field(raw, "filePath")),
      Num(Field(raw, "createdAt")).GetOr(now)))
  }

  function ValidateTabs(raws: seq<Json>, now: real): seq<PanelTab> {
    if raws == [] then []
    else
      var t := ValidateTab(raws[0], now);
      (if t.Some? then [t.value] else []) + ValidateTabs(raws[1..], now)
  }

  function ValidatePanel(raw: Json, now: real): Option<Panel> {
    match ValidateTab(raw, now)
    case None => None
    case Some(t) =>
      var tabs := if |Items(Field(raw, "tabs"))| > 1 then ValidateTabs(Field(raw, "tabs").items, now) else [];
      var hasTabs := |tabs| > 1;
      Some(Panel(
        t.id, t.kind, t.title, t.chatSessionId, t.terminalId, t.filePath, t.createdAt,
        Num(Field(raw, "lastUsedAt")),
        if hasTabs then Some(tabs) else None,
        if hasTabs then Some(Str(Field(raw, "activeTabId")).GetOr(tabs[0].id)) else None))
  }

  // ----- Trees -----

  predicate IsValidSize(v: Json) {
    v.JNum? && v.n >= MIN_SPLIT_SIZE
  }

  function Numbers(items: seq<Json>): (r: seq<real>)
    requires forall i :: 0 <= i < |items| ==> items[i].JNum?
    ensures |r| == |items| && forall i :: 0 <= i < |items| ==> r[i] == items[i].n
  {
    if items == [] then [] else [items[0].n] + Numbers(items[1..])
  }

  predicate NearOne(x: real) {
    -SIZE_EPSILON <= x - 1.0 <= SIZE_EPSILON
  }

  /** The saved sizes, where they fit the children that are left, are large enough and sum to about one. */
  function AcceptedSizes(raw: Json, n: nat): Option<seq<real>> {
    var items := Items(raw);
    if raw.JArr? && |items| == n && forall i :: 0 <= i < n ==> IsValidSize(items[i]) then
      var sizes := Numbers(items);
      if NearOne(Sum(sizes)) then Some(sizes) else None
    else None
  }

  function ParseDirection(j: Json): Option<Direction> {
    if j == JStr("row") then Some(Row) else if j == JStr("column") then Some(Column) else None
  }

  /** What validating leaves behind: the result, the ids seen so far, the diagnostics added. */
  datatype Visit<T> = Visit(result: T, seen: set<string>, diagnostics: seq<Diagnostic>)

  function Say(kind: DiagnosticKind): seq<Diagnostic> {
    [Diagnostic(kind, None)]
  }

  function SayOf(kind: DiagnosticKind, id: string): seq<Diagnostic> {
    [Diagnostic(kind, Some(id))]
  }

  function NodeSpec(raw: Json, now: real, seen: set<string>): Visit<Option<Node>>
    decreases raw
  {
    if !IsObject(raw) then Visit(None, seen, Say(Malformed))
    else if Field(raw, "kind") == JStr("leaf") then LeafSpec(Field(raw, "panel"), now, seen)
    else if Field(raw, "kind") == JStr("split") then
      var direction := ParseDirection(Field(raw, "direction"));
      if direction.None? then Visit(None, seen, Say(Malformed))
      else if !Field(raw, "children").JArr? then Visit(None, seen, Say(Malformed))
      else
        var v := NodesSpec(raw.fields["children"].items, now, seen);
        BuildSplit(direction.value, v, Get(raw, "sizes"))
    else Visit(None, seen, Say(Malformed))
  }

  function NodesSpec(raws: seq<Json>, now: real, seen: set<string>): Visit<seq<Node>>
    decreases raws
  {
    if raws == [] then Visit([], seen, [])
    else
      var head := NodeSpec(raws[0], now, seen);
      var tail := NodesSpec(raws[1..], now, head.seen);
      Visit((if head.result.Some? then [head.result.value] else []) + tail.result, tail.seen,
            head.diagnostics + tail.diagnostics)
  }

  function LeafSpec(rawPanel: Json, now: real, seen: set<string>): Visit<Option<Node>> {
    match ValidatePanel(rawPanel, now)
    case None => Visit(None, seen, Say(Malformed))
    case Some(p) =>
      if p.id in seen then Visit(None, seen, SayOf(DuplicateId, p.id))
      else Visit(Some(Leaf(p)), seen + {p.id}, [])
  }

  /** Drops an empty split, collapses one with a single child, and rebalances unusable sizes. */
  function BuildSplit(direction: Direction, v: Visit<seq<Node>>, rawSizes: Option<Json>): Visit<Option<Node>> {
    var cs := v.result;
    if |cs| == 0 then Visit(None, v.seen, v.diagnostics)
    else if |cs| == 1 then Visit(Some(cs[0]), v.seen, v.diagnostics)
    else
      var accepted := AcceptedSizes(rawSizes.GetOr(JNull), |cs|);
      var complaint := if accepted.None? && rawSizes.Some? then Say(InvalidSize) else [];
      Visit(Some(Split(direction, cs, accepted.GetOr(EqualShares(|cs|)))), v.seen, v.diagnostics + complaint)
  }

  // ----- The other regions -----

  /** Hidden panels and history: unusable entries and repeated ids are quarantined. */
  function PanelsSpec(raws: seq<Json>, now: real, seen: set<string>): Visit<seq<Panel>> {
    if raws == [] then Visit([], seen, [])
    else match ValidatePanel(raws[0], now)
      case None =>
        var tail := PanelsSpec(raws[1..], now, seen);
        tail.(diagnostics := Say(Quarantined) + tail.diagnostics)
      case Some(p) =>
        if p.id in seen then
          var tail := PanelsSpec(raws[1..], now, seen);
          tail.(diagnostics := SayOf(DuplicateId, p.id) + tail.diagnostics)
        else
          var tail := PanelsSpec(raws[1..], now, seen + {p.id});
          tail.(result := [p] + tail.result)
  }

  /** Stashed groups, and the panels of groups that came down to one panel. */
  function GroupsSpec(raws: seq<Json>, now: real, seen: set<string>): Visit<(seq<Node>, seq<Panel>)> {
    if raws == [] then Visit(([], []), seen, [])
    else
      var head := NodeSpec(raws[0], now, seen);
      var tail := GroupsSpec(raws[1..], now, head.seen);
      var panels := Shown(head.result);
      Visit((
        (if |panels| >= 2 then [head.result.value] else []) + tail.result.0,
        (if |panels| == 1 then panels else []) + tail.result.1),
        tail.seen, head.diagnostics + tail.diagnostics)
  }

  function RawGroups(raw: Json): seq<Json> {
    if Field(raw, "stashedGroups").JArr? then Items(Field(raw, "stashedGroups"))
    else if Field(raw, "stashedRoot") != JNull then [Field(raw, "stashedRoot")]
    else []
  }

  function RepairActive(root: Option<Node>, rawActive: Json): (Option<string>, seq<Diagnostic>) {
    var named := rawActive.JStr? && rawActive.s != "";
    if Shown(root) != [] then
      if rawActive.JStr? && FindInRoot(root, rawActive.s).Some? then (Some(rawActive.s), [])
      else (FirstId(Shown(root)), if named then SayOf(StaleActive, rawActive.s) else [])
    else (None, if named then SayOf(StaleActive, rawActive.s) else [])
  }

  function NormalizeSpec(raw: Json, now: real): NormalizeResult {
    if !IsObject(raw) then NormalizeResult(EmptyGrid(), [], false)
    else
      var root := NodeSpec(Field(raw, "root"), now, {});
      var hidden := PanelsSpec(Items(Field(raw, "hiddenPanels")), now, root.seen);
      var groups := GroupsSpec(RawGroups(raw), now, hidden.seen);
      var closed := PanelsSpec(Items(Field(raw, "closedPanels")), now, groups.seen);
      var (active, complaint) := RepairActive(root.result, Field(raw, "activePanelId"));
      var diagnostics := root.diagnostics + hidden.diagnostics + groups.diagnostics + closed.diagnostics + complaint;
      NormalizeResult(
        GridState(root.result, active, closed.result, hidden.result + groups.result.1, groups.result.0),
        diagnostics, diagnostics != [])
  }

  // ----- The program's form -----

  /** Results already collected, followed by the visit of what is left. */
  ghost function Resume<T>(done: seq<T>, said: seq<Diagnostic>, rest: Visit<seq<T>>): Visit<seq<T>> {
    Visit(done + rest.result, rest.seen, said + rest.diagnostics)
  }

  lemma ResumeStep<T>(done: seq<T>, said: seq<Diagnostic>, kept: seq<T>, more: seq<Diagnostic>, tail: Visit<seq<T>>)
    ensures Resume(done, said, Visit(kept + tail.result, tail.seen, more + tail.diagnostics))
            == Resume(done + kept, said + more, tail)
    ensures Resume([], [], tail) == tail
  {
    assert [] + tail.result == tail.result && [] + tail.diagnostics == tail.diagnostics;
    assert done + (kept + tail.result) == done + kept + tail.result;
    assert said + (more + tail.diagnostics) == said + more + tail.diagnostics;
  }

  ghost function ResumeGroups(done: seq<Node>, solo: seq<Panel>, said: seq<Diagnostic>,
                              rest: Visit<(seq<Node>, seq<Panel>)>): Visit<(seq<Node>, seq<Panel>)> {
    Visit((done + rest.result.0, solo + rest.result.1), rest.seen, said + rest.diagnostics)
  }

  lemma ResumeGroupsStep(done: seq<Node>, solo: seq<Panel>, said: seq<Diagnostic>, kept: seq<Node>, single: seq<Panel>,
                         more: seq<Diagnostic>, tail: Visit<(seq<Node>, seq<Panel>)>)
    ensures ResumeGroups(done, solo, said,
                         Visit((kept + tail.result.0, single + tail.result.1), tail.seen, more + tail.diagnostics))
            == ResumeGroups(done + kept, solo + single, said + more, tail)
    ensures ResumeGroups([], [], [], tail) == tail
  {
    assert [] + tail.result.0 == tail.result.0 && [] + tail.result.1 == tail.result.1;
    assert [] + tail.diagnostics == tail.diagnostics;
    assert done + (kept + tail.result.0) == done + kept + tail.result.0;
    assert solo + (single + tail.result.1) == solo + single + tail.result.1;
    assert said + (more + tail.diagnostics) == said + more + tail.diagnostics;
  }

  class Normalizer {
    var seenIds: set<string>
    var diagnostics: seq<Diagnostic>

    constructor ()
      ensures seenIds == {} && diagnostics == []
    {
      seenIds, diagnostics := {}, [];
    }

    method ValidateNode(raw: Json, now: real) returns (node: Option<Node>)
      modifies this
      ensures var v := NodeSpec(raw, now, old(seenIds));
              node == v.result && seenIds == v.seen && diagnostics == old(diagnostics) + v.diagnostics
      decreases raw
    {
      if !IsObject(raw) {
        diagnostics := diagnostics + Say(Malformed);
        return None;
      }
      if Field(raw, "kind") == JStr("leaf") {
        node := ValidateLeaf(Field(raw, "panel"), now);
        return;
      }
      if Field(raw, "kind") == JStr("split") {
        var direction := ParseDirection(Field(raw, "direction"));
        if direction.None? || !Field(raw, "children").JArr? {
          diagnostics := diagnostics + Say(Malformed);
          return None;
        }
        var children := ValidateChildren(raw.fields["children"].items, now);
        if |children| == 0 {
          return None;
        }
        if |children| == 1 {
          return Some(children[0]);
        }
        var sizes := AcceptedSizes(Get(raw, "sizes").GetOr(JNull), |children|);
        if sizes.None? {
          if Get(raw, "sizes").Some? {
            diagnostics := diagnostics + Say(InvalidSize);
          }
          sizes := Some(EqualShares(|children|));
        }
        return Some(Split(direction.value, children, sizes.value));
      }
      diagnostics := diagnostics + Say(Malformed);
      node := None;
    }

    method ValidateLeaf(rawPanel: Json, now: real) returns (node: Option<Node>)
      modifies this
      ensures var v := LeafSpec(rawPanel, now, old(seenIds));
              node == v.result && seenIds == v.seen && diagnostics == old(diagnostics) + v.diagnostics
    {
      var panel := ValidatePanel(rawPanel, now);
      if panel.None? {
        diagnostics := diagnostics + Say(Malformed);
        return None;
      }
      if panel.value.id in seenIds {
        diagnostics := diagnostics + SayOf(DuplicateId, panel.value.id);
        return None;
      }
      seenIds := seenIds + {panel.value.id};
      return Some(Leaf(panel.value));
    }

    method ValidateChildren(raws: seq<Json>, now: real) returns (children: seq<Node>)
      modifies this
      ensures var v := NodesSpec(raws, now, old(seenIds));
              children == v.result && seenIds == v.seen && diagnostics == old(diagnostics) + v.diagnostics
      decreases raws
    {
      children := [];
      assert raws[0..] == raws && diagnostics[|old(diagnostics)|..] == [];
      ResumeStep([], [], [], [], NodesSpec(raws, now, seenIds));
      for i := 0 to |raws|
        invariant old(diagnostics) <= diagnostics
        invariant NodesSpec(raws, now, old(seenIds))
                  == Resume(children, diagnostics[|old(diagnostics)|..], NodesSpec(raws[i..], now, seenIds))
      {
        ghost var done, said := children, diagnostics[|old(diagnostics)|..];
        ghost var head := NodeSpec(raws[i], now, seenIds);
        ghost var tail := NodesSpec(raws[i + 1..], now, head.seen);
        assert raws[i..][0] == raws[i] && raws[i..][1..] == raws[i + 1..];
        var child := ValidateNode(raws[i], now);
        if child.Some? {
          children := children + [child.value];
        }
        ghost var kept := if child.Some? then [child.value] else [];
        assert children == done + kept;
        assert diagnostics[|old(diagnostics)|..] == said + head.diagnostics;
        ResumeStep(done, said, kept, head.diagnostics, tail);
      }
      assert raws[|raws|..] == [];
      assert diagnostics == old(diagnostics) + diagnostics[|old(diagnostics)|..];
    }

    method AdmitPanels(raws: seq<Json>, now: real) returns (panels: seq<Panel>)
      modifies this
      ensures var v := PanelsSpec(raws, now, old(seenIds));
              panels == v.result && seenIds == v.seen && diagnostics == old(diagnostics) + v.diagnostics
    {
      panels := [];
      assert raws[0..] == raws && diagnostics[|old(diagnostics)|..] == [];
      ResumeStep([], [], [], [], PanelsSpec(raws, now, seenIds));
      for i := 0 to |raws|
        invariant old(diagnostics) <= diagnostics
        invariant PanelsSpec(raws, now, old(seenIds))
                  == Resume(panels, diagnostics[|old(diagnostics)|..], PanelsSpec(raws[i..], now, seenIds))
      {
        ghost var done, said := panels, diagnostics[|old(diagnostics)|..];
        assert raws[i..][0] == raws[i] && raws[i..][1..] == raws[i + 1..];
        ghost var kept: seq<Panel>, more: seq<Diagnostic> := [], [];
        var panel := ValidatePanel(raws[i], now);
        if panel.None? {
          more := Say(Quarantined);
          diagnostics := diagnostics + Say(Quarantined);
        } else if panel.value.id in seenIds {
          more := SayOf(DuplicateId, panel.value.id);
          diagnostics := diagnostics + SayOf(DuplicateId, panel.value.id);
        } else {
          kept := [panel.value];
          seenIds := seenIds + {panel.value.id};
          panels := panels + [panel.value];
        }
        assert panels == done + kept;
        assert diagnostics[|old(diagnostics)|..] == said + more;
        ghost var tail := PanelsSpec(raws[i + 1..], now, seenIds);
        assert [] + tail.result == tail.result && [] + tail.diagnostics == tail.diagnostics;
        ResumeStep(done, said, kept, more, tail);
      }
      assert raws[|raws|..] == [];
      assert diagnostics == old(diagnostics) + diagnostics[|old(diagnostics)|..];
    }

    method AdmitGroups(raws: seq<Json>, now: real) returns (groups: seq<Node>, demoted: seq<Panel>)
      modifies this
      ensures var v := GroupsSpec(raws, now, old(seenIds));
              (groups, demoted) == v.result && seenIds == v.seen && diagnostics == old(diagnostics) + v.diagnostics
    {
      groups, demoted := [], [];
      assert raws[0..] == raws && diagnostics[|old(diagnostics)|..] == [];
      ResumeGroupsStep([], [], [], [], [], [], GroupsSpec(raws, now, seenIds));
      for i := 0 to |raws|
        invariant old(diagnostics) <= diagnostics
        invariant GroupsSpec(raws, now, old(seenIds))
                  == ResumeGroups(groups, demoted, diagnostics[|old(diagnostics)|..],
                      GroupsSpec(raws[i..], now, seenIds))
      {
        ghost var done, solo, said := groups, demoted, diagnostics[|old(diagnostics)|..];
        ghost var head := NodeSpec(raws[i], now, seenIds);
        ghost var tail := GroupsSpec(raws[i + 1..], now, head.seen);
        assert raws[i..][0] == raws[i] && raws[i..][1..] == raws[i + 1..];
        var tree := ValidateNode(raws[i], now);
        var panels := Shown(tree);
        if |panels| >= 2 {
          groups := groups + [tree.value];
        } else if |panels| == 1 {
          demoted := demoted + panels;
        }
        ghost var kept := if |panels| >= 2 then [tree.value] else [];
        ghost var single := if |panels| == 1 then panels else [];
        assert groups == done + kept && demoted == solo + single;
        assert diagnostics[|old(diagnostics)|..] == said + head.diagnostics;
        ResumeGroupsStep(done, solo, said, kept, single, head.diagnostics, tail);
      }
      assert raws[|raws|..] == [];
      assert groups + [] == groups && demoted + [] == demoted;
      assert diagnostics == old(diagnostics) + diagnostics[|old(diagnostics)|..];
    }
  }

  method NormalizePanelGridState(input: Json, now: real) returns (r: NormalizeResult)
    ensures r == NormalizeSpec(input, now)
  {
    if !IsObject(input) {
      return NormalizeResult(EmptyGrid(), [], false);
    }
    var n := new Normalizer();
    var root := n.ValidateNode(Field(input, "root"), now);
    ghost var d1 := n.diagnostics;
    var hidden := n.AdmitPanels(Items(Field(input, "hiddenPanels")), now);
    ghost var d2 := n.diagnostics;
    var groups, demoted := n.AdmitGroups(RawGroups(input), now);
    ghost var d3 := n.diagnostics;
    var closed := n.AdmitPanels(Items(Field(input, "closedPanels")), now);
    var (active, complaint) := RepairActive(root, Field(input, "activePanelId"));
    n.diagnostics := n.diagnostics + complaint;
    assert d1 == NodeSpec(Field(input, "root"), now, {}).diagnostics;
    r := NormalizeResult(GridState(root, active, closed, hidden + demoted, groups), n.diagnostics, n.diagnostics != []);
  }
}
