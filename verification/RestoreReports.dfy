/** What restoring a grid reports (src/lib/panelGrid.ts): every panel it leaves out, and why. */
module RestoreReports {
  import opened Prelude
  import opened Json
  import opened Panels
  import opened SplitTree
  import opened PanelGrid
  import opened GridNormalize
  import opened GridRestore

  /** The ids that are reported as repeated, in order. */
  function Repeated(said: seq<Diagnostic>): seq<string> {
    if said == [] then []
    else (if said[0].kind == DuplicateId && said[0].panelId.Some? then [said[0].panelId.value] else [])
         + Repeated(said[1..])
  }

  /** How many diagnostics are of a kind. */
  function Reports(said: seq<Diagnostic>, kind: DiagnosticKind): nat {
    if said == [] then 0 else (if said[0].kind == kind then 1 else 0) + Reports(said[1..], kind)
  }

  /** The ids of the panels that are not the first with theirs, in order. */
  function Repeats(ps: seq<Panel>, seen: set<string>): seq<string> {
    if ps == [] then []
    else if ps[0].id in seen then [ps[0].id] + Repeats(ps[1..], seen)
    else Repeats(ps[1..], seen + {ps[0].id})
  }

  lemma {:induction false} RepeatedConcat(a: seq<Diagnostic>, b: seq<Diagnostic>)
    ensures Repeated(a + b) == Repeated(a) + Repeated(b)
  {
    if a == [] {
      assert a + b == b;
    } else {
      assert (a + b)[1..] == a[1..] + b;
      RepeatedConcat(a[1..], b);
    }
  }

  lemma {:induction false} ReportsConcat(a: seq<Diagnostic>, b: seq<Diagnostic>, kind: DiagnosticKind)
    ensures Reports(a + b, kind) == Reports(a, kind) + Reports(b, kind)
  {
    if a == [] {
      assert a + b == b;
    } else {
      assert (a + b)[1..] == a[1..] + b;
      ReportsConcat(a[1..], b, kind);
    }
  }

  lemma {:induction false} RepeatsConcat(a: seq<Panel>, b: seq<Panel>, seen: set<string>)
    ensures Repeats(a + b, seen) == Repeats(a, seen) + Repeats(b, seen + Ids(a))
  {
    if a == [] {
      assert a + b == b && seen + Ids(a) == seen;
    } else {
      assert (a + b)[1..] == a[1..] + b;
      var seen' := if a[0].id in seen then seen else seen + {a[0].id};
      RepeatsConcat(a[1..], b, seen');
      assert seen' + Ids(a[1..]) == seen + Ids(a);
    }
  }

  lemma OneReport(d: Diagnostic, kind: DiagnosticKind)
    ensures Repeated([d]) == if d.kind == DuplicateId && d.panelId.Some? then [d.panelId.value] else []
    ensures Reports([d], kind) == if d.kind == kind then 1 else 0
  {
    assert [d][1..] == [];
  }

  lemma OneRepeat(p: Panel, seen: set<string>)
    ensures Repeats([p], seen) == if p.id in seen then [p.id] else []
  {
    assert [p][1..] == [];
  }

  // ----- Trees -----

  lemma {:induction false} NodeRepeats(raw: Json, now: real, seen: set<string>)
    ensures var said := NodeSpec(raw, now, seen).diagnostics;
            Repeated(said) == Repeats(Offered(raw, now), seen) && Reports(said, Quarantined) == 0
            && Reports(said, StaleActive) == 0
    decreases raw
  {
    OneReport(Diagnostic(Malformed, None), Quarantined);
    OneReport(Diagnostic(Malformed, None), StaleActive);
    if IsObject(raw) && Field(raw, "kind") == JStr("leaf") {
      var p := ValidatePanel(Field(raw, "panel"), now);
      if p.Some? {
        OneRepeat(p.value, seen);
        OneReport(Diagnostic(DuplicateId, Some(p.value.id)), Quarantined);
        OneReport(Diagnostic(DuplicateId, Some(p.value.id)), StaleActive);
      }
    } else if IsObject(raw) && Field(raw, "kind") == JStr("split") && ParseDirection(Field(raw, "direction")).Some?
              && Field(raw, "children").JArr? {
      var raws := raw.fields["children"].items;
      NodesRepeat(raws, now, seen);
      BuildRepeats(ParseDirection(Field(raw, "direction")).value, NodesSpec(raws, now, seen), Get(raw, "sizes"));
    }
  }

  lemma BuildRepeats(direction: Direction, v: Visit<seq<Node>>, rawSizes: Option<Json>)
    ensures var said := BuildSplit(direction, v, rawSizes).diagnostics;
            && Repeated(said) == Repeated(v.diagnostics)
            && Reports(said, Quarantined) == Reports(v.diagnostics, Quarantined)
            && Reports(said, StaleActive) == Reports(v.diagnostics, StaleActive)
  {
    var said := BuildSplit(direction, v, rawSizes).diagnostics;
    var more := Say(InvalidSize);
    OneReport(Diagnostic(InvalidSize, None), Quarantined);
    OneReport(Diagnostic(InvalidSize, None), StaleActive);
    RepeatedConcat(v.diagnostics, more);
    ReportsConcat(v.diagnostics, more, Quarantined);
    ReportsConcat(v.diagnostics, more, StaleActive);
    assert said == v.diagnostics || said == v.diagnostics + more by {
      assert v.diagnostics + [] == v.diagnostics;
    }
  }

  lemma {:induction false} NodesRepeat(raws: seq<Json>, now: real, seen: set<string>)
    ensures var said := NodesSpec(raws, now, seen).diagnostics;
            Repeated(said) == Repeats(OfferedAll(raws, now), seen) && Reports(said, Quarantined) == 0
            && Reports(said, StaleActive) == 0
    decreases raws
  {
    if raws != [] {
      var head := NodeSpec(raws[0], now, seen);
      var tail := NodesSpec(raws[1..], now, head.seen);
      NodeRepeats(raws[0], now, seen);
      NodeSpecKeeps(raws[0], now, seen);
      NodesRepeat(raws[1..], now, head.seen);
      RepeatsConcat(Offered(raws[0], now), OfferedAll(raws[1..], now), seen);
      Joined(head.diagnostics, tail.diagnostics);
    }
  }

  lemma Joined(a: seq<Diagnostic>, b: seq<Diagnostic>)
    ensures Repeated(a + b) == Repeated(a) + Repeated(b)
    ensures Reports(a + b, Quarantined) == Reports(a, Quarantined) + Reports(b, Quarantined)
    ensures Reports(a + b, StaleActive) == Reports(a, StaleActive) + Reports(b, StaleActive)
  {
    RepeatedConcat(a, b);
    ReportsConcat(a, b, Quarantined);
    ReportsConcat(a, b, StaleActive);
  }

  lemma {:induction false} GroupsRepeat(raws: seq<Json>, now: real, seen: set<string>)
    ensures var said := GroupsSpec(raws, now, seen).diagnostics;
            Repeated(said) == Repeats(OfferedAll(raws, now), seen) && Reports(said, Quarantined) == 0
            && Reports(said, StaleActive) == 0
  {
    if raws != [] {
      var head := NodeSpec(raws[0], now, seen);
      var tail := GroupsSpec(raws[1..], now, head.seen);
      NodeRepeats(raws[0], now, seen);
      NodeSpecKeeps(raws[0], now, seen);
      GroupsRepeat(raws[1..], now, head.seen);
      RepeatsConcat(Offered(raws[0], now), OfferedAll(raws[1..], now), seen);
      Joined(head.diagnostics, tail.diagnostics);
    }
  }

  // ----- Lists of panels -----

  /** How many entries are no panels. */
  function Unusable(raws: seq<Json>, now: real): nat {
    if raws == [] then 0 else (if ValidatePanel(raws[0], now).None? then 1 else 0) + Unusable(raws[1..], now)
  }

  lemma {:induction false} PanelsRepeat(raws: seq<Json>, now: real, seen: set<string>)
    ensures var said := PanelsSpec(raws, now, seen).diagnostics;
            && Repeated(said) == Repeats(OfferedPanels(raws, now), seen)
            && Reports(said, Quarantined) == Unusable(raws, now) && Reports(said, StaleActive) == 0
  {
    if raws != [] {
      var p := ValidatePanel(raws[0], now);
      if p.None? {
        var tail := PanelsSpec(raws[1..], now, seen);
        PanelsRepeat(raws[1..], now, seen);
        Joined(Say(Quarantined), tail.diagnostics);
        OneReport(Diagnostic(Quarantined, None), Quarantined);
        OneReport(Diagnostic(Quarantined, None), StaleActive);
        assert OfferedPanels(raws, now) == OfferedPanels(raws[1..], now);
      } else {
        var id := p.value.id;
        assert OfferedPanels(raws, now)[1..] == OfferedPanels(raws[1..], now);
        if id in seen {
          var tail := PanelsSpec(raws[1..], now, seen);
          PanelsRepeat(raws[1..], now, seen);
          Joined(SayOf(DuplicateId, id), tail.diagnostics);
          OneReport(Diagnostic(DuplicateId, Some(id)), Quarantined);
          OneReport(Diagnostic(DuplicateId, Some(id)), StaleActive);
        } else {
          PanelsRepeat(raws[1..], now, seen + {id});
        }
      }
    }
  }

  // ----- The whole report -----

  lemma ActiveReport(root: Option<Node>, rawActive: Json)
    ensures var said := RepairActive(root, rawActive).1;
            && Repeated(said) == [] && Reports(said, Quarantined) == 0
            && Reports(said, StaleActive) == if rawActive.JStr? && rawActive.s != "" && !HasId(Shown(root), rawActive.s)
                                             then 1 else 0
  {
    if rawActive.JStr? {
      FindInRootIsFind(root, rawActive.s);
      OneReport(Diagnostic(StaleActive, Some(rawActive.s)), Quarantined);
      OneReport(Diagnostic(StaleActive, Some(rawActive.s)), StaleActive);
    }
  }

  lemma RepeatsOfFour(a: seq<Panel>, b: seq<Panel>, c: seq<Panel>, d: seq<Panel>)
    ensures Repeats(a + b + c + d, {})
         == Repeats(a, {}) + Repeats(b, {} + Ids(a)) + Repeats(c, {} + Ids(a) + Ids(b))
             + Repeats(d, {} + Ids(a) + Ids(b) + Ids(c))
  {
    RepeatsConcat(a + b + c, d, {});
    RepeatsConcat(a + b, c, {});
    RepeatsConcat(a, b, {});
    IdsConcat(a + b, c);
    IdsConcat(a, b);
    assert {} + Ids(a + b) == {} + Ids(a) + Ids(b) && {} + Ids(a + b + c) == {} + Ids(a) + Ids(b) + Ids(c);
  }

  lemma JoinedFive(a: seq<Diagnostic>, b: seq<Diagnostic>, c: seq<Diagnostic>, d: seq<Diagnostic>, e: seq<Diagnostic>)
    ensures var all := a + b + c + d + e;
            && Repeated(all) == Repeated(a) + Repeated(b) + Repeated(c) + Repeated(d) + Repeated(e)
            && Reports(all, Quarantined) == Reports(a, Quarantined) + Reports(b, Quarantined) + Reports(c, Quarantined)
                + Reports(d, Quarantined) + Reports(e, Quarantined)
            && Reports(all, StaleActive) == Reports(a, StaleActive) + Reports(b, StaleActive) + Reports(c, StaleActive)
                + Reports(d, StaleActive) + Reports(e, StaleActive)
  {
    Joined(a, b);
    Joined(a + b, c);
    Joined(a + b + c, d);
    Joined(a + b + c + d, e);
  }

  /**
   * Every panel that is left out for its id is reported under that id, in the order of the regions; every unusable
   * entry of the hidden and closed panels is reported; the saved focus is reported exactly when it names a panel
   * that is not on screen; and a grid counts as repaired exactly when something is reported.
   */
  lemma ReportedExactly(raw: Json, now: real)
    requires IsObject(raw)
    ensures var r, active := NormalizeSpec(raw, now), Field(raw, "activePanelId");
            && Repeated(r.diagnostics) == Repeats(AllOffered(raw, now), {})
            && Reports(r.diagnostics, Quarantined)
               == Unusable(Items(Field(raw, "hiddenPanels")), now) + Unusable(Items(Field(raw, "closedPanels")), now)
            && (Reports(r.diagnostics, StaleActive) > 0 <==>
                  active.JStr? && active.s != "" && !HasId(Shown(r.state.root), active.s))
            && (r.repaired <==> r.diagnostics != [])
  {
    var root := NodeSpec(Field(raw, "root"), now, {});
    var hidden := PanelsSpec(Items(Field(raw, "hiddenPanels")), now, root.seen);
    var groups := GroupsSpec(RawGroups(raw), now, hidden.seen);
    var closed := PanelsSpec(Items(Field(raw, "closedPanels")), now, groups.seen);
    NodeSpecKeeps(Field(raw, "root"), now, {});
    PanelsSpecKeeps(Items(Field(raw, "hiddenPanels")), now, root.seen);
    GroupsSpecKeeps(RawGroups(raw), now, hidden.seen);
    NodeRepeats(Field(raw, "root"), now, {});
    PanelsRepeat(Items(Field(raw, "hiddenPanels")), now, root.seen);
    GroupsRepeat(RawGroups(raw), now, hidden.seen);
    PanelsRepeat(Items(Field(raw, "closedPanels")), now, groups.seen);
    ActiveReport(root.result, Field(raw, "activePanelId"));
    RepeatsOfFour(Offered(Field(raw, "root"), now), OfferedPanels(Items(Field(raw, "hiddenPanels")), now),
                  OfferedAll(RawGroups(raw), now), OfferedPanels(Items(Field(raw, "closedPanels")), now));
    JoinedFive(root.diagnostics, hidden.diagnostics, groups.diagnostics, closed.diagnostics,
               RepairActive(root.result, Field(raw, "activePanelId")).1);
  }
}
