/** Panels, their tabs, and collections of panels identified by id. */
module Panels {
  import opened Prelude

  datatype PanelType = Chat | Terminal | File | Schematic | Omp

  datatype PanelTab = PanelTab(
    id: string, kind: PanelType, title: string,
    chatSessionId: Option<string>, terminalId: Option<real>, filePath: Option<string>,
    createdAt: real)

  datatype Panel = Panel(
    id: string, kind: PanelType, title: string,
    chatSessionId: Option<string>, terminalId: Option<real>, filePath: Option<string>,
    createdAt: real, lastUsedAt: Option<real>,
    tabs: Option<seq<PanelTab>>, activeTabId: Option<string>)

  datatype DropSide = Left | Right | Top | Bottom | Center

  /** No splitter makes a share smaller than this. */
  const MIN_SPLIT_SIZE := 0.1

  function PanelToTab(p: Panel): PanelTab {
    PanelTab(p.id, p.kind, p.title, p.chatSessionId, p.terminalId, p.filePath, p.createdAt)
  }

  /** The target's own identity becomes its first tab unless it already has tabs. */
  function AddTabToPanelLeaf(target: Panel, newPanel: Panel): Panel {
    var existing := target.tabs.GetOr([PanelToTab(target)]);
    target.(tabs := Some(existing + [PanelToTab(newPanel)]), activeTabId := Some(newPanel.id))
  }

  /** `tabs.find((t) => t.id === id)`. */
  function FindTab(tabs: seq<PanelTab>, id: string): (r: Option<PanelTab>)
    ensures r.Some? ==> r.value in tabs && r.value.id == id
  {
    if tabs == [] then None else if tabs[0].id == id then Some(tabs[0]) else FindTab(tabs[1..], id)
  }

  /** The tab a panel shows: the active one, the first one, or the panel's own identity. */
  function ActiveTab(p: Panel): PanelTab {
    if p.tabs.Some? && p.tabs.value != [] then
      var active := if p.activeTabId.Some? then FindTab(p.tabs.value, p.activeTabId.value) else None;
      active.GetOr(p.tabs.value[0])
    else PanelToTab(p)
  }

  // ----- Collections of panels -----

  /** How often an id occurs. */
  function CountId(ps: seq<Panel>, id: string): nat {
    if ps == [] then 0 else (if ps[0].id == id then 1 else 0) + CountId(ps[1..], id)
  }

  predicate HasId(ps: seq<Panel>, id: string) {
    CountId(ps, id) > 0
  }

  /** No id occurs twice. */
  ghost predicate Unique(ps: seq<Panel>) {
    forall id :: CountId(ps, id) <= 1
  }

  /** `ps.find((p) => p.id === id)`. */
  function Find(ps: seq<Panel>, id: string): (r: Option<Panel>)
    ensures r.Some? <==> HasId(ps, id)
    ensures r.Some? ==> r.value in ps && r.value.id == id
  {
    if ps == [] then None else if ps[0].id == id then Some(ps[0]) else Find(ps[1..], id)
  }

  /** `ps.filter((p) => p.id !== id)`. */
  function Without(ps: seq<Panel>, id: string): seq<Panel> {
    if ps == [] then [] else if ps[0].id == id then Without(ps[1..], id) else [ps[0]] + Without(ps[1..], id)
  }

  lemma {:induction false} CountConcat(a: seq<Panel>, b: seq<Panel>, id: string)
    ensures CountId(a + b, id) == CountId(a, id) + CountId(b, id)
  {
    if a == [] {
      assert a + b == b;
    } else {
      assert (a + b)[1..] == a[1..] + b;
      CountConcat(a[1..], b, id);
    }
  }

  lemma UniqueConcat(a: seq<Panel>, b: seq<Panel>)
    ensures Unique(a + b) <==> Unique(a) && Unique(b) && forall id :: !HasId(a, id) || !HasId(b, id)
  {
    forall id
      ensures CountId(a + b, id) <= 1 <==>
                CountId(a, id) <= 1 && CountId(b, id) <= 1 && (!HasId(a, id) || !HasId(b, id))
    {
      CountConcat(a, b, id);
    }
    if Unique(a + b) {
      forall id ensures CountId(a, id) <= 1 && CountId(b, id) <= 1 && (!HasId(a, id) || !HasId(b, id)) {
        assert CountId(a + b, id) <= 1;
      }
    }
  }

  lemma {:induction false} MemberHasId(ps: seq<Panel>, p: Panel)
    requires p in ps
    ensures HasId(ps, p.id)
  {
    if ps[0] != p {
      MemberHasId(ps[1..], p);
    }
  }

  lemma CountRemoveAt(ps: seq<Panel>, k: nat, id: string)
    requires k < |ps|
    ensures CountId(ps, id) == CountId(ps[..k] + ps[k + 1..], id) + if ps[k].id == id then 1 else 0
  {
    var x, y := ps[..k], ps[k + 1..];
    assert ps == x + [ps[k]] + y;
    CountConcat(x, y, id);
    CountConcat(x + [ps[k]], y, id);
    CountConcat(x, [ps[k]], id);
  }

  /** Counting does not depend on order. */
  lemma {:induction false} CountPermutation(a: seq<Panel>, b: seq<Panel>, id: string)
    requires multiset(a) == multiset(b)
    ensures CountId(a, id) == CountId(b, id)
  {
    if a == [] {
      assert |b| == |multiset(b)| == 0;
    } else {
      var k := RestsPermute(a, b);
      CountRemoveAt(b, k, id);
      CountPermutation(a[1..], b[..k] + b[k + 1..], id);
    }
  }

  /** Uniqueness says what it should: panels at different positions have different ids. */
  lemma {:induction false} UniqueMeansPairwise(ps: seq<Panel>, i: nat, j: nat)
    requires Unique(ps) && i < j < |ps|
    ensures ps[i].id != ps[j].id
  {
    var a, b := ps[..j], ps[j..];
    assert ps == a + b && a[i] in a && b[0] in b;
    MemberHasId(a, a[i]);
    MemberHasId(b, b[0]);
    CountConcat(a, b, ps[j].id);
  }

  lemma {:induction false} FindConcat(a: seq<Panel>, b: seq<Panel>, id: string)
    ensures Find(a + b, id) == if HasId(a, id) then Find(a, id) else Find(b, id)
  {
    if a == [] {
      assert a + b == b;
    } else {
      assert (a + b)[1..] == a[1..] + b;
      FindConcat(a[1..], b, id);
    }
  }

  lemma {:induction false} WithoutAbsent(ps: seq<Panel>, id: string)
    requires !HasId(ps, id)
    ensures Without(ps, id) == ps
  {
    if ps != [] {
      WithoutAbsent(ps[1..], id);
    }
  }

  lemma {:induction false} WithoutConcat(a: seq<Panel>, b: seq<Panel>, id: string)
    ensures Without(a + b, id) == Without(a, id) + Without(b, id)
  {
    if a == [] {
      assert a + b == b;
    } else {
      assert (a + b)[1..] == a[1..] + b;
      WithoutConcat(a[1..], b, id);
    }
  }

  lemma {:induction false} CountWithout(ps: seq<Panel>, id: string, x: string)
    ensures CountId(Without(ps, id), x) == if x == id then 0 else CountId(ps, x)
  {
    if ps != [] {
      CountWithout(ps[1..], id, x);
    }
  }

  lemma UniqueWithout(ps: seq<Panel>, id: string)
    requires Unique(ps)
    ensures Unique(Without(ps, id)) && !HasId(Without(ps, id), id)
  {
    forall x ensures CountId(Without(ps, id), x) <= 1 {
      CountWithout(ps, id, x);
    }
    CountWithout(ps, id, id);
  }

  /** Filtering an id out of a collection with unique ids takes out exactly that panel. */
  lemma {:induction false} WithoutTakesOne(ps: seq<Panel>, p: Panel)
    requires p in ps && CountId(ps, p.id) == 1
    ensures multiset(Without(ps, p.id)) + multiset{p} == multiset(ps)
  {
    assert ps == [ps[0]] + ps[1..];
    if p in ps[1..] {
      MemberHasId(ps[1..], p);
      WithoutTakesOne(ps[1..], p);
    } else {
      WithoutAbsent(ps[1..], p.id);
    }
  }

  /** The one place where a unique id occurs. */
  lemma {:induction false} WithoutMiddle(a: seq<Panel>, p: Panel, b: seq<Panel>)
    requires CountId(a + [p] + b, p.id) == 1
    ensures !HasId(a, p.id) && !HasId(b, p.id)
    ensures Without(a + [p] + b, p.id) == a + b
  {
    CountConcat(a + [p], b, p.id);
    CountConcat(a, [p], p.id);
    WithoutConcat(a + [p], b, p.id);
    WithoutConcat(a, [p], p.id);
    WithoutAbsent(a, p.id);
    WithoutAbsent(b, p.id);
  }
}
