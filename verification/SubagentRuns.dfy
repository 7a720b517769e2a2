/**
 * Folding live subagent events into a task card's runs (src/lib/native-chat.ts). `undefined` and null both
 * read as None in a run; in an event a field that is absent (Keep) differs from one that is null.
 */
module SubagentRuns {
  import opened Prelude
  import opened StableSort

  datatype PendingApproval = PendingApproval(toolCallId: string, toolName: string, command: Option<string>,
      arguments: string)

  datatype Run = Run(
    index: real, name: string, childSessionId: string, status: string,
    result: Option<string>, activity: Option<string>, pendingApproval: Option<PendingApproval>)

  datatype Patch<+T> = Keep | Set(value: Option<T>) {
    function Over(old_: Option<T>): Option<T> {
      if Keep? then old_ else value
    }
  }

  datatype Event = Event(
    index: real, name: string, childSessionId: string, status: string,
    result: Patch<string>, activity: Patch<string>, pendingApproval: Patch<PendingApproval>)

  predicate Terminal(status: string) {
    status == "completed" || status == "failed" || status == "cancelled"
  }

  function Find(runs: seq<Run>, index: real): Option<Run> {
    if runs == [] then None else if runs[0].index == index then Some(runs[0]) else Find(runs[1..], index)
  }

  function Without(runs: seq<Run>, index: real): seq<Run> {
    if runs == [] then []
    else (if runs[0].index == index then [] else [runs[0]]) + Without(runs[1..], index)
  }

  function Fresh(e: Event): Run {
    Run(e.index, e.name, e.childSessionId, e.status, None, None, None)
  }

  function Next(base: Run, e: Event): Run {
    Run(base.index, e.name, e.childSessionId, e.status, e.result.Over(base.result),
        if Terminal(e.status) then None else e.activity.Over(base.activity),
        if Terminal(e.status) then None else e.pendingApproval.Over(base.pendingApproval))
  }

  predicate IndexBefore(a: Run, b: Run) {
    a.index < b.index
  }

  function MergeSubagentEvent(runs: seq<Run>, e: Event): seq<Run> {
    Sort(Without(runs, e.index) + [Next(Find(runs, e.index).GetOr(Fresh(e)), e)], IndexBefore)
  }

  function Fold(runs: seq<Run>, events: seq<Event>): seq<Run>
    decreases events
  {
    if events == [] then runs else Fold(MergeSubagentEvent(runs, events[0]), events[1..])
  }

  // ----- One event is one map update -----

  function AtIndex(index: real): Run -> nat {
    (r: Run) => if r.index == index then 1 else 0
  }

  /** No index occurs twice. */
  ghost predicate UniqueIndices(runs: seq<Run>) {
    forall index :: Total(runs, AtIndex(index)) <= 1
  }

  ghost predicate Ordered(runs: seq<Run>) {
    forall i, j :: 0 <= i < j < |runs| ==> runs[i].index < runs[j].index
  }

  lemma {:induction false} FindIsMember(runs: seq<Run>, index: real)
    ensures Find(runs, index).Some? <==> Total(runs, AtIndex(index)) > 0
    ensures Find(runs, index).Some? ==> Find(runs, index).value in runs && Find(runs, index).value.index == index
  {
    if runs != [] {
      FindIsMember(runs[1..], index);
    }
  }

  /** With unique indices, whatever is a member is what is found. */
  lemma MemberIsFound(runs: seq<Run>, r: Run)
    requires Total(runs, AtIndex(r.index)) <= 1 && r in runs
    ensures Find(runs, r.index) == Some(r)
  {
    var i :| 0 <= i < |runs| && runs[i] == r;
    TotalAt(runs, AtIndex(r.index), i);
    FindIsMember(runs, r.index);
    var found := Find(runs, r.index).value;
    var j :| 0 <= j < |runs| && runs[j] == found;
    if i != j {
      TotalTwice(runs, AtIndex(r.index), if i < j then i else j, if i < j then j else i);
    }
  }

  lemma {:induction false} WithoutTotals(runs: seq<Run>, index: real, other: real)
    ensures Total(Without(runs, index), AtIndex(other)) == if other == index then 0 else Total(runs, AtIndex(other))
    ensures forall r :: r in Without(runs, index) <==> r in runs && r.index != index
  {
    if runs != [] {
      WithoutTotals(runs[1..], index, other);
      var rest := Without(runs[1..], index);
      if runs[0].index == index {
        assert [] + rest == rest;
      } else {
        assert ([runs[0]] + rest)[1..] == rest;
      }
    }
  }

  lemma MergedTotals(runs: seq<Run>, e: Event, index: real)
    ensures Total(MergeSubagentEvent(runs, e), AtIndex(index)) == if index == e.index then 1
        else Total(runs, AtIndex(index))
    ensures forall r :: r in MergeSubagentEvent(runs, e) <==>
              (r in runs && r.index != e.index) || r == Next(Find(runs, e.index).GetOr(Fresh(e)), e)
  {
    FindIsMember(runs, e.index);
    var kept, next := Without(runs, e.index), Next(Find(runs, e.index).GetOr(Fresh(e)), e);
    WithoutTotals(runs, e.index, index);
    TotalConcat(kept, [next], AtIndex(index));
    assert Total([next], AtIndex(index)) == AtIndex(index)(next) + Total([next][1..], AtIndex(index))
        && [next][1..] == [];
    SortTotal(kept + [next], IndexBefore, AtIndex(index));
  }

  /** One event keeps the list ordered without repeats, and updates exactly the run at its index. */
  lemma MergeUpdatesOneRun(runs: seq<Run>, e: Event, index: real)
    requires UniqueIndices(runs)
    ensures UniqueIndices(MergeSubagentEvent(runs, e)) && Ordered(MergeSubagentEvent(runs, e))
    ensures Find(MergeSubagentEvent(runs, e), index)
            == if index == e.index then Some(Next(Find(runs, index).GetOr(Fresh(e)), e)) else Find(runs, index)
  {
    var merged := MergeSubagentEvent(runs, e);
    forall i ensures Total(merged, AtIndex(i)) <= 1 {
      MergedTotals(runs, e, i);
    }
    MergedOrdered(runs, e);
    MergedTotals(runs, e, index);
    FindIsMember(runs, e.index);
    FindIsMember(runs, index);
    FindIsMember(merged, index);
    if index == e.index {
      MemberIsFound(merged, Next(Find(runs, index).GetOr(Fresh(e)), e));
    } else if Find(runs, index).Some? {
      MemberIsFound(merged, Find(runs, index).value);
    }
  }

  lemma MergedOrdered(runs: seq<Run>, e: Event)
    requires UniqueIndices(MergeSubagentEvent(runs, e))
    ensures Ordered(MergeSubagentEvent(runs, e))
  {
    var merged := MergeSubagentEvent(runs, e);
    SortSorted(Without(runs, e.index) + [Next(Find(runs, e.index).GetOr(Fresh(e)), e)], IndexBefore);
    forall i, j | 0 <= i < j < |merged| ensures merged[i].index < merged[j].index {
      assert !IndexBefore(merged[j], merged[i]);
      TotalTwice(merged, AtIndex(merged[i].index), i, j);
    }
  }

  // ----- Interleavings -----

  /** The events addressed to one run, in order. */
  function Only(events: seq<Event>, index: real): seq<Event> {
    if events == [] then [] else (if events[0].index == index then [events[0]] else []) + Only(events[1..], index)
  }

  function FoldOne(run: Option<Run>, events: seq<Event>): Option<Run>
    decreases events
  {
    if events == [] then run else FoldOne(Some(Next(run.GetOr(Fresh(events[0])), events[0])), events[1..])
  }

  /** After any run of events, each index holds the fold of its own events. */
  lemma {:induction false} FoldIsPerIndex(runs: seq<Run>, events: seq<Event>, index: real)
    requires UniqueIndices(runs)
    ensures UniqueIndices(Fold(runs, events)) && (events != [] ==> Ordered(Fold(runs, events)))
    ensures Find(Fold(runs, events), index) == FoldOne(Find(runs, index), Only(events, index))
    decreases events
  {
    if events != [] {
      var e := events[0];
      MergeUpdatesOneRun(runs, e, index);
      FoldIsPerIndex(MergeSubagentEvent(runs, e), events[1..], index);
      var rest := Only(events[1..], index);
      if e.index == index {
        assert ([e] + rest)[1..] == rest;
      } else {
        assert [] + rest == rest;
      }
    }
  }

  lemma BothEmpty(a: seq<Run>, b: seq<Run>)
    requires forall i :: Find(a, i) == Find(b, i)
    ensures a == [] <==> b == []
  {
    if a != [] {
      assert Find(a, a[0].index).Some?;
    }
    if b != [] {
      assert Find(b, b[0].index).Some?;
    }
  }

  /** An ordered list is determined by what is found in it. */
  lemma {:induction false} OrderedByFind(a: seq<Run>, b: seq<Run>)
    requires Ordered(a) && Ordered(b) && forall i :: Find(a, i) == Find(b, i)
    ensures a == b
  {
    BothEmpty(a, b);
    if a != [] {
      FindIsMember(a, b[0].index);
      FindIsMember(b, a[0].index);
      assert Find(a, a[0].index) == Some(a[0]) && Find(b, b[0].index) == Some(b[0]);
      assert a[0] == b[0];
      forall i ensures Find(a[1..], i) == Find(b[1..], i) {
        assert Find(a, i) == Find(b, i);
        if i == a[0].index {
          FindIsMember(a[1..], i);
          FindIsMember(b[1..], i);
        }
      }
      OrderedByFind(a[1..], b[1..]);
      assert a == [a[0]] + a[1..] && b == [b[0]] + b[1..];
    }
  }

  lemma BothQuiet(a: seq<Event>, b: seq<Event>)
    requires forall index :: Only(a, index) == Only(b, index)
    ensures a == [] <==> b == []
  {
    if a != [] {
      assert Only(a, a[0].index) != [];
    }
    if b != [] {
      assert Only(b, b[0].index) != [];
    }
  }

  /** Any two interleavings of the same per-run event sequences give the same list of runs. */
  lemma InterleavingsAgree(runs: seq<Run>, a: seq<Event>, b: seq<Event>)
    requires UniqueIndices(runs) && forall index :: Only(a, index) == Only(b, index)
    ensures Fold(runs, a) == Fold(runs, b)
  {
    BothQuiet(a, b);
    if a != [] {
      FoldIsPerIndex(runs, a, 0.0);
      FoldIsPerIndex(runs, b, 0.0);
      forall i ensures Find(Fold(runs, a), i) == Find(Fold(runs, b), i) {
        FoldIsPerIndex(runs, a, i);
        FoldIsPerIndex(runs, b, i);
      }
      OrderedByFind(Fold(runs, a), Fold(runs, b));
    }
  }

  // ----- What a run shows, read from the last event back -----

  function LastResult(events: seq<Event>, old_: Option<string>): Option<string> {
    if events == [] then old_
    else
      var e := events[|events| - 1];
      if e.result.Set? then e.result.value else LastResult(events[..|events| - 1], old_)
  }

  /** Nothing from before a final event counts. */
  function LastActivity(events: seq<Event>, old_: Option<string>): Option<string> {
    if events == [] then old_
    else
      var e := events[|events| - 1];
      if e.status in ["completed", "failed", "cancelled"] then None
      else if e.activity.Set? then e.activity.value
      else LastActivity(events[..|events| - 1], old_)
  }

  function LastApproval(events: seq<Event>, old_: Option<PendingApproval>): Option<PendingApproval> {
    if events == [] then old_
    else
      var e := events[|events| - 1];
      if e.status in ["completed", "failed", "cancelled"] then None
      else if e.pendingApproval.Set? then e.pendingApproval.value
      else LastApproval(events[..|events| - 1], old_)
  }

  lemma {:induction false} FoldOneMore(run: Option<Run>, events: seq<Event>, e: Event)
    ensures FoldOne(run, events + [e]) == Some(Next(FoldOne(run, events).GetOr(Fresh(e)), e))
    decreases events
  {
    if events == [] {
      assert events + [e] == [e] && [e][1..] == [];
    } else {
      assert (events + [e])[1..] == events[1..] + [e];
      FoldOneMore(Some(Next(run.GetOr(Fresh(events[0])), events[0])), events[1..], e);
      FoldOneSome(run, events);
    }
  }

  lemma {:induction false} FoldOneSome(run: Option<Run>, events: seq<Event>)
    ensures FoldOne(run, events).Some? <==> run.Some? || events != []
    decreases events
  {
    if events != [] {
      FoldOneSome(Some(Next(run.GetOr(Fresh(events[0])), events[0])), events[1..]);
    }
  }

  /** The run of one index, told from its own events only, the last one first. */
  ghost predicate Tells(run: Option<Run>, events: seq<Event>, r: Run) {
    && events != []
    && var last := events[|events| - 1];
    && r.name == last.name && r.childSessionId == last.childSessionId && r.status == last.status
    && r.result == LastResult(events, if run.Some? then run.value.result else None)
    && r.activity == LastActivity(events, if run.Some? then run.value.activity else None)
    && r.pendingApproval == LastApproval(events, if run.Some? then run.value.pendingApproval else None)
  }

  lemma {:induction false} FoldOneTells(run: Option<Run>, events: seq<Event>)
    requires events != []
    ensures FoldOne(run, events).Some? && Tells(run, events, FoldOne(run, events).value)
  {
    var before, e := events[..|events| - 1], events[|events| - 1];
    assert events == before + [e];
    FoldOneMore(run, before, e);
    if before != [] {
      FoldOneTells(run, before);
    }
  }

  /**
   * After any events a run has the name, the session and the status of its own last event, the last result any of
   * them sets, and the last activity and pending approval set since the last final event.
   */
  lemma RunExactly(runs: seq<Run>, events: seq<Event>, index: real)
    requires UniqueIndices(runs)
    ensures var r := Find(Fold(runs, events), index);
            if Only(events, index) == [] then r == Find(runs, index)
            else r.Some? && r.value.index == index && Tells(Find(runs, index), Only(events, index), r.value)
  {
    FoldIsPerIndex(runs, events, index);
    FindIsMember(Fold(runs, events), index);
    if Only(events, index) != [] {
      FoldOneTells(Find(runs, index), Only(events, index));
    }
  }
}
