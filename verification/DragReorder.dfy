/** Drag-reorder and resize arithmetic within one split (src/lib/panelGrid.ts), over exact reals. */
module DragReorder {
  import opened Prelude

  /** A panel's measured place along the split. */
  datatype Metric = Metric(id: string, start: real, size: real)

  datatype DragState = DragState(
    draggedId: string, initialIndex: int, currentIndex: int,
    startX: real, currentX: real, moved: bool, metrics: seq<Metric>)

  function Mid(m: Metric): real {
    m.start + m.size / 2.0
  }

  predicate HasInitial(s: DragState) {
    0 <= s.initialIndex < |s.metrics|
  }

  /** How far the panel has been dragged, clamped to the bounds of the split. */
  function DragDistance(s: DragState): real {
    if !HasInitial(s) then 0.0
    else
      var m, first, last := s.metrics[s.initialIndex], s.metrics[0], s.metrics[|s.metrics| - 1];
      Clamp(s.currentX - s.startX, first.start - m.start, last.start + last.size - m.start - m.size)
  }

  /** The last of the panels from `i` on, without a gap, whose middle the dragged end has passed. */
  function RightReach(ms: seq<Metric>, i: nat, end: real): int
    decreases |ms| - i
  {
    if i >= |ms| || end < Mid(ms[i]) then i - 1 else RightReach(ms, i + 1, end)
  }

  function LeftReach(ms: seq<Metric>, i: int, start: real): int
    requires i < |ms|
    decreases i + 1
  {
    if i < 0 || start > Mid(ms[i]) then i + 1 else LeftReach(ms, i - 1, start)
  }

  function DragIndex(s: DragState): int {
    if !HasInitial(s) then s.initialIndex
    else
      var m, d := s.metrics[s.initialIndex], DragDistance(s);
      if d > 0.0 then RightReach(s.metrics, s.initialIndex + 1, m.start + m.size + d)
      else if d < 0.0 then LeftReach(s.metrics, s.initialIndex - 1, m.start + d)
      else s.initialIndex
  }

  method ResolveDragIndex(s: DragState) returns (nextIndex: int)
    ensures nextIndex == DragIndex(s)
  {
    nextIndex := s.initialIndex;
    if !HasInitial(s) {
      return;
    }
    var m, d := s.metrics[s.initialIndex], DragDistance(s);
    if d > 0.0 {
      var end := m.start + m.size + d;
      var i := s.initialIndex + 1;
      while i < |s.metrics|
        invariant s.initialIndex < i <= |s.metrics| && nextIndex == i - 1
        invariant RightReach(s.metrics, i, end) == DragIndex(s)
      {
        if end < Mid(s.metrics[i]) {
          break;
        }
        nextIndex := i;
        i := i + 1;
      }
    } else if d < 0.0 {
      var start := m.start + d;
      var i := s.initialIndex - 1;
      while i >= 0
        invariant -1 <= i < s.initialIndex && nextIndex == i + 1
        invariant LeftReach(s.metrics, i, start) == DragIndex(s)
      {
        if start > Mid(s.metrics[i]) {
          break;
        }
        nextIndex := i;
        i := i - 1;
      }
    }
  }

  function DragOffset(s: DragState, panelId: string, panelIndex: int): real {
    if !s.moved then 0.0
    else if panelId == s.draggedId then DragDistance(s)
    else
      var size := if HasInitial(s) then s.metrics[s.initialIndex].size else 0.0;
      if s.initialIndex < s.currentIndex && s.initialIndex < panelIndex <= s.currentIndex then -size
      else if s.initialIndex > s.currentIndex && s.currentIndex <= panelIndex < s.initialIndex then size
      else 0.0
  }

  // ----- The target index -----

  lemma {:induction false} RightReachBounds(ms: seq<Metric>, i: nat, end: real)
    requires 0 < i <= |ms|
    ensures i - 1 <= RightReach(ms, i, end) < |ms|
    decreases |ms| - i
  {
    if i < |ms| && end >= Mid(ms[i]) {
      RightReachBounds(ms, i + 1, end);
    }
  }

  lemma {:induction false} LeftReachBounds(ms: seq<Metric>, i: int, start: real)
    requires -1 <= i < |ms|
    ensures 0 <= LeftReach(ms, i, start) <= i + 1
    decreases i + 1
  {
    if i >= 0 && start <= Mid(ms[i]) {
      LeftReachBounds(ms, i - 1, start);
    }
  }

  /** The index names a panel exactly when the initial index does. */
  lemma DragIndexInBounds(s: DragState)
    ensures 0 <= DragIndex(s) < |s.metrics| <==> HasInitial(s)
    ensures HasInitial(s) && DragDistance(s) >= 0.0 ==> DragIndex(s) >= s.initialIndex
    ensures HasInitial(s) && DragDistance(s) <= 0.0 ==> DragIndex(s) <= s.initialIndex
  {
    if HasInitial(s) {
      var m, d := s.metrics[s.initialIndex], DragDistance(s);
      RightReachBounds(s.metrics, s.initialIndex + 1, m.start + m.size + d);
      LeftReachBounds(s.metrics, s.initialIndex - 1, m.start + d);
    }
  }

  lemma {:induction false} RightReachMonotone(ms: seq<Metric>, i: nat, a: real, b: real)
    requires a <= b
    ensures RightReach(ms, i, a) <= RightReach(ms, i, b)
    decreases |ms| - i
  {
    if i < |ms| && b >= Mid(ms[i]) {
      RightReachMonotone(ms, i + 1, a, b);
      RightReachAtLeast(ms, i + 1, b);
    }
  }

  lemma {:induction false} RightReachAtLeast(ms: seq<Metric>, i: nat, end: real)
    ensures RightReach(ms, i, end) >= i - 1
    decreases |ms| - i
  {
    if i < |ms| && end >= Mid(ms[i]) {
      RightReachAtLeast(ms, i + 1, end);
    }
  }

  lemma {:induction false} LeftReachMonotone(ms: seq<Metric>, i: int, a: real, b: real)
    requires -1 <= i < |ms| && a <= b
    ensures LeftReach(ms, i, a) <= LeftReach(ms, i, b)
    decreases i + 1
  {
    if i >= 0 && a <= Mid(ms[i]) {
      LeftReachMonotone(ms, i - 1, a, b);
      LeftReachBounds(ms, i - 1, a);
    }
  }

  /** Dragging further never moves the target index back. */
  lemma DragIndexMonotone(s: DragState, x: real)
    requires s.currentX <= x
    ensures DragIndex(s) <= DragIndex(s.(currentX := x))
  {
    var t := s.(currentX := x);
    DragIndexInBounds(s);
    DragIndexInBounds(t);
    if HasInitial(s) {
      var m, d, e := s.metrics[s.initialIndex], DragDistance(s), DragDistance(t);
      assert d <= e;
      RightReachMonotone(s.metrics, s.initialIndex + 1, m.start + m.size + d, m.start + m.size + e);
      LeftReachMonotone(s.metrics, s.initialIndex - 1, m.start + d, m.start + e);
    }
  }

  /** Panels lie end to end. */
  ghost predicate Contiguous(ms: seq<Metric>) {
    && (forall i :: 0 <= i < |ms| ==> ms[i].size >= 0.0)
    && (forall i :: 0 < i < |ms| ==> ms[i].start == ms[i - 1].start + ms[i - 1].size)
  }

  lemma {:induction false} StartsIncrease(ms: seq<Metric>, i: nat, j: nat)
    requires Contiguous(ms) && i <= j < |ms|
    ensures ms[i].start <= ms[j].start && ms[i].start + ms[i].size <= ms[j].start + ms[j].size
    decreases j
  {
    if i < j {
      StartsIncrease(ms, i, j - 1);
    }
  }

  /** Once moved, the dragged panel follows the pointer as far as it stays between the outer edges of the split. */
  lemma DragDistanceExactly(s: DragState)
    requires Contiguous(s.metrics)
    ensures !HasInitial(s) ==> DragDistance(s) == 0.0
    ensures forall i :: DragOffset(s, s.draggedId, i) == if s.moved then DragDistance(s) else 0.0
    ensures !s.moved ==> forall id, i :: DragOffset(s, id, i) == 0.0
    ensures HasInitial(s) ==>
            var m, d, asked := s.metrics[s.initialIndex], DragDistance(s), s.currentX - s.startX;
            var left, last := s.metrics[0].start, s.metrics[|s.metrics| - 1];
            var right := last.start + last.size;
            && left <= m.start + d && m.start + m.size + d <= right
            && (m.start + asked <= left ==> m.start + d == left)
            && (m.start + m.size + asked >= right ==> m.start + m.size + d == right)
            && (left <= m.start + asked && m.start + m.size + asked <= right ==> d == asked)
  {
    if HasInitial(s) {
      StartsIncrease(s.metrics, 0, s.initialIndex);
      StartsIncrease(s.metrics, s.initialIndex, |s.metrics| - 1);
    }
  }

  lemma {:induction false} MidsIncrease(ms: seq<Metric>, i: nat, j: nat)
    requires Contiguous(ms) && i <= j < |ms|
    ensures Mid(ms[i]) <= Mid(ms[j])
    decreases j
  {
    if i < j {
      MidsIncrease(ms, i, j - 1);
    }
  }

  lemma {:induction false} RightReachExactly(ms: seq<Metric>, i: nat, end: real, k: nat)
    requires Contiguous(ms) && i <= k < |ms|
    ensures k <= RightReach(ms, i, end) <==> end >= Mid(ms[k])
    decreases |ms| - i
  {
    MidsIncrease(ms, i, k);
    if end >= Mid(ms[i]) {
      if i < k {
        RightReachExactly(ms, i + 1, end, k);
      } else {
        RightReachAtLeast(ms, i + 1, end);
      }
    }
  }

  lemma {:induction false} LeftReachExactly(ms: seq<Metric>, i: int, start: real, k: nat)
    requires Contiguous(ms) && k <= i < |ms|
    ensures k >= LeftReach(ms, i, start) <==> start <= Mid(ms[k])
    decreases i + 1
  {
    MidsIncrease(ms, k, i);
    if start <= Mid(ms[i]) {
      if k < i {
        LeftReachExactly(ms, i - 1, start, k);
      } else {
        LeftReachBounds(ms, i - 1, start);
      }
    }
  }

  /** With panels end to end, a panel is passed exactly when the dragged edge is past its middle. */
  lemma DragIndexExactly(s: DragState, k: nat)
    requires HasInitial(s) && Contiguous(s.metrics) && k < |s.metrics|
    ensures var m, d := s.metrics[s.initialIndex], DragDistance(s);
            && (k > s.initialIndex ==> (k <= DragIndex(s) <==> d > 0.0 && m.start + m.size + d >= Mid(s.metrics[k])))
            && (k < s.initialIndex ==> (k >= DragIndex(s) <==> d < 0.0 && m.start + d <= Mid(s.metrics[k])))
  {
    var m, d := s.metrics[s.initialIndex], DragDistance(s);
    DragIndexInBounds(s);
    if k > s.initialIndex {
      RightReachExactly(s.metrics, s.initialIndex + 1, m.start + m.size + d, k);
    } else if k < s.initialIndex {
      LeftReachExactly(s.metrics, s.initialIndex - 1, m.start + d, k);
    }
  }

  // ----- Offsets during the drag are positions after the drop -----

  /** The list with one element moved to another index. */
  function Reordered<T>(xs: seq<T>, from: nat, to: nat): (r: seq<T>)
    requires from < |xs| && to < |xs|
    ensures |r| == |xs|
  {
    var rest := xs[..from] + xs[from + 1..];
    rest[..to] + [xs[from]] + rest[to..]
  }

  /** Where the element at `j` is after the move. */
  function NewIndex(j: nat, from: nat, to: nat): nat {
    if j == from then to
    else if from < j <= to then j - 1
    else if to <= j < from then j + 1
    else j
  }

  function Sizes(ms: seq<Metric>): (r: seq<real>)
    ensures |r| == |ms| && forall i :: 0 <= i < |ms| ==> r[i] == ms[i].size
  {
    if ms == [] then [] else [ms[0].size] + Sizes(ms[1..])
  }

  /** The start of the panel at `i` when the panels are laid out end to end from `origin`. */
  function StartAt(ms: seq<Metric>, origin: real, i: nat): real
    requires i <= |ms|
  {
    origin + Sum(Sizes(ms[..i]))
  }

  lemma SizesConcat(a: seq<Metric>, b: seq<Metric>)
    ensures Sum(Sizes(a + b)) == Sum(Sizes(a)) + Sum(Sizes(b))
  {
    assert Sizes(a + b) == Sizes(a) + Sizes(b);
    SumConcat(Sizes(a), Sizes(b));
  }

  lemma SizesOne(m: Metric)
    ensures Sum(Sizes([m])) == m.size
  {
    assert Sizes([m]) == [m.size];
    assert Sum([m.size]) == m.size + Sum([]);
  }

  lemma {:induction false} ContiguousStart(ms: seq<Metric>, j: nat)
    requires Contiguous(ms) && j < |ms|
    ensures ms[j].start == StartAt(ms, ms[0].start, j)
  {
    if j > 0 {
      ContiguousStart(ms, j - 1);
      assert ms[..j] == ms[..j - 1] + [ms[j - 1]];
      SizesConcat(ms[..j - 1], [ms[j - 1]]);
      SizesOne(ms[j - 1]);
    } else {
      assert Sizes(ms[..0]) == [];
    }
  }

  lemma ReorderedAt<T>(xs: seq<T>, from: nat, to: nat, j: nat)
    requires from < |xs| && to < |xs| && j < |xs|
    ensures NewIndex(j, from, to) < |xs| && Reordered(xs, from, to)[NewIndex(j, from, to)] == xs[j]
  {
  }

  lemma SizesThree(a: seq<Metric>, m: Metric, b: seq<Metric>)
    ensures Sum(Sizes(a + [m] + b)) == Sum(Sizes(a + b)) + m.size
    ensures Sum(Sizes(a + b)) == Sum(Sizes(a)) + Sum(Sizes(b))
  {
    SizesConcat(a + [m], b);
    SizesConcat(a, [m]);
    SizesOne(m);
    SizesConcat(a, b);
  }

  lemma PrefixPastFrom<T>(xs: seq<T>, from: nat, to: nat, j: nat)
    requires from < j <= to < |xs|
    ensures Reordered(xs, from, to)[..j - 1] == xs[..from] + xs[from + 1..j]
    ensures xs[..j] == xs[..from] + [xs[from]] + xs[from + 1..j]
  {
  }

  lemma PrefixPastTo<T>(xs: seq<T>, from: nat, to: nat, j: nat)
    requires to <= j < from < |xs|
    ensures Reordered(xs, from, to)[..j + 1] == xs[..to] + [xs[from]] + xs[to..j]
    ensures xs[..j] == xs[..to] + xs[to..j]
  {
  }

  lemma PrefixPastBoth<T>(xs: seq<T>, from: nat, to: nat, j: nat)
    requires from < j <= |xs| && to < j
    ensures var rest := xs[..from] + xs[from + 1..j];
            && Reordered(xs, from, to)[..j] == rest[..to] + [xs[from]] + rest[to..]
            && rest[..to] + rest[to..] == rest
    ensures xs[..j] == xs[..from] + [xs[from]] + xs[from + 1..j]
  {
  }

  /** The widths in front of a panel after the move. */
  lemma ReorderedPrefix(ms: seq<Metric>, from: nat, to: nat, j: nat)
    requires from < |ms| && to < |ms| && j < |ms| && j != from
    ensures var shift := if from < j <= to then -ms[from].size else if to <= j < from then ms[from].size else 0.0;
            Sum(Sizes(Reordered(ms, from, to)[..NewIndex(j, from, to)])) == Sum(Sizes(ms[..j])) + shift
  {
    if from < j <= to {
      PrefixPastFrom(ms, from, to, j);
      SizesThree(ms[..from], ms[from], ms[from + 1..j]);
    } else if to <= j < from {
      PrefixPastTo(ms, from, to, j);
      SizesThree(ms[..to], ms[from], ms[to..j]);
    } else if from < j {
      PrefixPastBoth(ms, from, to, j);
      var rest := ms[..from] + ms[from + 1..j];
      SizesThree(ms[..from], ms[from], ms[from + 1..j]);
      SizesThree(rest[..to], ms[from], rest[to..]);
    } else {
      assert Reordered(ms, from, to)[..j] == ms[..j];
    }
  }

  /**
   * While a panel is dragged every other panel is already drawn where the drop will put it: its start plus
   * its offset is its start in the reordered layout.
   */
  lemma DragCoherence(s: DragState, j: nat)
    requires HasInitial(s) && 0 <= s.currentIndex < |s.metrics| && s.moved
    requires Contiguous(s.metrics) && j < |s.metrics| && j != s.initialIndex && s.metrics[j].id != s.draggedId
    ensures var k := NewIndex(j, s.initialIndex, s.currentIndex);
            var after := Reordered(s.metrics, s.initialIndex, s.currentIndex);
            && k < |after| && after[k] == s.metrics[j]
            && s.metrics[j].start + DragOffset(s, s.metrics[j].id, j) == StartAt(after, s.metrics[0].start, k)
  {
    ReorderedAt(s.metrics, s.initialIndex, s.currentIndex, j);
    ContiguousStart(s.metrics, j);
    ReorderedPrefix(s.metrics, s.initialIndex, s.currentIndex, j);
  }
}
