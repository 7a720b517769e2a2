/** Resizing a split of the N-ary tree (src/lib/panelGrid.ts). */
module Resize {
  import opened Prelude
  import opened Panels
  import opened SplitTree

  /** The two sizes next to a splitter after it is dragged. */
  function ResizedPair(a: real, b: real, delta: real): (real, real) {
    var left, right := a + delta, b - delta;
    var (left1, right1) := if left < MIN_SPLIT_SIZE then (MIN_SPLIT_SIZE, right - (MIN_SPLIT_SIZE - left))
        else (left, right);
    if right1 < MIN_SPLIT_SIZE then (left1 - (MIN_SPLIT_SIZE - right1), MIN_SPLIT_SIZE) else (left1, right1)
  }

  method ResizeSizes(before: seq<real>, childIndex: nat, delta: real) returns (sizes: seq<real>)
    requires childIndex + 1 < |before|
    ensures var (left, right) := ResizedPair(before[childIndex], before[childIndex + 1], delta);
            sizes == before[childIndex := left][childIndex + 1 := right]
  {
    sizes := before;
    var left, right := sizes[childIndex] + delta, sizes[childIndex + 1] - delta;
    if left < MIN_SPLIT_SIZE {
      right := right - (MIN_SPLIT_SIZE - left);
      left := MIN_SPLIT_SIZE;
    }
    if right < MIN_SPLIT_SIZE {
      left := left - (MIN_SPLIT_SIZE - right);
      right := MIN_SPLIT_SIZE;
    }
    sizes := sizes[childIndex := left];
    sizes := sizes[childIndex + 1 := right];
  }

  function ResizedSplit(n: Node, childIndex: int, delta: real): Node
    requires n.Split?
  {
    if childIndex < 0 || childIndex >= |n.children| || childIndex + 1 >= |n.sizes| then n
    else
      var (left, right) := ResizedPair(n.sizes[childIndex], n.sizes[childIndex + 1], delta);
      n.(sizes := n.sizes[childIndex := left][childIndex + 1 := right])
  }

  function ResizeSplitChild(n: Node, target: Node, childIndex: int, delta: real): Node
    decreases n
  {
    match n
    case Leaf(_) => n
    case Split(d, cs, sizes) =>
      if n == target then ResizedSplit(n, childIndex, delta)
      else Split(d, ResizeSplitChildIn(cs, target, childIndex, delta), sizes)
  }

  function ResizeSplitChildIn(ns: seq<Node>, target: Node, childIndex: int, delta: real): (r: seq<Node>)
    ensures |r| == |ns|
    decreases ns
  {
    if ns == [] then []
    else [ResizeSplitChild(ns[0], target, childIndex, delta)] + ResizeSplitChildIn(ns[1..], target, childIndex, delta)
  }

  /** The share left of a splitter: at least the minimum and leaving as much on the right, if there is room for both. */
  function LeftShare(a: real, b: real, delta: real): real {
    if a + b < 2.0 * MIN_SPLIT_SIZE then a + b - MIN_SPLIT_SIZE
    else Clamp(a + delta, MIN_SPLIT_SIZE, a + b - MIN_SPLIT_SIZE)
  }

  /**
   * A splitter moves size between its two neighbours only: their sum is kept, the right one never ends below
   * the minimum, and the left one stays at or above it exactly when there is room for both. As far as that allows
   * the splitter goes where it is dragged.
   */
  lemma ResizedPairLaws(a: real, b: real, delta: real)
    ensures var (left, right) := ResizedPair(a, b, delta);
            && left + right == a + b
            && right >= MIN_SPLIT_SIZE
            && (left >= MIN_SPLIT_SIZE <==> a + b >= 2.0 * MIN_SPLIT_SIZE)
            && left == LeftShare(a, b, delta)
  {
  }

  lemma {:induction false} SumUpdate(xs: seq<real>, k: nat, x: real)
    requires k < |xs|
    ensures Sum(xs[k := x]) == Sum(xs) - xs[k] + x
  {
    if k == 0 {
      assert xs[k := x][1..] == xs[1..];
    } else {
      assert xs[k := x][1..] == xs[1..][k - 1 := x];
      SumUpdate(xs[1..], k - 1, x);
    }
  }

  /** At any index and for any delta the resized split keeps the sum of its sizes, and all but the pair's. */
  lemma ResizedSplitConserves(n: Node, childIndex: int, delta: real)
    requires n.Split?
    ensures var r := ResizedSplit(n, childIndex, delta);
            && r.Split? && r.children == n.children && r.direction == n.direction && |r.sizes| == |n.sizes|
            && Sum(r.sizes) == Sum(n.sizes)
            && (forall i :: 0 <= i < |n.sizes| && i != childIndex && i != childIndex + 1 ==> r.sizes[i] == n.sizes[i])
            && (if 0 <= childIndex < |n.children| && childIndex + 1 < |n.sizes|
                then r.sizes[childIndex] == LeftShare(n.sizes[childIndex], n.sizes[childIndex + 1], delta)
                else r == n)
  {
    if 0 <= childIndex < |n.children| && childIndex + 1 < |n.sizes| {
      var (left, right) := ResizedPair(n.sizes[childIndex], n.sizes[childIndex + 1], delta);
      ResizedPairLaws(n.sizes[childIndex], n.sizes[childIndex + 1], delta);
      SumUpdate(n.sizes, childIndex, left);
      SumUpdate(n.sizes[childIndex := left], childIndex + 1, right);
    }
  }

  /** Resizing is the replacement of the one split; the panels and their order stay. */
  lemma {:induction false} ResizeIsReplace(n: Node, target: Node, childIndex: int, delta: real)
    requires target.Split?
    ensures ResizeSplitChild(n, target, childIndex, delta)
        == ReplaceSplit(n, target, ResizedSplit(target, childIndex, delta))
    ensures Flatten(ResizeSplitChild(n, target, childIndex, delta)) == Flatten(n)
    ensures WellFormed(n) ==> WellFormed(ResizeSplitChild(n, target, childIndex, delta))
    decreases n
  {
    ResizedSplitConserves(target, childIndex, delta);
    if n.Split? && n != target {
      ResizeIsReplaceIn(n.children, target, childIndex, delta);
    }
  }

  lemma {:induction false} ResizeIsReplaceIn(ns: seq<Node>, target: Node, childIndex: int, delta: real)
    requires target.Split?
    ensures ResizeSplitChildIn(ns, target, childIndex, delta)
        == ReplaceSplitIn(ns, target, ResizedSplit(target, childIndex, delta))
    ensures FlattenAll(ResizeSplitChildIn(ns, target, childIndex, delta)) == FlattenAll(ns)
    ensures WellFormedAll(ns) ==> WellFormedAll(ResizeSplitChildIn(ns, target, childIndex, delta))
    decreases ns
  {
    if ns != [] {
      ResizeIsReplace(ns[0], target, childIndex, delta);
      ResizeIsReplaceIn(ns[1..], target, childIndex, delta);
      assert ResizeSplitChildIn(ns, target, childIndex, delta)[1..]
          == ResizeSplitChildIn(ns[1..], target, childIndex, delta);
    }
  }
}
