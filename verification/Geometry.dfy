/**
 * The pixel meaning of a binary tree (src/lib/layoutCapacity.ts), the pixel meaning of an N-ary tree, and
 * when folding the one into the other preserves it.
 */
module Geometry {
  import opened Prelude
  import opened Workspace
  import Panels
  import Nary = SplitTree

  datatype Box = Box(surfaceId: string, width: real, height: real)

  // ----- Binary trees -----

  /** The size of every leaf, in leaf order. */
  function Boxes(t: TreeNode, w: real, h: real): seq<Box>
    decreases t
  {
    match t
    case LeafNode(_, s) => [Box(s, w, h)]
    case SplitNode(_, d, r, a, b) =>
      Boxes(a, PartW(d, r, w), PartH(d, r, h)) + Boxes(b, PartW(d, 1.0 - r, w), PartH(d, 1.0 - r, h))
  }

  /** The given share of the width, where the split divides the width. */
  function PartW(d: SplitDirection, r: real, w: real): real {
    if d == Horizontal then w * r else w
  }

  function PartH(d: SplitDirection, r: real, h: real): real {
    if d == Vertical then h * r else h
  }

  datatype LeafSize = LeafSize(width: real, height: real)

  /** Entering sizes into the result map; a repeated surface keeps its last size. */
  function Put(sizes: map<string, LeafSize>, boxes: seq<Box>): map<string, LeafSize>
    decreases boxes
  {
    if boxes == [] then sizes
    else Put(sizes[boxes[0].surfaceId := LeafSize(boxes[0].width, boxes[0].height)], boxes[1..])
  }

  lemma {:induction false} PutConcat(sizes: map<string, LeafSize>, a: seq<Box>, b: seq<Box>)
    ensures Put(sizes, a + b) == Put(Put(sizes, a), b)
    decreases a
  {
    if a == [] {
      assert a + b == b;
    } else {
      assert (a + b)[1..] == a[1..] + b;
      PutConcat(sizes[a[0].surfaceId := LeafSize(a[0].width, a[0].height)], a[1..], b);
    }
  }

  class LeafSizer {
    var sizes: map<string, LeafSize>

    constructor ()
      ensures sizes == map[]
    {
      sizes := map[];
    }

    method Walk(node: TreeNode, w: real, h: real)
      modifies this
      ensures sizes == Put(old(sizes), Boxes(node, w, h))
      decreases node
    {
      if node.LeafNode? {
        sizes := sizes[node.surfaceId := LeafSize(w, h)];
        assert [Box(node.surfaceId, w, h)][1..] == [];
        return;
      }
      var firstW, firstH := PartW(node.direction, node.ratio, w), PartH(node.direction, node.ratio, h);
      var secondW, secondH := PartW(node.direction, 1.0 - node.ratio, w), PartH(node.direction, 1.0 - node.ratio, h);
      Walk(node.first, firstW, firstH);
      Walk(node.second, secondW, secondH);
      PutConcat(old(sizes), Boxes(node.first, firstW, firstH), Boxes(node.second, secondW, secondH));
    }
  }

  method ComputeLeafSizes(tree: Option<TreeNode>, w: real, h: real) returns (sizes: map<string, LeafSize>)
    ensures sizes == Put(map[], if tree.Some? then Boxes(tree.value, w, h) else [])
  {
    var sizer := new LeafSizer();
    if tree.Some? {
      sizer.Walk(tree.value, w, h);
    }
    sizes := sizer.sizes;
  }

  lemma {:induction false} BoxesFollowLeaves(t: TreeNode, w: real, h: real)
    ensures |Boxes(t, w, h)| == |Leaves(t)|
    ensures forall i :: 0 <= i < |Leaves(t)| ==> Boxes(t, w, h)[i].surfaceId == Leaves(t)[i]
    decreases t
  {
    if t.SplitNode? {
      BoxesFollowLeaves(t.first, PartW(t.direction, t.ratio, w), PartH(t.direction, t.ratio, h));
      BoxesFollowLeaves(t.second, PartW(t.direction, 1.0 - t.ratio, w), PartH(t.direction, 1.0 - t.ratio, h));
    }
  }

  lemma {:induction false} PutLookup(sizes: map<string, LeafSize>, boxes: seq<Box>, i: nat)
    requires i < |boxes| && forall j :: i < j < |boxes| ==> boxes[j].surfaceId != boxes[i].surfaceId
    ensures boxes[i].surfaceId in Put(sizes, boxes)
    ensures Put(sizes, boxes)[boxes[i].surfaceId] == LeafSize(boxes[i].width, boxes[i].height)
    decreases boxes
  {
    var sizes' := sizes[boxes[0].surfaceId := LeafSize(boxes[0].width, boxes[0].height)];
    if i > 0 {
      PutLookup(sizes', boxes[1..], i - 1);
    } else {
      PutOthers(sizes', boxes[1..], boxes[0].surfaceId);
    }
  }

  lemma {:induction false} PutOthers(sizes: map<string, LeafSize>, boxes: seq<Box>, s: string)
    requires s in sizes && forall j :: 0 <= j < |boxes| ==> boxes[j].surfaceId != s
    ensures s in Put(sizes, boxes) && Put(sizes, boxes)[s] == sizes[s]
    decreases boxes
  {
    if boxes != [] {
      PutOthers(sizes[boxes[0].surfaceId := LeafSize(boxes[0].width, boxes[0].height)], boxes[1..], s);
    }
  }

  /** The map holds every leaf's own size when no surface has two leaves. */
  lemma LeafSizesAreBoxes(t: TreeNode, w: real, h: real, i: nat)
    requires UniqueLeaves(t) && i < |Leaves(t)|
    ensures |Boxes(t, w, h)| == |Leaves(t)|
    ensures var sizes, box := Put(map[], Boxes(t, w, h)), Boxes(t, w, h)[i];
            Leaves(t)[i] in sizes && sizes[Leaves(t)[i]] == LeafSize(box.width, box.height)
  {
    BoxesFollowLeaves(t, w, h);
    UniqueLeavesMeaning(t);
    PutLookup(map[], Boxes(t, w, h), i);
  }

  function Area(boxes: seq<Box>): real {
    if boxes == [] then 0.0 else boxes[0].width * boxes[0].height + Area(boxes[1..])
  }

  lemma {:induction false} AreaConcat(a: seq<Box>, b: seq<Box>)
    ensures Area(a + b) == Area(a) + Area(b)
  {
    if a == [] {
      assert a + b == b;
    } else {
      assert (a + b)[1..] == a[1..] + b;
      AreaConcat(a[1..], b);
    }
  }

  /** The two parts of a split box, and that they fill it. */
  lemma PartAreas(d: SplitDirection, r: real, w: real, h: real) returns (w1: real, h1: real, w2: real, h2: real)
    ensures w1 == PartW(d, r, w) && h1 == PartH(d, r, h) && w2 == PartW(d, 1.0 - r, w) && h2 == PartH(d, 1.0 - r, h)
    ensures w1 * h1 + w2 * h2 == w * h
  {
    w1, h1, w2, h2 := PartW(d, r, w), PartH(d, r, h), PartW(d, 1.0 - r, w), PartH(d, 1.0 - r, h);
  }

  lemma AreaOfSplit(t: TreeNode, w: real, h: real, x: real, y: real)
    requires t.SplitNode?
    requires Area(Boxes(t.first, PartW(t.direction, t.ratio, w), PartH(t.direction, t.ratio, h))) == x
    requires Area(Boxes(t.second, PartW(t.direction, 1.0 - t.ratio, w), PartH(t.direction, 1.0 - t.ratio, h))) == y
    ensures Area(Boxes(t, w, h)) == x + y
  {
    AreaConcat(Boxes(t.first, PartW(t.direction, t.ratio, w), PartH(t.direction, t.ratio, h)),
               Boxes(t.second, PartW(t.direction, 1.0 - t.ratio, w), PartH(t.direction, 1.0 - t.ratio, h)));
  }

  lemma AreaOfOne(b: Box)
    ensures Area([b]) == b.width * b.height
  {
    assert Area([b]) == b.width * b.height + Area([]);
  }

  /** Whatever the ratios, the leaves fill the container. */
  lemma {:induction false} AreaConserved(t: TreeNode, w: real, h: real)
    ensures Area(Boxes(t, w, h)) == w * h
    decreases t, 1
  {
    if t.LeafNode? {
      AreaOfOne(Box(t.surfaceId, w, h));
    } else {
      SplitAreaConserved(t, w, h);
    }
  }

  lemma {:induction false} SplitAreaConserved(t: TreeNode, w: real, h: real)
    requires t.SplitNode?
    ensures Area(Boxes(t, w, h)) == w * h
    decreases t, 0
  {
    var w1, h1, w2, h2 := PartAreas(t.direction, t.ratio, w, h);
    AreaConserved(t.first, w1, h1);
    AreaConserved(t.second, w2, h2);
    AreaOfSplit(t, w, h, w1 * h1, w2 * h2);
  }

  // ----- N-ary trees -----

  /** The surface a panel shows: its active tab's id. */
  function SurfaceId(p: Panels.Panel): string {
    Panels.ActiveTab(p).id
  }

  /** A box with `main` along the split and `cross` across it. */
  function AlongW(d: Nary.Direction, main: real, cross: real): real {
    if d == Nary.Row then main else cross
  }

  function AlongH(d: Nary.Direction, main: real, cross: real): real {
    if d == Nary.Row then cross else main
  }

  /** A total divided in the proportion of the sizes. */
  function Shares(total: real, sizes: seq<real>): (r: seq<real>)
    ensures |r| == |sizes|
  {
    var sum := Sum(sizes);
    if sum == 0.0 then sizes else Scaled(total / sum, sizes)
  }

  function Scaled(unit: real, sizes: seq<real>): (r: seq<real>)
    ensures |r| == |sizes|
  {
    if sizes == [] then [] else [unit * sizes[0]] + Scaled(unit, sizes[1..])
  }

  /** Every child has its share of the main extent and the whole cross extent. */
  function NaryBoxes(n: Nary.Node, w: real, h: real): seq<Box>
    requires Positive(n)
    decreases n
  {
    match n
    case Leaf(p) => [Box(SurfaceId(p), w, h)]
    case Split(d, cs, sizes) => NaryBoxesIn(cs, d, Shares(AlongW(d, w, h), sizes), AlongH(d, w, h))
  }

  function NaryBoxesIn(ns: seq<Nary.Node>, d: Nary.Direction, extents: seq<real>, cross: real): seq<Box>
    requires PositiveAll(ns) && |extents| == |ns|
    decreases ns
  {
    if ns == [] then []
    else
      NaryBoxes(ns[0], AlongW(d, extents[0], cross), AlongH(d, extents[0], cross))
      + NaryBoxesIn(ns[1..], d, extents[1..], cross)
  }

  predicate AllPositive(xs: seq<real>) {
    xs == [] || (xs[0] > 0.0 && AllPositive(xs[1..]))
  }

  /** Every split has children, one positive size each. */
  predicate Positive(n: Nary.Node)
    decreases n
  {
    match n
    case Leaf(_) => true
    case Split(_, cs, sizes) => |cs| > 0 && |sizes| == |cs| && AllPositive(sizes) && PositiveAll(cs)
  }

  predicate PositiveAll(ns: seq<Nary.Node>)
    decreases ns
  {
    ns == [] || (Positive(ns[0]) && PositiveAll(ns[1..]))
  }

  lemma {:induction false} SumPositive(xs: seq<real>)
    requires AllPositive(xs)
    ensures xs != [] ==> Sum(xs) > 0.0
    ensures Sum(xs) >= 0.0
  {
    if xs != [] {
      SumPositive(xs[1..]);
    }
  }

  // ----- The fold -----

  function Axis(d: Nary.Direction): SplitDirection {
    if d == Nary.Row then Horizontal else Vertical
  }

  /** The first child's ratio against all that are left, clamped to the converter's band. */
  function FoldRatio(sizes: seq<real>, lo: real, hi: real): real
    requires sizes != []
  {
    Ratio(sizes[0], Sum(sizes), lo, hi)
  }

  function Ratio(x: real, sum: real, lo: real, hi: real): real {
    if sum > 0.0 then Clamp(x / sum, lo, hi) else 0.5
  }

  /** The right fold of both converters; node ids are left blank. */
  function Folded(d: Nary.Direction, ts: seq<TreeNode>, sizes: seq<real>, lo: real, hi: real): TreeNode
    requires |ts| == |sizes| > 0
  {
    if |ts| == 1 then ts[0]
    else SplitNode("", Axis(d), FoldRatio(sizes, lo, hi), ts[0], Folded(d, ts[1..], sizes[1..], lo, hi))
  }

  /** The binary tree of an N-ary tree all of whose panels are kept. */
  function PlainTree(n: Nary.Node, lo: real, hi: real): TreeNode
    requires Positive(n)
    decreases n
  {
    match n
    case Leaf(p) => LeafNode("", SurfaceId(p))
    case Split(d, cs, sizes) => Folded(d, PlainTrees(cs, lo, hi), sizes, lo, hi)
  }

  function PlainTrees(ns: seq<Nary.Node>, lo: real, hi: real): (r: seq<TreeNode>)
    requires PositiveAll(ns)
    ensures |r| == |ns|
    decreases ns
  {
    if ns == [] then [] else [PlainTree(ns[0], lo, hi)] + PlainTrees(ns[1..], lo, hi)
  }

  /** No clamp changes a ratio: each size is a share in the band of what it and its right siblings take. */
  predicate InBandSizes(sizes: seq<real>, lo: real, hi: real) {
    |sizes| <= 1 || (FitsFirst(sizes, lo, hi) && InBandSizes(sizes[1..], lo, hi))
  }

  predicate FitsFirst(sizes: seq<real>, lo: real, hi: real)
    requires sizes != []
  {
    Fits(sizes[0], Sum(sizes), lo, hi)
  }

  predicate Fits(x: real, sum: real, lo: real, hi: real) {
    lo * sum <= x <= hi * sum
  }

  predicate InBand(n: Nary.Node, lo: real, hi: real)
    decreases n
  {
    match n
    case Leaf(_) => true
    case Split(_, cs, sizes) => InBandSizes(sizes, lo, hi) && InBandAll(cs, lo, hi)
  }

  predicate InBandAll(ns: seq<Nary.Node>, lo: real, hi: real)
    decreases ns
  {
    ns == [] || (InBand(ns[0], lo, hi) && InBandAll(ns[1..], lo, hi))
  }

  lemma ShareOfSum(x: real, sum: real, lo: real, hi: real)
    requires sum > 0.0
    ensures sum * (x / sum) == x
    ensures lo <= hi ==> (Clamp(x / sum, lo, hi) == x / sum <==> lo * sum <= x <= hi * sum)
  {
    var q := x / sum;
    assert q * sum == x;
    assert lo <= q <==> lo * sum <= q * sum;
    assert q <= hi <==> q * sum <= hi * sum;
  }

  lemma {:induction false} ScaledSum(unit: real, sizes: seq<real>)
    requires unit > 0.0 && AllPositive(sizes)
    ensures AllPositive(Scaled(unit, sizes)) && Sum(Scaled(unit, sizes)) == unit * Sum(sizes)
  {
    if sizes != [] {
      assert Scaled(unit, sizes)[1..] == Scaled(unit, sizes[1..]);
      ScaledSum(unit, sizes[1..]);
      SameSign(unit, sizes[0]);
      assert unit * sizes[0] + unit * Sum(sizes[1..]) == unit * (sizes[0] + Sum(sizes[1..]));
    }
  }

  lemma QuotientIs(a: real, b: real, q: real)
    requires b != 0.0 && q * b == a
    ensures a / b == q
  {
  }

  lemma ScaleOrder(unit: real, a: real, b: real)
    requires unit > 0.0
    ensures unit * a <= unit * b <==> a <= b
  {
    SameSign(unit, b - a);
  }

  lemma SameRatio(unit: real, x: real, sum: real, x': real, sum': real, lo: real, hi: real)
    requires unit > 0.0 && sum > 0.0 && x' == unit * x && sum' == unit * sum
    ensures Ratio(x', sum', lo, hi) == Ratio(x, sum, lo, hi)
  {
    var q := x / sum;
    assert q * sum == x;
    SameSign(unit, sum);
    ScaleOrder(unit, 0.0, sum);
    assert q * sum' == x' by {
      assert q * (unit * sum) == unit * (q * sum);
    }
    QuotientIs(x', sum', q);
  }

  lemma SameFit(unit: real, x: real, sum: real, x': real, sum': real, lo: real, hi: real)
    requires unit > 0.0 && x' == unit * x && sum' == unit * sum
    ensures Fits(x', sum', lo, hi) == Fits(x, sum, lo, hi)
  {
    var low, high := lo * sum, hi * sum;
    assert lo * sum' == unit * low && hi * sum' == unit * high;
    ScaleOrder(unit, low, x);
    ScaleOrder(unit, x, high);
  }

  /** The head of a scaled list and its sum, by name. */
  lemma ScaledHead(unit: real, sizes: seq<real>) returns (x: real, sum: real, x': real, sum': real)
    requires unit > 0.0 && AllPositive(sizes) && sizes != []
    ensures x == sizes[0] && sum == Sum(sizes) && sum > 0.0
    ensures x' == Scaled(unit, sizes)[0] && sum' == Sum(Scaled(unit, sizes))
    ensures x' == unit * x && sum' == unit * sum
    ensures Scaled(unit, sizes)[1..] == Scaled(unit, sizes[1..])
  {
    SumPositive(sizes);
    ScaledSum(unit, sizes);
    x, sum, x', sum' := sizes[0], Sum(sizes), Scaled(unit, sizes)[0], Sum(Scaled(unit, sizes));
  }

  /** The fold sees proportions only. */
  lemma ScaledFirst(unit: real, sizes: seq<real>, lo: real, hi: real)
    requires unit > 0.0 && AllPositive(sizes) && sizes != []
    ensures FoldRatio(Scaled(unit, sizes), lo, hi) == FoldRatio(sizes, lo, hi)
    ensures FitsFirst(Scaled(unit, sizes), lo, hi) == FitsFirst(sizes, lo, hi)
    ensures Scaled(unit, sizes)[1..] == Scaled(unit, sizes[1..])
  {
    var x, sum, x', sum' := ScaledHead(unit, sizes);
    SameRatio(unit, x, sum, x', sum', lo, hi);
    SameFit(unit, x, sum, x', sum', lo, hi);
  }

  lemma {:induction false} ScaledBand(unit: real, sizes: seq<real>, lo: real, hi: real)
    requires unit > 0.0 && AllPositive(sizes)
    ensures InBandSizes(Scaled(unit, sizes), lo, hi) == InBandSizes(sizes, lo, hi)
  {
    if |sizes| > 1 {
      ScaledFirst(unit, sizes, lo, hi);
      ScaledBand(unit, sizes[1..], lo, hi);
    }
  }

  lemma SameSign(a: real, b: real)
    requires a > 0.0
    ensures a * b >= 0.0 <==> b >= 0.0
  {
  }

  lemma {:induction false} FoldedScaled(d: Nary.Direction, ts: seq<TreeNode>, unit: real, sizes: seq<real>, lo: real,
      hi: real)
    requires |ts| == |sizes| > 0 && unit > 0.0 && AllPositive(sizes)
    ensures Folded(d, ts, Scaled(unit, sizes), lo, hi) == Folded(d, ts, sizes, lo, hi)
  {
    if |ts| > 1 {
      ScaledFirst(unit, sizes, lo, hi);
      FoldedScaled(d, ts[1..], unit, sizes[1..], lo, hi);
    }
  }

  /** Sizes may be replaced by the pixel shares they stand for. */
  lemma SharesLaws(total: real, sizes: seq<real>, lo: real, hi: real)
    requires total > 0.0 && AllPositive(sizes) && sizes != []
    ensures AllPositive(Shares(total, sizes)) && Sum(Shares(total, sizes)) == total
    ensures InBandSizes(Shares(total, sizes), lo, hi) == InBandSizes(sizes, lo, hi)
    ensures forall d, ts: seq<TreeNode> ::
              |ts| == |sizes| ==> Folded(d, ts, Shares(total, sizes), lo, hi) == Folded(d, ts, sizes, lo, hi)
  {
    SumPositive(sizes);
    var unit := total / Sum(sizes);
    assert unit * Sum(sizes) == total;
    assert unit > 0.0;
    ScaledSum(unit, sizes);
    ScaledBand(unit, sizes, lo, hi);
    forall d, ts: seq<TreeNode> | |ts| == |sizes|
      ensures Folded(d, ts, Shares(total, sizes), lo, hi) == Folded(d, ts, sizes, lo, hi)
    {
      FoldedScaled(d, ts, unit, sizes, lo, hi);
    }
  }

  lemma BoxesOfSplit(d: Nary.Direction, r: real, a: TreeNode, b: TreeNode, main: real, cross: real, first: real,
      rest: real)
    requires first == main * r && rest == main * (1.0 - r)
    ensures Boxes(SplitNode("", Axis(d), r, a, b), AlongW(d, main, cross), AlongH(d, main, cross))
            == Boxes(a, AlongW(d, first, cross), AlongH(d, first, cross))
                + Boxes(b, AlongW(d, rest, cross), AlongH(d, rest, cross))
  {
    var w, h := AlongW(d, main, cross), AlongH(d, main, cross);
    assert PartW(Axis(d), r, w) == AlongW(d, first, cross) && PartH(Axis(d), r, h) == AlongH(d, first, cross);
    assert PartW(Axis(d), 1.0 - r, w) == AlongW(d, rest, cross) && PartH(Axis(d), 1.0 - r, h) == AlongH(d, rest, cross);
  }

  /** The fold of two or more children is a split of the main extent by the first ratio. */
  lemma FoldedBoxes(ns: seq<Nary.Node>, d: Nary.Direction, sizes: seq<real>, lo: real, hi: real,
                    r: real, main: real, cross: real, given: real, left: real)
    requires PositiveAll(ns) && |ns| == |sizes| > 1
    requires r == FoldRatio(sizes, lo, hi) && given == main * r && left == main - given
    ensures Boxes(Folded(d, PlainTrees(ns, lo, hi), sizes, lo, hi), AlongW(d, main, cross), AlongH(d, main, cross))
            == Boxes(PlainTree(ns[0], lo, hi), AlongW(d, given, cross), AlongH(d, given, cross))
               + Boxes(Folded(d, PlainTrees(ns[1..], lo, hi), sizes[1..], lo, hi), AlongW(d, left, cross),
                   AlongH(d, left, cross))
  {
    var trees := PlainTrees(ns, lo, hi);
    assert trees[0] == PlainTree(ns[0], lo, hi) && trees[1..] == PlainTrees(ns[1..], lo, hi);
    assert left == main * (1.0 - r);
    BoxesOfSplit(d, r, trees[0], Folded(d, trees[1..], sizes[1..], lo, hi), main, cross, given, left);
  }

  lemma RatioGivesShare(x: real, sum: real, lo: real, hi: real, r: real)
    requires sum > 0.0 && lo <= hi && r == Ratio(x, sum, lo, hi)
    ensures sum * r == x <==> Fits(x, sum, lo, hi)
  {
    ShareOfSum(x, sum, lo, hi);
    if sum * r == x {
      SameFactor(sum, r, x / sum);
    }
  }

  /** What the first ratio hands out: the first child's own extent exactly when that is in the band. */
  lemma Given(extents: seq<real>, lo: real, hi: real) returns (main: real, r: real, given: real, left: real)
    requires extents != [] && AllPositive(extents) && lo <= hi
    ensures main == Sum(extents) && r == FoldRatio(extents, lo, hi) && given == main * r && left == main - given
    ensures given == extents[0] <==> FitsFirst(extents, lo, hi)
  {
    SumPositive(extents);
    main, r := Sum(extents), FoldRatio(extents, lo, hi);
    given := main * r;
    left := main - given;
    RatioGivesShare(extents[0], main, lo, hi, r);
  }

  lemma SameFactor(main: real, r: real, q: real)
    requires main != 0.0 && main * r == main * q
    ensures r == q
  {
  }

  lemma SingleSum(sizes: seq<real>)
    requires |sizes| == 1
    ensures Sum(sizes) == sizes[0]
  {
    assert sizes[1..] == [];
  }

  // ----- In the band the geometry is preserved -----

  lemma {:induction false} FoldExact(n: Nary.Node, lo: real, hi: real, w: real, h: real)
    requires Positive(n) && InBand(n, lo, hi) && lo <= hi && w > 0.0 && h > 0.0
    ensures Boxes(PlainTree(n, lo, hi), w, h) == NaryBoxes(n, w, h)
    decreases n
  {
    if n.Split? {
      var main, cross := AlongW(n.direction, w, h), AlongH(n.direction, w, h);
      SharesLaws(main, n.sizes, lo, hi);
      FoldExactIn(n.children, n.direction, Shares(main, n.sizes), lo, hi, cross);
    }
  }

  lemma {:induction false} FoldExactIn(ns: seq<Nary.Node>, d: Nary.Direction, extents: seq<real>, lo: real, hi: real,
      cross: real)
    requires PositiveAll(ns) && |ns| == |extents| > 0 && AllPositive(extents)
    requires InBandSizes(extents, lo, hi) && InBandAll(ns, lo, hi) && lo <= hi && cross > 0.0
    ensures Boxes(Folded(d, PlainTrees(ns, lo, hi), extents, lo, hi), AlongW(d, Sum(extents), cross),
        AlongH(d, Sum(extents), cross))
            == NaryBoxesIn(ns, d, extents, cross)
    decreases ns
  {
    FoldExact(ns[0], lo, hi, AlongW(d, extents[0], cross), AlongH(d, extents[0], cross));
    if |ns| == 1 {
      SingleSum(extents);
    } else {
      var main, r, given, left := Given(extents, lo, hi);
      FoldedBoxes(ns, d, extents, lo, hi, r, main, cross, given, left);
      FoldExactIn(ns[1..], d, extents[1..], lo, hi, cross);
    }
  }

  // ----- Reading the container off the boxes -----

  /** The width of the region that a tree's boxes fill, put together again from the boxes. */
  function SpanW(t: TreeNode, bs: seq<Box>): real
    requires |bs| == |Leaves(t)|
    decreases t
  {
    match t
    case LeafNode(_, _) => bs[0].width
    case SplitNode(_, d, _, a, b) =>
      var k := |Leaves(a)|;
      if d == Horizontal then SpanW(a, bs[..k]) + SpanW(b, bs[k..]) else SpanW(a, bs[..k])
  }

  function SpanH(t: TreeNode, bs: seq<Box>): real
    requires |bs| == |Leaves(t)|
    decreases t
  {
    match t
    case LeafNode(_, _) => bs[0].height
    case SplitNode(_, d, _, a, b) =>
      var k := |Leaves(a)|;
      if d == Vertical then SpanH(a, bs[..k]) + SpanH(b, bs[k..]) else SpanH(a, bs[..k])
  }

  lemma PartsAddUp(d: SplitDirection, r: real, w: real, h: real) returns (w1: real, h1: real, w2: real, h2: real)
    ensures w1 == PartW(d, r, w) && h1 == PartH(d, r, h) && w2 == PartW(d, 1.0 - r, w) && h2 == PartH(d, 1.0 - r, h)
    ensures if d == Horizontal then w1 + w2 == w && h1 == h else w1 == w && h1 + h2 == h
  {
    w1, h1, w2, h2 := PartW(d, r, w), PartH(d, r, h), PartW(d, 1.0 - r, w), PartH(d, 1.0 - r, h);
  }

  lemma SpanOfSplit(t: TreeNode, xs: seq<Box>, ys: seq<Box>)
    requires t.SplitNode? && |xs| == |Leaves(t.first)| && |ys| == |Leaves(t.second)|
    ensures SpanW(t, xs + ys) == SpanW(t.first, xs) + (if t.direction == Horizontal then SpanW(t.second, ys) else 0.0)
    ensures SpanH(t, xs + ys) == SpanH(t.first, xs) + (if t.direction == Vertical then SpanH(t.second, ys) else 0.0)
  {
    assert (xs + ys)[..|xs|] == xs && (xs + ys)[|xs|..] == ys;
  }

  lemma {:induction false} SpanOfBoxes(t: TreeNode, w: real, h: real)
    ensures |Boxes(t, w, h)| == |Leaves(t)|
    ensures SpanW(t, Boxes(t, w, h)) == w && SpanH(t, Boxes(t, w, h)) == h
    decreases t
  {
    if t.SplitNode? {
      var w1, h1, w2, h2 := PartsAddUp(t.direction, t.ratio, w, h);
      SpanOfBoxes(t.first, w1, h1);
      SpanOfBoxes(t.second, w2, h2);
      SpanOfSplit(t, Boxes(t.first, w1, h1), Boxes(t.second, w2, h2));
    }
  }

  lemma {:induction false} SpanOfNary(n: Nary.Node, lo: real, hi: real, w: real, h: real)
    requires Positive(n) && w > 0.0 && h > 0.0
    ensures |NaryBoxes(n, w, h)| == |Leaves(PlainTree(n, lo, hi))|
    ensures SpanW(PlainTree(n, lo, hi), NaryBoxes(n, w, h)) == w && SpanH(PlainTree(n, lo, hi), NaryBoxes(n, w, h)) == h
    decreases n
  {
    if n.Split? {
      var main, cross := AlongW(n.direction, w, h), AlongH(n.direction, w, h);
      SharesLaws(main, n.sizes, lo, hi);
      SpanOfNaryIn(n.children, n.direction, n.sizes, Shares(main, n.sizes), lo, hi, cross);
    }
  }

  lemma {:induction false} SpanOfNaryIn(ns: seq<Nary.Node>, d: Nary.Direction, sizes: seq<real>, extents: seq<real>,
                                        lo: real, hi: real, cross: real)
    requires PositiveAll(ns) && |ns| == |sizes| == |extents| && |ns| > 0 && AllPositive(extents) && cross > 0.0
    ensures var t, bs := Folded(d, PlainTrees(ns, lo, hi), sizes, lo, hi), NaryBoxesIn(ns, d, extents, cross);
            && |bs| == |Leaves(t)|
            && SpanW(t, bs) == AlongW(d, Sum(extents), cross) && SpanH(t, bs) == AlongH(d, Sum(extents), cross)
    decreases ns
  {
    var w, h := AlongW(d, extents[0], cross), AlongH(d, extents[0], cross);
    SpanOfNary(ns[0], lo, hi, w, h);
    if |ns| == 1 {
      SingleSum(extents);
      assert NaryBoxesIn(ns, d, extents, cross) == NaryBoxes(ns[0], w, h) + [] == NaryBoxes(ns[0], w, h);
      assert Folded(d, PlainTrees(ns, lo, hi), sizes, lo, hi) == PlainTree(ns[0], lo, hi);
    } else {
      var trees := PlainTrees(ns, lo, hi);
      assert trees[0] == PlainTree(ns[0], lo, hi) && trees[1..] == PlainTrees(ns[1..], lo, hi);
      SpanOfNaryIn(ns[1..], d, sizes[1..], extents[1..], lo, hi, cross);
      var t := Folded(d, trees, sizes, lo, hi);
      assert t.first == PlainTree(ns[0], lo, hi);
      assert t.second == Folded(d, PlainTrees(ns[1..], lo, hi), sizes[1..], lo, hi);
      SpanOfSplit(t, NaryBoxes(ns[0], w, h), NaryBoxesIn(ns[1..], d, extents[1..], cross));
    }
  }

  // ----- Only in the band is it preserved -----

  function SurfaceIds(ps: seq<Panels.Panel>): (r: seq<string>)
    ensures |r| == |ps|
  {
    if ps == [] then [] else [SurfaceId(ps[0])] + SurfaceIds(ps[1..])
  }

  lemma {:induction false} SurfaceIdsConcat(a: seq<Panels.Panel>, b: seq<Panels.Panel>)
    ensures SurfaceIds(a + b) == SurfaceIds(a) + SurfaceIds(b)
  {
    if a == [] {
      assert a + b == b;
    } else {
      assert (a + b)[1..] == a[1..] + b;
      SurfaceIdsConcat(a[1..], b);
    }
  }

  /** The binary tree shows the panels' surfaces in leaf order. */
  lemma {:induction false} PlainTreeLeaves(n: Nary.Node, lo: real, hi: real)
    requires Positive(n)
    ensures Leaves(PlainTree(n, lo, hi)) == SurfaceIds(Nary.Flatten(n))
    decreases n
  {
    if n.Split? {
      PlainTreesLeaves(n.children, n.direction, n.sizes, lo, hi);
    } else {
      assert SurfaceIds([n.panel]) == [SurfaceId(n.panel)] + SurfaceIds([]);
    }
  }

  lemma {:induction false} PlainTreesLeaves(ns: seq<Nary.Node>, d: Nary.Direction, sizes: seq<real>, lo: real, hi: real)
    requires PositiveAll(ns) && |sizes| == |ns| && |ns| > 0
    ensures Leaves(Folded(d, PlainTrees(ns, lo, hi), sizes, lo, hi)) == SurfaceIds(Nary.FlattenAll(ns))
    decreases ns
  {
    PlainTreeLeaves(ns[0], lo, hi);
    SurfaceIdsConcat(Nary.Flatten(ns[0]), Nary.FlattenAll(ns[1..]));
    if |ns| > 1 {
      assert PlainTrees(ns, lo, hi)[1..] == PlainTrees(ns[1..], lo, hi);
      PlainTreesLeaves(ns[1..], d, sizes[1..], lo, hi);
    } else {
      assert ns[1..] == [];
    }
  }

  lemma {:induction false} FoldOnlyIf(n: Nary.Node, lo: real, hi: real, w: real, h: real)
    requires Positive(n) && lo <= hi && w > 0.0 && h > 0.0
    requires Boxes(PlainTree(n, lo, hi), w, h) == NaryBoxes(n, w, h)
    ensures InBand(n, lo, hi)
    decreases n
  {
    if n.Split? {
      var main, cross := AlongW(n.direction, w, h), AlongH(n.direction, w, h);
      SharesLaws(main, n.sizes, lo, hi);
      FoldOnlyIfIn(n.children, n.direction, Shares(main, n.sizes), lo, hi, cross);
    }
  }

  lemma {:induction false} FoldOnlyIfIn(ns: seq<Nary.Node>, d: Nary.Direction, extents: seq<real>, lo: real, hi: real,
      cross: real)
    requires PositiveAll(ns) && |ns| == |extents| > 0 && AllPositive(extents) && lo <= hi && cross > 0.0
    requires Boxes(Folded(d, PlainTrees(ns, lo, hi), extents, lo, hi), AlongW(d, Sum(extents), cross),
        AlongH(d, Sum(extents), cross))
             == NaryBoxesIn(ns, d, extents, cross)
    ensures InBandSizes(extents, lo, hi) && InBandAll(ns, lo, hi)
    decreases ns
  {
    if |ns| == 1 {
      SingleSum(extents);
    } else {
      FirstInBand(ns, d, extents, lo, hi, cross);
      FoldOnlyIfIn(ns[1..], d, extents[1..], lo, hi, cross);
    }
    FoldOnlyIf(ns[0], lo, hi, AlongW(d, extents[0], cross), AlongH(d, extents[0], cross));
  }

  /** If the boxes agree, the first ratio was not clamped, and the boxes of the first child and of the rest agree. */
  lemma FirstInBand(ns: seq<Nary.Node>, d: Nary.Direction, extents: seq<real>, lo: real, hi: real, cross: real)
    requires PositiveAll(ns) && |ns| == |extents| > 1 && AllPositive(extents) && lo <= hi && cross > 0.0
    requires Boxes(Folded(d, PlainTrees(ns, lo, hi), extents, lo, hi), AlongW(d, Sum(extents), cross),
        AlongH(d, Sum(extents), cross))
             == NaryBoxesIn(ns, d, extents, cross)
    ensures FitsFirst(extents, lo, hi)
    ensures Boxes(PlainTree(ns[0], lo, hi), AlongW(d, extents[0], cross), AlongH(d, extents[0], cross))
            == NaryBoxes(ns[0], AlongW(d, extents[0], cross), AlongH(d, extents[0], cross))
    ensures Boxes(Folded(d, PlainTrees(ns[1..], lo, hi), extents[1..], lo, hi), AlongW(d, Sum(extents[1..]), cross),
        AlongH(d, Sum(extents[1..]), cross))
            == NaryBoxesIn(ns[1..], d, extents[1..], cross)
  {
    var main, r, given, left := Given(extents, lo, hi);
    FoldedBoxes(ns, d, extents, lo, hi, r, main, cross, given, left);
    FirstBoxes(ns[0], d, lo, hi, given, extents[0], cross,
               Boxes(Folded(d, PlainTrees(ns[1..], lo, hi), extents[1..], lo, hi), AlongW(d, left, cross),
                   AlongH(d, left, cross)),
               NaryBoxesIn(ns[1..], d, extents[1..], cross));
  }

  /** Equal boxes fill equal regions. */
  lemma FirstBoxes(n: Nary.Node, d: Nary.Direction, lo: real, hi: real, given: real, first: real, cross: real,
                   tail: seq<Box>, tail': seq<Box>)
    requires Positive(n) && cross > 0.0 && first > 0.0
    requires Boxes(PlainTree(n, lo, hi), AlongW(d, given, cross), AlongH(d, given, cross)) + tail
             == NaryBoxes(n, AlongW(d, first, cross), AlongH(d, first, cross)) + tail'
    ensures given == first && tail == tail'
    ensures Boxes(PlainTree(n, lo, hi), AlongW(d, given, cross), AlongH(d, given, cross))
            == NaryBoxes(n, AlongW(d, first, cross), AlongH(d, first, cross))
  {
    SpanOfBoxes(PlainTree(n, lo, hi), AlongW(d, given, cross), AlongH(d, given, cross));
    SpanOfNary(n, lo, hi, AlongW(d, first, cross), AlongH(d, first, cross));
    SplitEqual(Boxes(PlainTree(n, lo, hi), AlongW(d, given, cross), AlongH(d, given, cross)), tail,
               NaryBoxes(n, AlongW(d, first, cross), AlongH(d, first, cross)), tail');
  }

  lemma SplitEqual<T>(a: seq<T>, b: seq<T>, c: seq<T>, d: seq<T>)
    requires a + b == c + d && |a| == |c|
    ensures a == c && b == d
  {
    assert a == (a + b)[..|a|] && c == (c + d)[..|c|];
    assert b == (a + b)[|a|..] && d == (c + d)[|c|..];
  }

  /**
   * Folding an N-ary tree into a binary one gives every leaf exactly its N-ary width and height if, and only
   * if, no clamp changes a ratio.
   */
  lemma GeometryPreservedExactly(n: Nary.Node, lo: real, hi: real, w: real, h: real)
    requires Positive(n) && lo <= hi && w > 0.0 && h > 0.0
    ensures Boxes(PlainTree(n, lo, hi), w, h) == NaryBoxes(n, w, h) <==> InBand(n, lo, hi)
  {
    if InBand(n, lo, hi) {
      FoldExact(n, lo, hi, w, h);
    } else if Boxes(PlainTree(n, lo, hi), w, h) == NaryBoxes(n, w, h) {
      FoldOnlyIf(n, lo, hi, w, h);
    }
  }

  // ----- Which trees are in the band -----

  /** Every split's sizes are at least `min` and sum to 1. */
  ghost predicate Proportioned(n: Nary.Node, min: real)
    decreases n
  {
    match n
    case Leaf(_) => true
    case Split(_, cs, sizes) =>
      |cs| > 0 && |sizes| == |cs| && Sum(sizes) == 1.0 && (forall i :: 0 <= i < |sizes| ==> sizes[i] >= min)
      && ProportionedAll(cs, min)
  }

  ghost predicate ProportionedAll(ns: seq<Nary.Node>, min: real)
    decreases ns
  {
    ns == [] || (Proportioned(ns[0], min) && ProportionedAll(ns[1..], min))
  }

  lemma {:induction false} LargeSizesInBand(sizes: seq<real>, min: real)
    requires 0.0 < min <= 0.5 && Sum(sizes) <= 1.0 && forall i :: 0 <= i < |sizes| ==> sizes[i] >= min
    ensures InBandSizes(sizes, min, 1.0 - min) && AllPositive(sizes)
  {
    if sizes != [] {
      var rest := sizes[1..];
      LargeSizesInBand(rest, min);
      if rest != [] {
        SumPositive(rest[1..]);
        assert Sum(rest) == rest[0] + Sum(rest[1..]) && rest[0] == sizes[1];
        BandOfOne(sizes[0], Sum(sizes), min);
      }
    }
  }

  lemma BandOfOne(x: real, sum: real, min: real)
    requires 0.0 < min <= 0.5 && x >= min && sum - x >= min && sum <= 1.0
    ensures min * sum <= x <= (1.0 - min) * sum
  {
    assert min * sum <= min;
    assert (1.0 - min) * sum == sum - min * sum;
  }

  /** Sizes of at least the minimum share summing to 1 never meet a clamp at that share or below. */
  lemma {:induction false} ProportionedInBand(n: Nary.Node, min: real)
    requires 0.0 < min <= 0.5 && Proportioned(n, min)
    ensures Positive(n) && InBand(n, min, 1.0 - min)
    decreases n
  {
    if n.Split? {
      LargeSizesInBand(n.sizes, min);
      ProportionedInBandAll(n.children, min);
    }
  }

  lemma {:induction false} ProportionedInBandAll(ns: seq<Nary.Node>, min: real)
    requires 0.0 < min <= 0.5 && ProportionedAll(ns, min)
    ensures PositiveAll(ns) && InBandAll(ns, min, 1.0 - min)
    decreases ns
  {
    if ns != [] {
      ProportionedInBand(ns[0], min);
      ProportionedInBandAll(ns[1..], min);
    }
  }

  /** `n` equal shares are no smaller than `min`. */
  predicate SharesFit(n: nat, min: real) {
    n <= 1 || min * n as real <= 1.0
  }

  /** A row of equal children stays in the band exactly while one share is at least the lower bound. */
  lemma {:induction false} EqualSizesInBand(sizes: seq<real>, c: real, min: real)
    requires 0.0 < min <= 0.5 && c > 0.0 && forall i :: 0 <= i < |sizes| ==> sizes[i] == c
    ensures InBandSizes(sizes, min, 1.0 - min) <==> SharesFit(|sizes|, min)
  {
    if |sizes| > 1 {
      SumConstant(sizes, c);
      EqualBand(|sizes|, c, min, Sum(sizes));
      EqualSizesInBand(sizes[1..], c, min);
    }
  }

  lemma NotNegative(a: real, b: real)
    requires a >= 0.0 && b >= 0.0
    ensures a * b >= 0.0
  {
  }

  lemma EqualBand(n: nat, c: real, min: real, sum: real)
    requires n > 1 && 0.0 < min <= 0.5 && c > 0.0 && sum == n as real * c
    ensures Fits(c, sum, min, 1.0 - min) <==> SharesFit(n, min)
    ensures SharesFit(n, min) ==> SharesFit(n - 1, min)
  {
    var k := n as real;
    var share, others := min * k, (1.0 - min) * k;
    assert min * sum == share * c && (1.0 - min) * sum == others * c;
    assert others == k - share;
    NotNegative(0.5 - min, k);
    assert 0.5 * k - share == (0.5 - min) * k;
    ScaleOrder(c, share, 1.0);
    ScaleOrder(c, 1.0, others);
    assert (n - 1) as real == k - 1.0;
    assert min * (k - 1.0) == share - min;
  }

  function LeafRow(ps: seq<Panels.Panel>): (r: seq<Nary.Node>)
    ensures |r| == |ps|
  {
    if ps == [] then [] else [Nary.Leaf(ps[0])] + LeafRow(ps[1..])
  }

  lemma {:induction false} LeafRowLaws(ps: seq<Panels.Panel>, lo: real, hi: real)
    ensures PositiveAll(LeafRow(ps)) && InBandAll(LeafRow(ps), lo, hi)
  {
    if ps != [] {
      LeafRowLaws(ps[1..], lo, hi);
    }
  }

  lemma {:induction false} ConstantPositive(xs: seq<real>, c: real)
    requires c > 0.0 && forall i :: 0 <= i < |xs| ==> xs[i] == c
    ensures AllPositive(xs)
  {
    if xs != [] {
      ConstantPositive(xs[1..], c);
    }
  }

  /**
   * Equal shares, which every insertion and removal leaves behind, fall out of the band when a split has too
   * many children: the geometry of `k` equal panels survives a band [min, 1 - min] exactly up to k = 1 / min,
   * so ten panels for the bridge's band and a hundred for the migration's.
   */
  lemma EqualPanelsPreserved(ps: seq<Panels.Panel>, d: Nary.Direction, min: real, w: real, h: real)
    requires ps != [] && 0.0 < min <= 0.5 && w > 0.0 && h > 0.0
    ensures var n := Nary.Split(d, LeafRow(ps), EqualShares(|ps|));
            && Positive(n)
            && (Boxes(PlainTree(n, min, 1.0 - min), w, h) == NaryBoxes(n, w, h) <==> SharesFit(|ps|, min))
  {
    var n, c := Nary.Split(d, LeafRow(ps), EqualShares(|ps|)), 1.0 / |ps| as real;
    LeafRowLaws(ps, min, 1.0 - min);
    ConstantPositive(n.sizes, c);
    EqualSizesInBand(n.sizes, c, min);
    GeometryPreservedExactly(n, min, 1.0 - min, w, h);
  }

  // ----- Pixel minimums -----

  function Max(a: real, b: real): real {
    if a < b then b else a
  }

  function ClampRatioToPixelMinimum(ratio: real, firstMin: real, secondMin: real, total: real): real {
    if total <= 0.0 then ClampRatio(ratio)
    else
      var minRatio := Max(MIN_RATIO, firstMin / total);
      var maxRatio := 1.0 - Max(1.0 - MAX_RATIO, secondMin / total);
      if minRatio > maxRatio then ClampRatio((minRatio + maxRatio) / 2.0) else Clamp(ratio, minRatio, maxRatio)
  }

  /** Both children have their pixels. */
  predicate HasPixels(r: real, firstMin: real, secondMin: real, total: real) {
    r * total >= firstMin && (1.0 - r) * total >= secondMin
  }

  lemma PixelsAsShares(r: real, firstMin: real, secondMin: real, total: real, a: real, b: real)
    requires total > 0.0 && a == firstMin / total && b == secondMin / total
    ensures HasPixels(r, firstMin, secondMin, total) <==> a <= r && b <= 1.0 - r
  {
    assert a * total == firstMin && b * total == secondMin;
    ScaleOrder(total, a, r);
    ScaleOrder(total, b, 1.0 - r);
  }

  /** Both children get their pixels whenever some allowed ratio gives them, and no such ratio is closer. */
  lemma PixelMinimumsHold(ratio: real, firstMin: real, secondMin: real, total: real, feasible: real)
    requires total > 0.0 && MIN_RATIO <= feasible <= MAX_RATIO && HasPixels(feasible, firstMin, secondMin, total)
    ensures var r := ClampRatioToPixelMinimum(ratio, firstMin, secondMin, total);
            && MIN_RATIO <= r <= MAX_RATIO && HasPixels(r, firstMin, secondMin, total)
            && Abs(r - ratio) <= Abs(feasible - ratio)
  {
    var a, b, r := firstMin / total, secondMin / total, ClampRatioToPixelMinimum(ratio, firstMin, secondMin, total);
    PixelsAsShares(feasible, firstMin, secondMin, total, a, b);
    PixelsAsShares(r, firstMin, secondMin, total, a, b);
    PixelsAsShares(ratio, firstMin, secondMin, total, a, b);
  }

  /** The pixels do not suffice for two minimums, each of at least the smallest share. */
  predicate NoRoom(firstMin: real, secondMin: real, total: real) {
    total > 0.0 && MIN_RATIO * total <= firstMin && MIN_RATIO * total <= secondMin && firstMin + secondMin > total
  }

  /**
   * Where there is no room for both minimums, both children fall short of theirs by the same number of pixels, unless
   * that would take one of them out of the band; without any extent the ratio is only clamped.
   */
  lemma PixelMinimumsMissed(ratio: real, firstMin: real, secondMin: real, total: real)
    ensures var r := ClampRatioToPixelMinimum(ratio, firstMin, secondMin, total);
            && MIN_RATIO <= r <= MAX_RATIO
            && (NoRoom(firstMin, secondMin, total) && MIN_RATIO < r < MAX_RATIO ==>
                  firstMin - r * total == secondMin - (1.0 - r) * total)
            && (total <= 0.0 ==> r == ClampRatio(ratio))
  {
    if NoRoom(firstMin, secondMin, total) {
      var a, b, mid := MissedEqually(firstMin, secondMin, total);
    }
  }

  lemma ShareAtLeast(total: real, a: real, x: real, lo: real)
    requires total > 0.0 && a * total == x && lo * total <= x
    ensures lo <= a
  {
    var rest := a - lo;
    assert total * rest == x - lo * total;
    SameSign(total, rest);
  }

  lemma SharesExceed(total: real, a: real, b: real, x: real, y: real)
    requires total > 0.0 && a * total == x && b * total == y && x + y > total
    ensures a + b > 1.0
  {
    var rest := 1.0 - a - b;
    assert total * rest == total - x - y;
    SameSign(total, rest);
  }

  lemma MissedEqually(firstMin: real, secondMin: real, total: real) returns (a: real, b: real, mid: real)
    requires NoRoom(firstMin, secondMin, total)
    ensures a == firstMin / total >= MIN_RATIO && b == secondMin / total >= MIN_RATIO && a + b > 1.0
    ensures mid == (a + (1.0 - b)) / 2.0 && firstMin - mid * total == secondMin - (1.0 - mid) * total
  {
    a, b := firstMin / total, secondMin / total;
    mid := (a + (1.0 - b)) / 2.0;
    assert a * total == firstMin && b * total == secondMin;
    ShareAtLeast(total, a, firstMin, MIN_RATIO);
    ShareAtLeast(total, b, secondMin, MIN_RATIO);
    SharesExceed(total, a, b, firstMin, secondMin);
    assert 2.0 * (mid * total) == a * total + total - b * total;
  }
}
