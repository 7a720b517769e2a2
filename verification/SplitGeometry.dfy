/** What splitting a panel of the grid does to the sizes of all panels on screen (src/lib/panelGrid.ts). */
module SplitGeometry {
  import opened Prelude
  import opened Panels
  import opened SplitTree
  import opened Geometry
  import RestoredGeometry

  // ----- Equal shares -----

  /** Equal parts of an extent. */
  function EqualParts(total: real, n: nat): (r: seq<real>)
    ensures |r| == n
  {
    if n == 0 then [] else seq(n, i => total / n as real)
  }

  lemma {:induction false} EqualIsPositive(xs: seq<real>, x: real)
    requires x > 0.0 && forall i :: 0 <= i < |xs| ==> xs[i] == x
    ensures AllPositive(xs)
  {
    if xs != [] {
      EqualIsPositive(xs[1..], x);
    }
  }

  lemma {:induction false} ScaledAt(unit: real, sizes: seq<real>, i: nat)
    requires i < |sizes|
    ensures Scaled(unit, sizes)[i] == unit * sizes[i]
  {
    if i > 0 {
      ScaledAt(unit, sizes[1..], i - 1);
    }
  }

  lemma PartOf(total: real, n: real)
    requires n > 0.0
    ensures 1.0 / n > 0.0 && (total / 1.0) * (1.0 / n) == total / n
  {
  }

  lemma EqualSharesGive(total: real, n: nat)
    requires n > 0
    ensures AllPositive(EqualShares(n)) && Shares(total, EqualShares(n)) == EqualParts(total, n)
  {
    var shares := EqualShares(n);
    PartOf(total, n as real);
    EqualIsPositive(shares, 1.0 / n as real);
    EqualSharesSum(n);
    forall i | 0 <= i < n ensures Shares(total, shares)[i] == EqualParts(total, n)[i] {
      ScaledAt(total / 1.0, shares, i);
    }
  }

  lemma {:induction false} PositiveConcat(a: seq<Node>, b: seq<Node>)
    ensures PositiveAll(a + b) <==> PositiveAll(a) && PositiveAll(b)
  {
    if a == [] {
      assert a + b == b;
    } else {
      assert (a + b)[1..] == a[1..] + b;
      PositiveConcat(a[1..], b);
    }
  }

  lemma {:induction false} BoxesConcat(a: seq<Node>, b: seq<Node>, d: Direction, x: seq<real>, y: seq<real>,
      cross: real)
    requires PositiveAll(a) && PositiveAll(b) && |x| == |a| && |y| == |b|
    ensures PositiveAll(a + b)
    ensures NaryBoxesIn(a + b, d, x + y, cross) == NaryBoxesIn(a, d, x, cross) + NaryBoxesIn(b, d, y, cross)
    decreases a
  {
    PositiveConcat(a, b);
    if a == [] {
      assert a + b == b && x + y == y;
    } else {
      assert (a + b)[1..] == a[1..] + b && (x + y)[1..] == x[1..] + y;
      BoxesConcat(a[1..], b, d, x[1..], y, cross);
    }
  }

  /** A split with equal shares. */
  lemma MadeSplitBoxes(d: Direction, cs: seq<Node>, w: real, h: real)
    requires cs != [] && PositiveAll(cs)
    ensures Positive(MakeSplit(d, cs))
    ensures NaryBoxes(MakeSplit(d, cs), w, h)
         == NaryBoxesIn(cs, d, EqualParts(AlongW(d, w, h), |cs|), AlongH(d, w, h))
  {
    EqualSharesGive(AlongW(d, w, h), |cs|);
  }

  // ----- Below one node -----

  /** A box and its neighbour, each half of the old one, in the order and along the axis of the side. */
  function Halves(target: Panel, newPanel: Panel, side: DropSide, w: real, h: real): seq<Box> {
    var w', h' := if side.Left? || side.Right? then w / 2.0 else w, if side.Left? || side.Right? then h else h / 2.0;
    if side.Left? || side.Top? then [Box(SurfaceId(newPanel), w', h'), Box(SurfaceId(target), w', h')]
    else [Box(SurfaceId(target), w', h'), Box(SurfaceId(newPanel), w', h')]
  }

  lemma TwoBoxes(p: Panel, q: Panel, d: Direction, x: real, y: real, cross: real)
    ensures PositiveAll([Leaf(p), Leaf(q)])
    ensures NaryBoxesIn([Leaf(p), Leaf(q)], d, [x, y], cross)
         == [Box(SurfaceId(p), AlongW(d, x, cross), AlongH(d, x, cross)),
             Box(SurfaceId(q), AlongW(d, y, cross), AlongH(d, y, cross))]
  {
    var ns, xs := [Leaf(p), Leaf(q)], [x, y];
    assert ns[1..] == [Leaf(q)] && ns[1..][1..] == [] && xs[1..] == [y] && xs[1..][1..] == [];
    assert PositiveAll(ns[1..][1..]);
    assert PositiveAll(ns[1..]);
    var first, second :=
      NaryBoxes(ns[0], AlongW(d, x, cross), AlongH(d, x, cross)), NaryBoxesIn(ns[1..], d, xs[1..], cross);
    var last := NaryBoxes(ns[1..][0], AlongW(d, xs[1..][0], cross), AlongH(d, xs[1..][0], cross));
    assert second == last + NaryBoxesIn(ns[1..][1..], d, xs[1..][1..], cross) == last + [] == last;
    assert NaryBoxesIn(ns, d, xs, cross) == first + second;
  }

  lemma PairBoxes(target: Panel, newPanel: Panel, side: DropSide, w: real, h: real)
    requires !side.Center?
    ensures var pair := MakeSplit(WantDirection(side), Pair(Leaf(target), newPanel, side));
            Positive(pair) && NaryBoxes(pair, w, h) == Halves(target, newPanel, side, w, h)
  {
    var d := WantDirection(side);
    var main, cross := AlongW(d, w, h), AlongH(d, w, h);
    var a, b := if Before(side) then newPanel else target, if Before(side) then target else newPanel;
    var cs := Pair(Leaf(target), newPanel, side);
    assert cs == [Leaf(a), Leaf(b)];
    TwoBoxes(a, b, d, main / 2.0, main / 2.0, cross);
    MadeSplitBoxes(d, cs, w, h);
    assert EqualParts(main, 2) == [main / 2.0, main / 2.0];
  }

  lemma PositiveAt(ns: seq<Node>, k: nat)
    requires k < |ns| && PositiveAll(ns)
    ensures PositiveAll(ns[..k]) && Positive(ns[k]) && PositiveAll(ns[k + 1..])
  {
    assert ns == ns[..k] + ([ns[k]] + ns[k + 1..]);
    PositiveConcat(ns[..k], [ns[k]] + ns[k + 1..]);
    PositiveConcat([ns[k]], ns[k + 1..]);
  }

  /** One child exchanged for another: only its own stretch of the boxes changes. */
  lemma ChildBoxes(ns: seq<Node>, k: nat, n: Node, d: Direction, xs: seq<real>, cross: real)
      returns (pre: seq<Box>, post: seq<Box>)
    requires k < |ns| == |xs| && PositiveAll(ns) && Positive(n)
    ensures PositiveAll(ns[k := n]) && |pre| == |FlattenAll(ns[..k])|
    ensures var x, y := AlongW(d, xs[k], cross), AlongH(d, xs[k], cross);
            && Positive(ns[k])
            && NaryBoxesIn(ns, d, xs, cross) == pre + NaryBoxes(ns[k], x, y) + post
            && NaryBoxesIn(ns[k := n], d, xs, cross) == pre + NaryBoxes(n, x, y) + post
  {
    PositiveAt(ns, k);
    pre, post := NaryBoxesIn(ns[..k], d, xs[..k], cross), NaryBoxesIn(ns[k + 1..], d, xs[k + 1..], cross);
    RestoredGeometry.NaryBoxesInFollow(ns[..k], d, xs[..k], cross);
    ChildBoxesAt(ns, k, d, xs, cross);
    var ns' := ns[k := n];
    assert ns'[..k] == ns[..k] && ns'[k + 1..] == ns[k + 1..];
    PositiveConcat([n], ns[k + 1..]);
    PositiveConcat(ns[..k], [n] + ns[k + 1..]);
    assert ns' == ns[..k] + ([n] + ns[k + 1..]);
    assert PositiveAll([n]) by {
      assert [n][1..] == [];
    }
    ChildBoxesAt(ns', k, d, xs, cross);
  }

  lemma ChildBoxesAt(ns: seq<Node>, k: nat, d: Direction, xs: seq<real>, cross: real)
    requires k < |ns| == |xs| && PositiveAll(ns)
    ensures PositiveAll(ns[..k]) && Positive(ns[k]) && PositiveAll(ns[k + 1..])
    ensures NaryBoxesIn(ns, d, xs, cross)
         == NaryBoxesIn(ns[..k], d, xs[..k], cross)
            + NaryBoxes(ns[k], AlongW(d, xs[k], cross), AlongH(d, xs[k], cross))
            + NaryBoxesIn(ns[k + 1..], d, xs[k + 1..], cross)
  {
    PositiveAt(ns, k);
    var n, rest := ns[k], ns[k + 1..];
    PositiveConcat([n], rest);
    assert PositiveAll([n]) by {
      assert [n][1..] == [];
    }
    assert ns == ns[..k] + ([n] + rest) && xs == xs[..k] + ([xs[k]] + xs[k + 1..]);
    BoxesConcat(ns[..k], [n] + rest, d, xs[..k], [xs[k]] + xs[k + 1..], cross);
    assert ([n] + rest)[1..] == rest && ([xs[k]] + xs[k + 1..])[1..] == xs[k + 1..];
    Associate(NaryBoxesIn(ns[..k], d, xs[..k], cross),
              NaryBoxes(n, AlongW(d, xs[k], cross), AlongH(d, xs[k], cross)),
              NaryBoxesIn(rest, d, xs[k + 1..], cross));
  }

  lemma Associate<T>(a: seq<T>, b: seq<T>, c: seq<T>)
    ensures a + (b + c) == a + b + c
  {
  }

  // ----- In the whole tree -----

  /** The panels of ts stand in ps from the place k on. */
  ghost predicate StandsAt<T>(ps: seq<T>, k: nat, ts: seq<T>) {
    k <= |ps| && ts <= ps[k..]
  }

  lemma StandsInLonger<T>(a: seq<T>, b: seq<T>, k: nat, ts: seq<T>)
    ensures StandsAt(a, k, ts) ==> StandsAt(a + b, k, ts)
    ensures StandsAt(b, k, ts) ==> StandsAt(a + b, |a| + k, ts)
  {
    if StandsAt(a, k, ts) {
      assert (a + b)[k..] == a[k..] + b;
    }
    if StandsAt(b, k, ts) {
      assert (a + b)[|a| + k..] == b[k..];
    }
  }

  /** Replacing a subtree changes the boxes of its own panels only: it gets the box it had. */
  lemma {:induction false} ReplaceBoxes(n: Node, t: Node, r: Node, id: string, w: real, h: real)
      returns (pre: seq<Box>, post: seq<Box>, x: real, y: real)
    requires Occurs(t, n) && HasId(Flatten(t), id) && CountId(Flatten(n), id) == 1 && Positive(n) && Positive(r)
    ensures Positive(t) && NaryBoxes(n, w, h) == pre + NaryBoxes(t, x, y) + post
    ensures StandsAt(Flatten(n), |pre|, Flatten(t))
    ensures Positive(ReplaceSplit(n, t, r))
    ensures NaryBoxes(ReplaceSplit(n, t, r), w, h) == pre + NaryBoxes(r, x, y) + post
    decreases n
  {
    if t == n {
      pre, post, x, y := [], [], w, h;
    } else {
      var d := n.direction;
      pre, post, x, y := ReplaceBoxesIn(n.children, t, r, id, d, Shares(AlongW(d, w, h), n.sizes), AlongH(d, w, h));
    }
  }

  lemma {:induction false} ReplaceBoxesIn(ns: seq<Node>, t: Node, r: Node, id: string, d: Direction, xs: seq<real>,
      cross: real) returns (pre: seq<Box>, post: seq<Box>, x: real, y: real)
    requires OccursIn(t, ns) && HasId(Flatten(t), id) && CountId(FlattenAll(ns), id) == 1
    requires PositiveAll(ns) && Positive(r) && |xs| == |ns|
    ensures Positive(t) && NaryBoxesIn(ns, d, xs, cross) == pre + NaryBoxes(t, x, y) + post
    ensures StandsAt(FlattenAll(ns), |pre|, Flatten(t))
    ensures PositiveAll(ReplaceSplitIn(ns, t, r))
    ensures NaryBoxesIn(ReplaceSplitIn(ns, t, r), d, xs, cross) == pre + NaryBoxes(r, x, y) + post
    decreases ns
  {
    var w, h := AlongW(d, xs[0], cross), AlongH(d, xs[0], cross);
    var head, rest := NaryBoxes(ns[0], w, h), NaryBoxesIn(ns[1..], d, xs[1..], cross);
    CountConcat(Flatten(ns[0]), FlattenAll(ns[1..]), id);
    if Occurs(t, ns[0]) {
      OccursCount(t, ns[0], id);
      if OccursIn(t, ns[1..]) {
        OccursInCount(t, ns[1..], id);
        assert false;
      }
      ReplaceAbsentIn(ns[1..], t, r);
      var post';
      pre, post', x, y := ReplaceBoxes(ns[0], t, r, id, w, h);
      StandsInLonger(Flatten(ns[0]), FlattenAll(ns[1..]), |pre|, Flatten(t));
      post := post' + rest;
      Regroup([], pre, NaryBoxes(t, x, y), post', rest);
      Regroup([], pre, NaryBoxes(r, x, y), post', rest);
    } else {
      OccursInCount(t, ns[1..], id);
      ReplaceAbsent(ns[0], t, r);
      var pre';
      pre', post, x, y := ReplaceBoxesIn(ns[1..], t, r, id, d, xs[1..], cross);
      pre := head + pre';
      RestoredGeometry.NaryBoxesFollowPanels(ns[0], w, h);
      StandsInLonger(Flatten(ns[0]), FlattenAll(ns[1..]), |pre'|, Flatten(t));
      Regroup(head, pre', NaryBoxes(t, x, y), post, []);
      Regroup(head, pre', NaryBoxes(r, x, y), post, []);
    }
  }

  // ----- splitPanelAt -----

  lemma SplitAlongBoxes(parent: Node, k: nat, newPanel: Panel, side: DropSide, w: real, h: real)
    requires parent.Split? && k < |parent.children| && parent.children[k].Leaf? && Positive(parent)
    requires !side.Center? && parent.direction == WantDirection(side)
    ensures var d, cs := parent.direction, Widened(parent, k, newPanel, side);
            var r := SplitChildAt(parent, k, newPanel, side);
            && PositiveAll(cs) && Positive(r)
            && NaryBoxes(r, w, h) == NaryBoxesIn(cs, d, EqualParts(AlongW(d, w, h), |cs|), AlongH(d, w, h))
  {
    var cs := parent.children;
    PositiveAt(cs, k);
    var pair := Pair(cs[k], newPanel, side);
    assert PositiveAll(pair) by {
      TwoBoxes(pair[0].panel, pair[1].panel, Row, 1.0, 1.0, 1.0);
      assert pair == [Leaf(pair[0].panel), Leaf(pair[1].panel)];
    }
    PositiveConcat(cs[..k], pair);
    PositiveConcat(cs[..k] + pair, cs[k + 1..]);
    InsertAround(cs, k, Leaf(newPanel));
    MadeSplitBoxes(parent.direction, Widened(parent, k, newPanel, side), w, h);
  }

  /** The children with the new panel beside the k-th. */
  function Widened(parent: Node, k: nat, newPanel: Panel, side: DropSide): seq<Node>
    requires parent.Split? && k < |parent.children|
  {
    parent.children[..k] + Pair(parent.children[k], newPanel, side) + parent.children[k + 1..]
  }

  lemma SplitAcrossBoxes(parent: Node, k: nat, newPanel: Panel, side: DropSide, w: real, h: real)
      returns (pre: seq<Box>, post: seq<Box>, x: real, y: real)
    requires parent.Split? && k < |parent.children| && parent.children[k].Leaf? && Positive(parent)
    requires !side.Center? && parent.direction != WantDirection(side)
    ensures var target, r := parent.children[k].panel, SplitChildAt(parent, k, newPanel, side);
            && NaryBoxes(parent, w, h) == pre + [Box(SurfaceId(target), x, y)] + post
            && Positive(r) && NaryBoxes(r, w, h) == pre + Halves(target, newPanel, side, x, y) + post
            && StandsAt(Flatten(parent), |pre|, [target])
  {
    var d, cs := parent.direction, parent.children;
    var target, xs, cross := cs[k].panel, Shares(AlongW(d, w, h), parent.sizes), AlongH(d, w, h);
    x, y := AlongW(d, xs[k], cross), AlongH(d, xs[k], cross);
    PairBoxes(target, newPanel, side, x, y);
    pre, post := ChildBoxes(cs, k, MakeSplit(WantDirection(side), Pair(Leaf(target), newPanel, side)), d, xs, cross);
    FlattenAt(cs, k);
    StandsBetween(FlattenAll(cs[..k]), [target], FlattenAll(cs[k + 1..]));
  }

  lemma StandsBetween<T>(a: seq<T>, ts: seq<T>, b: seq<T>)
    ensures StandsAt(a + ts + b, |a|, ts)
  {
    assert (a + ts + b)[|a|..] == ts + b;
  }

  lemma StandsInside<T>(ps: seq<T>, k: nat, ts: seq<T>, j: nat, us: seq<T>)
    requires StandsAt(ps, k, ts) && StandsAt(ts, j, us)
    ensures StandsAt(ps, k + j, us)
  {
    assert ps[k..][j..] == ps[k + j..];
    assert ps[k..] == ts + ps[k..][|ts|..];
    StandsInLonger(ts, ps[k..][|ts|..], j, us);
  }

  /** The target's leaf is a child of a split of the axis along which it is to be split. */
  predicate SplitsAlong(root: Node, targetId: string, side: DropSide) {
    && FindParentSplit(root, targetId).Some?
    && var parent := FindParentSplit(root, targetId).value;
       parent.Split? && parent.direction == if side.Left? || side.Right? then Row else Column
  }

  /** Splitting exchanges the split that holds the target's leaf. */
  lemma SplitIsReplace(root: Node, targetId: string, newPanel: Panel, side: DropSide) returns (parent: Node, k: nat)
    requires root.Split? && Positive(root) && Unique(Flatten(root)) && HasId(Flatten(root), targetId)
    ensures FindParentSplit(root, targetId) == Some(parent) && parent.Split? && Occurs(parent, root) && Positive(parent)
    ensures k < |parent.children| && k == LeafIndex(parent.children, targetId)
    ensures parent.children[k].Leaf? && Some(parent.children[k].panel) == Find(Flatten(root), targetId)
    ensures HasId(Flatten(parent), targetId)
    ensures SplitPanelAt(Some(root), targetId, newPanel, side)
         == ReplaceSplit(root, parent, SplitChildAt(parent, k, newPanel, side))
  {
    FindParentMeaning(root, targetId);
    parent := FindParentSplit(root, targetId).value;
    k := LeafIndex(parent.children, targetId);
    PositiveBelow(parent, root);
    FlattenAt(parent.children, k);
    ChildCounts(parent.children, k, k, targetId);
    var target := parent.children[k].panel;
    StandsBetween(FlattenAll(parent.children[..k]), [target], FlattenAll(parent.children[k + 1..]));
    var pre, post := ReplaceFlatten(root, parent, parent, targetId);
    StandsBetween(pre, Flatten(parent), post);
    StandsInside(Flatten(root), |pre|, Flatten(parent), |FlattenAll(parent.children[..k])|, [target]);
    StandsFound(Flatten(root), |pre| + |FlattenAll(parent.children[..k])|, target);
  }

  /**
   * Splitting a panel along the split that holds it makes everything in that split equally large, the new panel
   * included, and nothing else on screen changes its size.
   */
  lemma SplitAlong(root: Node, targetId: string, newPanel: Panel, side: DropSide, w: real, h: real)
      returns (parent: Node, cs: seq<Node>, pre: seq<Box>, post: seq<Box>, x: real, y: real)
    requires Positive(root) && Unique(Flatten(root)) && HasId(Flatten(root), targetId) && !side.Center?
    requires SplitsAlong(root, targetId, side)
    ensures var after := SplitPanelAt(Some(root), targetId, newPanel, side);
            && FindParentSplit(root, targetId) == Some(parent) && Positive(parent)
            && StandsAt(Flatten(root), |pre|, Flatten(parent))
            && LeafIndex(parent.children, targetId) < |parent.children|
            && cs == Widened(parent, LeafIndex(parent.children, targetId), newPanel, side) && PositiveAll(cs)
            && Positive(after)
            && NaryBoxes(root, w, h) == pre + NaryBoxes(parent, x, y) + post
            && NaryBoxes(after, w, h)
               == pre + (if parent.direction == Row then NaryBoxesIn(cs, Row, EqualParts(x, |cs|), y)
                         else NaryBoxesIn(cs, Column, EqualParts(y, |cs|), x)) + post
  {
    var k;
    parent, k := SplitIsReplace(root, targetId, newPanel, side);
    cs := Widened(parent, k, newPanel, side);
    SplitAlongBoxes(parent, k, newPanel, side, w, h);
    pre, post, x, y := ReplaceBoxes(root, parent, SplitChildAt(parent, k, newPanel, side), targetId, w, h);
    SplitAlongBoxes(parent, k, newPanel, side, x, y);
  }

  /** Any other panel shares its own box with the new one, half for each; nothing else on screen changes its size. */
  lemma SplitAcross(root: Node, targetId: string, newPanel: Panel, side: DropSide, w: real, h: real)
      returns (pre: seq<Box>, post: seq<Box>, x: real, y: real)
    requires Positive(root) && Unique(Flatten(root)) && HasId(Flatten(root), targetId) && !side.Center?
    requires !SplitsAlong(root, targetId, side)
    ensures var after := SplitPanelAt(Some(root), targetId, newPanel, side);
            var target := Find(Flatten(root), targetId).value;
            && StandsAt(Flatten(root), |pre|, [target]) && Positive(after)
            && NaryBoxes(root, w, h) == pre + [Box(SurfaceId(target), x, y)] + post
            && NaryBoxes(after, w, h) == pre + Halves(target, newPanel, side, x, y) + post
  {
    if root.Leaf? {
      pre, post, x, y := [], [], w, h;
      PairBoxes(root.panel, newPanel, side, w, h);
    } else {
      var parent, k := SplitIsReplace(root, targetId, newPanel, side);
      var target, r := parent.children[k].panel, SplitChildAt(parent, k, newPanel, side);
      var a, b, _, _ := SplitAcrossBoxes(parent, k, newPanel, side, w, h);
      var pre', post', x', y' := ReplaceBoxes(root, parent, r, targetId, w, h);
      a, b, x, y := SplitAcrossBoxes(parent, k, newPanel, side, x', y');
      StandsInside(Flatten(root), |pre'|, Flatten(parent), |a|, [target]);
      Nested(pre', a, [Box(SurfaceId(target), x, y)], b, post');
      Nested(pre', a, Halves(target, newPanel, side, x, y), b, post');
      pre, post := pre' + a, b + post';
    }
  }

  lemma Nested<T>(pre: seq<T>, a: seq<T>, m: seq<T>, b: seq<T>, post: seq<T>)
    ensures pre + (a + m + b) + post == (pre + a) + m + (b + post)
  {
  }

  /** A panel of a list with unique ids is the one that is found under its id. */
  lemma {:induction false} StandsFound(ps: seq<Panel>, k: nat, p: Panel)
    requires Unique(ps) && StandsAt(ps, k, [p])
    ensures Find(ps, p.id) == Some(p)
  {
    assert ps[k] == ps[k..][0] == p;
    MemberHasId(ps, p);
    var found := Find(ps, p.id).value;
    var i :| 0 <= i < |ps| && ps[i] == found;
    if i < k {
      UniqueMeansPairwise(ps, i, k);
    } else if k < i {
      UniqueMeansPairwise(ps, k, i);
    }
  }

  lemma {:induction false} PositiveBelow(t: Node, n: Node)
    requires Occurs(t, n) && Positive(n)
    ensures Positive(t)
    decreases n
  {
    if t != n {
      PositiveBelowIn(t, n.children);
    }
  }

  lemma {:induction false} PositiveBelowIn(t: Node, ns: seq<Node>)
    requires OccursIn(t, ns) && PositiveAll(ns)
    ensures Positive(t)
    decreases ns
  {
    if Occurs(t, ns[0]) {
      PositiveBelow(t, ns[0]);
    } else {
      PositiveBelowIn(t, ns[1..]);
    }
  }
}
