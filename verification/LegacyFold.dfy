/**
 * What both translations from the N-ary to the binary model share: the children that still show something
 * are folded to the right, and the last focused child decides the focus.
 */
module LegacyFold {
  import opened Prelude
  import opened Workspace
  import opened WorkspaceRuns
  import opened Geometry
  import Nary = SplitTree

  /** A converted child; one without a tree was dropped. */
  datatype Part = Part(tree: Option<TreeNode>, focus: Option<string>)

  function Kept(parts: seq<Part>): seq<Part> {
    if parts == [] then []
    else (if parts[0].tree.Some? then [parts[0]] else []) + Kept(parts[1..])
  }

  function Trees(parts: seq<Part>): (r: seq<TreeNode>)
    requires forall i :: 0 <= i < |parts| ==> parts[i].tree.Some?
    ensures |r| == |parts|
  {
    if parts == [] then [] else [parts[0].tree.value] + Trees(parts[1..])
  }

  /** The last focus that is a non-empty string. */
  function LastFocus(parts: seq<Part>): Option<string> {
    if parts == [] then None
    else
      var later := LastFocus(parts[1..]);
      if later.Some? then later else if Truthy(parts[0].focus) then parts[0].focus else None
  }

  /** How a converter names the split that starts at a child and reaches to the last one. */
  type Namer = (nat, nat, real) -> string

  function Fold(d: Nary.Direction, ts: seq<TreeNode>, sizes: seq<real>, start: nat, lo: real, hi: real,
      name: Namer): TreeNode
    requires |ts| == |sizes| > 0
  {
    if |ts| == 1 then ts[0]
    else
      var r := FoldRatio(sizes, lo, hi);
      SplitNode(name(start, start + |ts|, r), Axis(d), r, ts[0], Fold(d, ts[1..], sizes[1..], start + 1, lo, hi, name))
  }

  /** A legacy split: nothing, its only child, or the fold of its children with the saved or equal shares. */
  function Combine(d: Nary.Direction, parts: seq<Part>, sizes: seq<real>, lo: real, hi: real, name: Namer): Part {
    var kept := Kept(parts);
    KeptHaveTrees(parts);
    if |kept| == 0 then Part(None, None)
    else if |kept| == 1 then kept[0]
    else
      var shares := if |sizes| == |kept| then sizes else EqualShares(|kept|);
      Part(Some(Fold(d, Trees(kept), shares, 0, lo, hi, name)), LastFocus(kept))
  }

  lemma {:induction false} KeptHaveTrees(parts: seq<Part>)
    ensures forall i :: 0 <= i < |Kept(parts)| ==> Kept(parts)[i].tree.Some?
  {
    if parts != [] {
      KeptHaveTrees(parts[1..]);
    }
  }

  // ----- What a combination keeps -----

  function PartsLeaves(parts: seq<Part>): seq<string> {
    if parts == [] then [] else LeavesOf(parts[0].tree) + PartsLeaves(parts[1..])
  }

  /** The focus is one of the leaves. */
  predicate FocusInside(p: Part) {
    p.focus.Some? ==> p.focus.value in LeavesOf(p.tree)
  }

  predicate AllFocusInside(parts: seq<Part>) {
    parts == [] || (FocusInside(parts[0]) && AllFocusInside(parts[1..]))
  }

  predicate PartRatios(p: Part, lo: real, hi: real) {
    p.tree.Some? ==> RatiosWithin(p.tree.value, lo, hi)
  }

  predicate AllRatios(parts: seq<Part>, lo: real, hi: real) {
    parts == [] || (PartRatios(parts[0], lo, hi) && AllRatios(parts[1..], lo, hi))
  }

  lemma {:induction false} KeptLaws(parts: seq<Part>, lo: real, hi: real)
    requires AllFocusInside(parts) && AllRatios(parts, lo, hi)
    ensures PartsLeaves(Kept(parts)) == PartsLeaves(parts)
    ensures AllFocusInside(Kept(parts)) && AllRatios(Kept(parts), lo, hi)
  {
    if parts != [] {
      KeptLaws(parts[1..], lo, hi);
      if parts[0].tree.Some? {
        assert Kept(parts)[1..] == Kept(parts[1..]);
      } else {
        assert Kept(parts) == Kept(parts[1..]);
      }
    }
  }

  lemma {:induction false} LastFocusInside(parts: seq<Part>)
    requires AllFocusInside(parts)
    ensures LastFocus(parts).Some? ==> LastFocus(parts).value in PartsLeaves(parts)
  {
    if parts != [] {
      LastFocusInside(parts[1..]);
    }
  }

  lemma {:induction false} FoldLaws(d: Nary.Direction, parts: seq<Part>, sizes: seq<real>, start: nat, lo: real,
      hi: real, name: Namer)
    requires (forall i :: 0 <= i < |parts| ==> parts[i].tree.Some?) && |parts| == |sizes| > 0
    requires AllRatios(parts, lo, hi) && lo <= 0.5 <= hi
    ensures var t := Fold(d, Trees(parts), sizes, start, lo, hi, name);
            Leaves(t) == PartsLeaves(parts) && RatiosWithin(t, lo, hi)
  {
    assert PartsLeaves(parts) == Leaves(parts[0].tree.value) + PartsLeaves(parts[1..]);
    if |parts| == 1 {
      assert PartsLeaves(parts[1..]) == [];
    } else {
      assert Trees(parts)[1..] == Trees(parts[1..]);
      FoldLaws(d, parts[1..], sizes[1..], start + 1, lo, hi, name);
    }
  }

  /** A combination shows its children's leaves in order, with ratios in the band and a visible focus. */
  lemma CombineLaws(d: Nary.Direction, parts: seq<Part>, sizes: seq<real>, lo: real, hi: real, name: Namer)
    requires AllFocusInside(parts) && AllRatios(parts, lo, hi) && lo <= 0.5 <= hi
    ensures var c := Combine(d, parts, sizes, lo, hi, name);
            LeavesOf(c.tree) == PartsLeaves(parts) && FocusInside(c) && PartRatios(c, lo, hi)
  {
    var kept := Kept(parts);
    KeptHaveTrees(parts);
    KeptLaws(parts, lo, hi);
    if |kept| == 1 {
      assert PartsLeaves(kept) == LeavesOf(kept[0].tree) + PartsLeaves(kept[1..]) && kept[1..] == [];
    } else if |kept| > 1 {
      LastFocusInside(kept);
      FoldLaws(d, kept, if |sizes| == |kept| then sizes else EqualShares(|kept|), 0, lo, hi, name);
    }
  }

  lemma {:induction false} KeptFocus(parts: seq<Part>)
    requires AllFocusInside(parts)
    ensures LastFocus(Kept(parts)) == LastFocus(parts)
  {
    if parts != [] {
      KeptFocus(parts[1..]);
      if parts[0].tree.Some? {
        assert Kept(parts)[1..] == Kept(parts[1..]);
      } else {
        assert Kept(parts) == Kept(parts[1..]);
      }
    }
  }

  lemma {:induction false} KeptFocusInside(parts: seq<Part>)
    requires AllFocusInside(parts)
    ensures AllFocusInside(Kept(parts)) && (Kept(parts) == [] ==> LastFocus(parts) == None)
  {
    if parts != [] {
      KeptFocusInside(parts[1..]);
      if parts[0].tree.Some? {
        assert Kept(parts)[1..] == Kept(parts[1..]);
      } else {
        assert Kept(parts) == Kept(parts[1..]);
      }
    }
  }

  /** The focus of a combination is the last one its children have. */
  lemma CombinedFocus(d: Nary.Direction, parts: seq<Part>, sizes: seq<real>, lo: real, hi: real, name: Namer)
    requires AllFocusInside(parts) && forall i :: 0 <= i < |parts| ==> parts[i].focus != Some("")
    ensures Combine(d, parts, sizes, lo, hi, name).focus == LastFocus(parts)
  {
    KeptFocus(parts);
    KeptFocusInside(parts);
    var kept := Kept(parts);
    if |kept| == 1 {
      KeptIsPart(parts);
      assert kept[1..] == [];
    }
  }

  lemma {:induction false} KeptIsPart(parts: seq<Part>)
    ensures forall p :: p in Kept(parts) ==> p in parts
  {
    if parts != [] {
      KeptIsPart(parts[1..]);
    }
  }

  // ----- The registry -----

  /**
   * What converting a piece of the tree guarantees: the registry only grows, by ids of the piece's surface
   * tabs; the leaves are new, distinct and registered; and if those ids are new and distinct, all of them
   * end up registered.
   */
  ghost predicate Converted(leaves: seq<string>, offered: seq<string>, r: map<string, SurfaceRecord>,
                            r': map<string, SurfaceRecord>) {
    && KeysAreIds(r')
    && (forall k :: k in r ==> k in r' && r'[k] == r[k])
    && (forall k :: k in r' ==> k in r || k in offered)
    && NoRepeats(leaves)
    && (forall s :: s in leaves ==> s in r' && s !in r)
    && (NoRepeats(offered) && (forall s :: s in offered ==> s !in r) ==> forall s :: s in offered ==> s in r')
  }

  lemma ConvertedTwice(leaves: seq<string>, leaves': seq<string>, a: seq<string>, b: seq<string>,
                       r: map<string, SurfaceRecord>, r1: map<string, SurfaceRecord>, r2: map<string, SurfaceRecord>)
    requires Converted(leaves, a, r, r1) && Converted(leaves', b, r1, r2)
    ensures Converted(leaves + leaves', a + b, r, r2)
  {
    forall s | s in leaves ensures s !in leaves' {
      assert s in r1;
    }
    NoRepeatsConcat(leaves, leaves');
    NoRepeatsConcat(a, b);
    if NoRepeats(a + b) && (forall s :: s in a + b ==> s !in r) {
      assert forall s :: s in a ==> s in a + b;
      assert forall s :: s in b ==> s in a + b;
      forall s | s in b ensures s !in r1 {
        assert s in a + b && s !in a;
      }
    }
  }

  // ----- Shape -----

  /** The tree without its node ids. */
  function Erase(t: TreeNode): TreeNode {
    match t
    case LeafNode(_, s) => LeafNode("", s)
    case SplitNode(_, d, r, a, b) => SplitNode("", d, r, Erase(a), Erase(b))
  }

  /** Node ids mean nothing on screen. */
  lemma {:induction false} EraseBoxes(t: TreeNode, w: real, h: real)
    ensures Boxes(Erase(t), w, h) == Boxes(t, w, h)
    decreases t
  {
    if t.SplitNode? {
      EraseBoxes(t.first, PartW(t.direction, t.ratio, w), PartH(t.direction, t.ratio, h));
      EraseBoxes(t.second, PartW(t.direction, 1.0 - t.ratio, w), PartH(t.direction, 1.0 - t.ratio, h));
    }
  }

  lemma {:induction false} EraseLeaves(t: TreeNode)
    ensures Leaves(Erase(t)) == Leaves(t)
  {
    if t.SplitNode? {
      EraseLeaves(t.first);
      EraseLeaves(t.second);
    }
  }

  /** Each part is the plain tree of the corresponding child. */
  predicate ArePlain(parts: seq<Part>, ns: seq<Nary.Node>, lo: real, hi: real)
    requires PositiveAll(ns)
    decreases ns
  {
    |parts| == |ns| &&
    (ns == [] ||
     (parts[0].tree.Some? && Erase(parts[0].tree.value) == PlainTree(ns[0], lo, hi)
         && ArePlain(parts[1..], ns[1..], lo, hi)))
  }

  lemma {:induction false} PlainAreKept(parts: seq<Part>, ns: seq<Nary.Node>, lo: real, hi: real)
    requires PositiveAll(ns) && ArePlain(parts, ns, lo, hi)
    ensures Kept(parts) == parts
  {
    if ns != [] {
      PlainAreKept(parts[1..], ns[1..], lo, hi);
    }
  }

  lemma {:induction false} FoldIsPlain(d: Nary.Direction, parts: seq<Part>, ns: seq<Nary.Node>, sizes: seq<real>,
      start: nat,
                                       lo: real, hi: real, name: Namer)
    requires PositiveAll(ns) && ArePlain(parts, ns, lo, hi) && |ns| == |sizes| && |ns| > 0
    requires forall i :: 0 <= i < |parts| ==> parts[i].tree.Some?
    ensures Erase(Fold(d, Trees(parts), sizes, start, lo, hi, name)) == Folded(d, PlainTrees(ns, lo, hi), sizes, lo, hi)
  {
    assert Trees(parts)[0] == parts[0].tree.value && PlainTrees(ns, lo, hi)[0] == PlainTree(ns[0], lo, hi);
    if |ns| > 1 {
      assert Trees(parts)[1..] == Trees(parts[1..]) && PlainTrees(ns, lo, hi)[1..] == PlainTrees(ns[1..], lo, hi);
      FoldIsPlain(d, parts[1..], ns[1..], sizes[1..], start + 1, lo, hi, name);
    }
  }

  /** When no child is dropped, the combination is the plain tree of the split. */
  lemma CombineIsPlain(n: Nary.Node, parts: seq<Part>, lo: real, hi: real, name: Namer)
    requires n.Split? && Positive(n) && ArePlain(parts, n.children, lo, hi)
    ensures var c := Combine(n.direction, parts, n.sizes, lo, hi, name);
            c.tree.Some? && Erase(c.tree.value) == PlainTree(n, lo, hi)
  {
    PlainAreKept(parts, n.children, lo, hi);
    KeptHaveTrees(parts);
    FoldIsPlain(n.direction, parts, n.children, n.sizes, 0, lo, hi, name);
  }

  // ----- Two bands, one tree -----

  lemma {:induction false} WiderBandRatio(sizes: seq<real>, lo: real, hi: real, lo': real, hi': real)
    requires sizes != [] && AllPositive(sizes) && FitsFirst(sizes, lo, hi) && lo' <= lo <= hi <= hi'
    ensures FoldRatio(sizes, lo, hi) == FoldRatio(sizes, lo', hi')
  {
    SumPositive(sizes);
    ShareOfSum(sizes[0], Sum(sizes), lo, hi);
  }

  lemma {:induction false} WiderBandFold(d: Nary.Direction, ts: seq<TreeNode>, sizes: seq<real>, lo: real, hi: real,
      lo': real, hi': real)
    requires |ts| == |sizes| > 0 && AllPositive(sizes) && InBandSizes(sizes, lo, hi) && lo' <= lo <= hi <= hi'
    ensures Folded(d, ts, sizes, lo, hi) == Folded(d, ts, sizes, lo', hi')
  {
    if |ts| > 1 {
      WiderBandRatio(sizes, lo, hi, lo', hi');
      WiderBandFold(d, ts[1..], sizes[1..], lo, hi, lo', hi');
    }
  }

  /** Inside the narrower band the two converters' clamps are the same function. */
  lemma {:induction false} WiderBandAgrees(n: Nary.Node, lo: real, hi: real, lo': real, hi': real)
    requires Positive(n) && InBand(n, lo, hi) && lo' <= lo <= hi <= hi'
    ensures PlainTree(n, lo, hi) == PlainTree(n, lo', hi')
    decreases n
  {
    if n.Split? {
      WiderBandAgreesAll(n.children, lo, hi, lo', hi');
      WiderBandFold(n.direction, PlainTrees(n.children, lo, hi), n.sizes, lo, hi, lo', hi');
    }
  }

  lemma {:induction false} WiderBandAgreesAll(ns: seq<Nary.Node>, lo: real, hi: real, lo': real, hi': real)
    requires PositiveAll(ns) && InBandAll(ns, lo, hi) && lo' <= lo <= hi <= hi'
    ensures PlainTrees(ns, lo, hi) == PlainTrees(ns, lo', hi')
    decreases ns
  {
    if ns != [] {
      WiderBandAgrees(ns[0], lo, hi, lo', hi');
      WiderBandAgreesAll(ns[1..], lo, hi, lo', hi');
    }
  }
}
