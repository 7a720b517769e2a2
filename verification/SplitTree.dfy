/**
 * The N-ary split tree and its edits (src/lib/panelGrid.ts). A tree is compared with the flat list of
 * panels it shows, which is the reference every edit is proved against.
 */
module SplitTree {
  import opened Prelude
  import opened Panels

  datatype Direction = Row | Column

  datatype Node =
    | Leaf(panel: Panel)
    | Split(direction: Direction, children: seq<Node>, sizes: seq<real>)

  // ----- Traversal -----

  /** Row-major order: left to right, top to bottom. */
  function Flatten(n: Node): seq<Panel>
    decreases n
  {
    match n
    case Leaf(p) => [p]
    case Split(_, cs, _) => FlattenAll(cs)
  }

  function FlattenAll(ns: seq<Node>): seq<Panel>
    decreases ns
  {
    if ns == [] then [] else Flatten(ns[0]) + FlattenAll(ns[1..])
  }

  function Shown(root: Option<Node>): seq<Panel> {
    if root.None? then [] else Flatten(root.value)
  }

  /** Every split has at least two children and one size per child. */
  ghost predicate WellFormed(n: Node)
    decreases n
  {
    match n
    case Leaf(_) => true
    case Split(_, cs, sizes) => |cs| >= 2 && |sizes| == |cs| && WellFormedAll(cs)
  }

  ghost predicate WellFormedAll(ns: seq<Node>)
    decreases ns
  {
    ns == [] || (WellFormed(ns[0]) && WellFormedAll(ns[1..]))
  }

  function FindPanel(n: Node, id: string): Option<Panel>
    decreases n
  {
    match n
    case Leaf(p) => if p.id == id then Some(p) else None
    case Split(_, cs, _) => FindPanelIn(cs, id)
  }

  function FindPanelIn(ns: seq<Node>, id: string): Option<Panel>
    decreases ns
  {
    if ns == [] then None
    else
      var found := FindPanel(ns[0], id);
      if found.Some? then found else FindPanelIn(ns[1..], id)
  }

  function FindInRoot(root: Option<Node>, id: string): Option<Panel> {
    if root.None? then None else FindPanel(root.value, id)
  }

  /** Index of the first leaf child holding `id`, or `|ns|`. */
  function LeafIndex(ns: seq<Node>, id: string): (k: nat)
    ensures k <= |ns|
    ensures k < |ns| ==> ns[k].Leaf? && ns[k].panel.id == id
  {
    if ns == [] then 0
    else if ns[0].Leaf? && ns[0].panel.id == id then 0
    else 1 + LeafIndex(ns[1..], id)
  }

  /** The split that directly contains the leaf: this one if a child is that leaf, else the first found deeper. */
  function FindParentSplit(n: Node, id: string): Option<Node>
    decreases n
  {
    match n
    case Leaf(_) => None
    case Split(_, cs, _) => if LeafIndex(cs, id) < |cs| then Some(n) else FindParentIn(cs, id)
  }

  function FindParentIn(ns: seq<Node>, id: string): Option<Node>
    decreases ns
  {
    if ns == [] then None
    else
      var found := FindParentSplit(ns[0], id);
      if found.Some? then found else FindParentIn(ns[1..], id)
  }

  // ----- Edits -----

  function MakeSplit(direction: Direction, children: seq<Node>): Node {
    Split(direction, children, EqualShares(|children|))
  }

  /** Replaces a node of the tree. The program compares references; see `EqualSubtreesSitAtOnePath`. */
  function ReplaceSplit(n: Node, target: Node, replacement: Node): Node
    decreases n
  {
    if n == target then replacement
    else match n
      case Leaf(_) => n
      case Split(d, cs, sizes) => Split(d, ReplaceSplitIn(cs, target, replacement), sizes)
  }

  function ReplaceSplitIn(ns: seq<Node>, target: Node, replacement: Node): (r: seq<Node>)
    ensures |r| == |ns|
    decreases ns
  {
    if ns == [] then []
    else [ReplaceSplit(ns[0], target, replacement)] + ReplaceSplitIn(ns[1..], target, replacement)
  }

  predicate Before(side: DropSide) {
    side.Left? || side.Top?
  }

  function WantDirection(side: DropSide): Direction {
    if side.Left? || side.Right? then Row else Column
  }

  /** The two leaves in the order the side asks for. */
  function Pair(target: Node, newPanel: Panel, side: DropSide): seq<Node> {
    if Before(side) then [Leaf(newPanel), target] else [target, Leaf(newPanel)]
  }

  function SplitPanelAt(root: Option<Node>, targetId: string, newPanel: Panel, side: DropSide): Node {
    match root
    case None => Leaf(newPanel)
    case Some(Leaf(p)) =>
      if p.id != targetId then Leaf(p)
      else if side.Center? then Leaf(AddTabToPanelLeaf(p, newPanel))
      else MakeSplit(WantDirection(side), Pair(Leaf(p), newPanel, side))
    case Some(tree) =>
      var parent := FindParentSplit(tree, targetId);
      if parent.None? || parent.value.Leaf? then tree
      else
        var cs := parent.value.children;
        var k := LeafIndex(cs, targetId);
        if k == |cs| then tree
        else ReplaceSplit(tree, parent.value, SplitChildAt(parent.value, k, newPanel, side))
  }

  /** What becomes of the split whose child `k` is the target leaf. */
  function SplitChildAt(parent: Node, k: nat, newPanel: Panel, side: DropSide): Node
    requires parent.Split? && k < |parent.children| && parent.children[k].Leaf?
  {
    var cs := parent.children;
    if side.Center? then
      parent.(children := cs[k := Leaf(AddTabToPanelLeaf(cs[k].panel, newPanel))])
    else if parent.direction == WantDirection(side) then
      var at := if side.Right? || side.Bottom? then k + 1 else k;
      var cs' := cs[..at] + [Leaf(newPanel)] + cs[at..];
      parent.(children := cs', sizes := EqualShares(|cs'|))
    else
      parent.(children := cs[k := MakeSplit(WantDirection(side), Pair(cs[k], newPanel, side))])
  }

  function RemovePanel(n: Node, id: string): Option<Node>
    decreases n
  {
    match n
    case Leaf(p) => if p.id == id then None else Some(n)
    case Split(d, cs, _) =>
      var kept := RemovePanelIn(cs, id);
      if |kept| == 0 then None
      else if |kept| == 1 then Some(kept[0])
      else Some(Split(d, kept, EqualShares(|kept|)))
  }

  function RemovePanelIn(ns: seq<Node>, id: string): seq<Node>
    decreases ns
  {
    if ns == [] then []
    else
      var r := RemovePanel(ns[0], id);
      (if r.Some? then [r.value] else []) + RemovePanelIn(ns[1..], id)
  }

  function RemoveFromRoot(root: Option<Node>, id: string): Option<Node> {
    if root.None? then None else RemovePanel(root.value, id)
  }

  function MovePanel(root: Option<Node>, draggedId: string, targetId: string, side: DropSide): Option<Node> {
    if draggedId == targetId || FindInRoot(root, targetId).None? then root
    else match FindInRoot(root, draggedId)
      case None => root
      case Some(panel) =>
        var afterRemove := RemoveFromRoot(root, draggedId);
        if FindInRoot(afterRemove, targetId).None? then root
        else Some(SplitPanelAt(afterRemove, targetId, panel, side))
  }

  function ReplacePanelLeaf(n: Node, id: string, replacement: Panel): Node
    decreases n
  {
    match n
    case Leaf(p) => if p.id == id then Leaf(replacement) else n
    case Split(d, cs, sizes) => Split(d, ReplacePanelLeafIn(cs, id, replacement), sizes)
  }

  function ReplacePanelLeafIn(ns: seq<Node>, id: string, replacement: Panel): (r: seq<Node>)
    ensures |r| == |ns|
    decreases ns
  {
    if ns == [] then [] else [ReplacePanelLeaf(ns[0], id, replacement)] + ReplacePanelLeafIn(ns[1..], id, replacement)
  }

  // ----- The reference: the same edits on the flat list -----

  /** What stands in the list where the target stood. */
  function Beside(target: Panel, newPanel: Panel, side: DropSide): seq<Panel> {
    if side.Center? then [AddTabToPanelLeaf(target, newPanel)]
    else if Before(side) then [newPanel, target]
    else [target, newPanel]
  }

  /** Replaces the first panel with the id by the given panels. */
  function Substitute(ps: seq<Panel>, id: string, with: Panel -> seq<Panel>): seq<Panel> {
    if ps == [] then []
    else if ps[0].id == id then with(ps[0]) + ps[1..]
    else [ps[0]] + Substitute(ps[1..], id, with)
  }

  function Drop(newPanel: Panel, side: DropSide): Panel -> seq<Panel> {
    p => Beside(p, newPanel, side)
  }

  function Only(p: Panel): Panel -> seq<Panel> {
    _ => [p]
  }

  function InsertBeside(ps: seq<Panel>, targetId: string, newPanel: Panel, side: DropSide): seq<Panel> {
    Substitute(ps, targetId, Drop(newPanel, side))
  }

  lemma {:induction false} SubstituteMiddle(a: seq<Panel>, p: Panel, b: seq<Panel>, with: Panel -> seq<Panel>)
    requires !HasId(a, p.id)
    ensures Substitute(a + [p] + b, p.id, with) == a + with(p) + b
  {
    if a == [] {
      assert a + [p] + b == [p] + b;
      assert a + with(p) + b == with(p) + b;
    } else {
      assert (a + [p] + b)[1..] == a[1..] + [p] + b;
      SubstituteMiddle(a[1..], p, b, with);
    }
  }

  lemma {:induction false} SubstituteAbsent(ps: seq<Panel>, id: string, with: Panel -> seq<Panel>)
    requires !HasId(ps, id)
    ensures Substitute(ps, id, with) == ps
  {
    if ps != [] {
      SubstituteAbsent(ps[1..], id, with);
    }
  }

  // ----- Flattening and searching -----

  lemma {:induction false} FlattenConcat(a: seq<Node>, b: seq<Node>)
    ensures FlattenAll(a + b) == FlattenAll(a) + FlattenAll(b)
  {
    if a == [] {
      assert a + b == b;
    } else {
      assert (a + b)[1..] == a[1..] + b;
      FlattenConcat(a[1..], b);
    }
  }

  lemma FlattenOne(n: Node)
    ensures FlattenAll([n]) == Flatten(n)
  {
    assert FlattenAll([n]) == Flatten(n) + FlattenAll([]);
  }

  lemma FlattenAt(ns: seq<Node>, k: nat)
    requires k < |ns|
    ensures FlattenAll(ns) == FlattenAll(ns[..k]) + Flatten(ns[k]) + FlattenAll(ns[k + 1..])
  {
    FlattenConcat(ns[..k], ns[k..]);
    assert ns == ns[..k] + ns[k..] && ns[k..][1..] == ns[k + 1..];
  }

  lemma {:induction false} WellFormedConcat(a: seq<Node>, b: seq<Node>)
    ensures WellFormedAll(a + b) <==> WellFormedAll(a) && WellFormedAll(b)
  {
    if a == [] {
      assert a + b == b;
    } else {
      assert (a + b)[1..] == a[1..] + b;
      WellFormedConcat(a[1..], b);
    }
  }

  lemma WellFormedAt(ns: seq<Node>, k: nat)
    requires k < |ns|
    ensures WellFormedAll(ns) <==> WellFormedAll(ns[..k]) && WellFormed(ns[k]) && WellFormedAll(ns[k + 1..])
  {
    WellFormedConcat(ns[..k], ns[k..]);
    assert ns == ns[..k] + ns[k..] && ns[k..][1..] == ns[k + 1..];
  }

  lemma {:induction false} FindPanelIsFind(n: Node, id: string)
    ensures FindPanel(n, id) == Find(Flatten(n), id)
    decreases n
  {
    if n.Split? {
      FindPanelInIsFind(n.children, id);
    }
  }

  lemma {:induction false} FindPanelInIsFind(ns: seq<Node>, id: string)
    ensures FindPanelIn(ns, id) == Find(FlattenAll(ns), id)
    decreases ns
  {
    if ns != [] {
      FindPanelIsFind(ns[0], id);
      FindPanelInIsFind(ns[1..], id);
      FindConcat(Flatten(ns[0]), FlattenAll(ns[1..]), id);
    }
  }

  lemma FindInRootIsFind(root: Option<Node>, id: string)
    ensures FindInRoot(root, id) == Find(Shown(root), id)
  {
    if root.Some? {
      FindPanelIsFind(root.value, id);
    }
  }

  // ----- Subtrees -----

  ghost predicate Occurs(t: Node, n: Node)
    decreases n
  {
    t == n || (n.Split? && OccursIn(t, n.children))
  }

  ghost predicate OccursIn(t: Node, ns: seq<Node>)
    decreases ns
  {
    ns != [] && (Occurs(t, ns[0]) || OccursIn(t, ns[1..]))
  }

  lemma {:induction false} OccursCount(t: Node, n: Node, id: string)
    requires Occurs(t, n)
    ensures CountId(Flatten(t), id) <= CountId(Flatten(n), id)
    decreases n
  {
    if t != n {
      OccursInCount(t, n.children, id);
    }
  }

  lemma {:induction false} OccursInCount(t: Node, ns: seq<Node>, id: string)
    requires OccursIn(t, ns)
    ensures CountId(Flatten(t), id) <= CountId(FlattenAll(ns), id)
    decreases ns
  {
    CountConcat(Flatten(ns[0]), FlattenAll(ns[1..]), id);
    if Occurs(t, ns[0]) {
      OccursCount(t, ns[0], id);
    } else {
      OccursInCount(t, ns[1..], id);
    }
  }

  lemma {:induction false} ReplaceAbsent(n: Node, t: Node, r: Node)
    requires !Occurs(t, n)
    ensures ReplaceSplit(n, t, r) == n
    decreases n
  {
    if n.Split? {
      ReplaceAbsentIn(n.children, t, r);
    }
  }

  lemma {:induction false} ReplaceAbsentIn(ns: seq<Node>, t: Node, r: Node)
    requires !OccursIn(t, ns)
    ensures ReplaceSplitIn(ns, t, r) == ns
    decreases ns
  {
    if ns != [] {
      ReplaceAbsent(ns[0], t, r);
      ReplaceAbsentIn(ns[1..], t, r);
    }
  }

  /**
   * Replacing a subtree that shows a uniquely identified panel exchanges exactly its stretch of the leaf
   * order. Such a subtree occurs once, so comparing by value finds the node the program finds by reference.
   */
  lemma {:induction false} ReplaceFlatten(n: Node, t: Node, r: Node, id: string)
      returns (pre: seq<Panel>, post: seq<Panel>)
    requires Occurs(t, n) && HasId(Flatten(t), id) && CountId(Flatten(n), id) == 1
    ensures Flatten(n) == pre + Flatten(t) + post
    ensures Flatten(ReplaceSplit(n, t, r)) == pre + Flatten(r) + post
    ensures WellFormed(n) && WellFormed(r) ==> WellFormed(ReplaceSplit(n, t, r))
    decreases n
  {
    if t == n {
      pre, post := [], [];
    } else {
      pre, post := ReplaceFlattenIn(n.children, t, r, id);
    }
  }

  lemma Regroup<T>(a: seq<T>, b: seq<T>, m: seq<T>, c: seq<T>, d: seq<T>)
    ensures a == [] ==> (b + m + c) + d == b + m + (c + d)
    ensures d == [] ==> a + (b + m + c) == (a + b) + m + c
  {
  }

  lemma {:induction false} ReplaceFlattenIn(ns: seq<Node>, t: Node, r: Node, id: string)
      returns (pre: seq<Panel>, post: seq<Panel>)
    requires OccursIn(t, ns) && HasId(Flatten(t), id) && CountId(FlattenAll(ns), id) == 1
    ensures FlattenAll(ns) == pre + Flatten(t) + post
    ensures FlattenAll(ReplaceSplitIn(ns, t, r)) == pre + Flatten(r) + post
    ensures WellFormedAll(ns) && WellFormed(r) ==> WellFormedAll(ReplaceSplitIn(ns, t, r))
    decreases ns
  {
    var head, rest := Flatten(ns[0]), FlattenAll(ns[1..]);
    CountConcat(head, rest, id);
    if Occurs(t, ns[0]) {
      OccursCount(t, ns[0], id);
      if OccursIn(t, ns[1..]) {
        OccursInCount(t, ns[1..], id);
        assert false;
      }
      ReplaceAbsentIn(ns[1..], t, r);
      var post';
      pre, post' := ReplaceFlatten(ns[0], t, r, id);
      post := post' + rest;
      Regroup([], pre, Flatten(t), post', rest);
      Regroup([], pre, Flatten(r), post', rest);
    } else {
      OccursInCount(t, ns[1..], id);
      ReplaceAbsent(ns[0], t, r);
      var pre';
      pre', post := ReplaceFlattenIn(ns[1..], t, r, id);
      pre := head + pre';
      Regroup(head, pre', Flatten(t), post, []);
      Regroup(head, pre', Flatten(r), post, []);
    }
  }

  /** The node reached by a path of child indices. */
  ghost function At(n: Node, path: seq<nat>): Option<Node>
    decreases path
  {
    if path == [] then Some(n)
    else if n.Leaf? || path[0] >= |n.children| then None
    else At(n.children[path[0]], path[1..])
  }

  lemma {:induction false} AtOccurs(n: Node, path: seq<nat>, id: string)
    requires At(n, path).Some?
    ensures CountId(Flatten(At(n, path).value), id) <= CountId(Flatten(n), id)
    decreases path
  {
    if path != [] {
      AtOccurs(n.children[path[0]], path[1..], id);
      ChildCounts(n.children, path[0], path[0], id);
    }
  }

  lemma ChildCounts(ns: seq<Node>, i: nat, j: nat, id: string)
    requires i < |ns| && j < |ns|
    ensures CountId(Flatten(ns[i]), id) <= CountId(FlattenAll(ns), id)
    ensures i != j ==> CountId(Flatten(ns[i]), id) + CountId(Flatten(ns[j]), id) <= CountId(FlattenAll(ns), id)
    decreases ns
  {
    var head, rest := Flatten(ns[0]), FlattenAll(ns[1..]);
    CountConcat(head, rest, id);
    if i > 0 {
      ChildCounts(ns[1..], i - 1, if j > 0 then j - 1 else i - 1, id);
    } else if j > 0 {
      ChildCounts(ns[1..], j - 1, j - 1, id);
    }
  }

  /**
   * Why values stand for references here: where ids are unique and every split shows at least two panels,
   * no two places of a tree hold equal subtrees.
   */
  lemma {:induction false} EqualSubtreesSitAtOnePath(n: Node, p: seq<nat>, q: seq<nat>)
    requires Unique(Flatten(n)) && WellFormed(n)
    requires At(n, p).Some? && At(n, p) == At(n, q)
    ensures p == q
    decreases |p| + |q|
  {
    if p == [] && q == [] {
    } else if p == [] {
      ProperSubtreeIsSmaller(n, q);
    } else if q == [] {
      ProperSubtreeIsSmaller(n, p);
    } else {
      var a, b := n.children[p[0]], n.children[q[0]];
      var t := At(n, p).value;
      WellFormedAt(n.children, p[0]);
      AtWellFormed(a, p[1..]);
      ShowsSomething(t);
      var id := Flatten(t)[0].id;
      MemberHasId(Flatten(t), Flatten(t)[0]);
      AtOccurs(a, p[1..], id);
      AtOccurs(b, q[1..], id);
      ChildCounts(n.children, p[0], q[0], id);
      forall x ensures CountId(Flatten(a), x) <= 1 {
        ChildCounts(n.children, p[0], q[0], x);
      }
      EqualSubtreesSitAtOnePath(a, p[1..], q[1..]);
      assert p == [p[0]] + p[1..] && q == [q[0]] + q[1..];
    }
  }

  lemma {:induction false} AtWellFormed(n: Node, path: seq<nat>)
    requires WellFormed(n) && At(n, path).Some?
    ensures WellFormed(At(n, path).value)
    decreases path
  {
    if path != [] {
      WellFormedAt(n.children, path[0]);
      AtWellFormed(n.children[path[0]], path[1..]);
    }
  }

  /** A well-formed split shows at least two panels, a leaf one. */
  lemma {:induction false} ShowsSomething(n: Node)
    requires WellFormed(n)
    ensures |Flatten(n)| >= if n.Leaf? then 1 else 2
    decreases n
  {
    if n.Split? {
      ShowsOneEach(n.children);
    }
  }

  lemma {:induction false} ShowsOneEach(ns: seq<Node>)
    requires WellFormedAll(ns)
    ensures |FlattenAll(ns)| >= |ns|
    decreases ns
  {
    if ns != [] {
      ShowsSomething(ns[0]);
      ShowsOneEach(ns[1..]);
    }
  }

  lemma {:induction false} ProperSubtreeIsSmaller(n: Node, path: seq<nat>)
    requires WellFormed(n) && path != [] && At(n, path).Some?
    ensures |Flatten(At(n, path).value)| < |Flatten(n)|
    decreases path
  {
    var k := path[0];
    var a, b := n.children[..k], n.children[k + 1..];
    FlattenAt(n.children, k);
    WellFormedAt(n.children, k);
    ShowsOneEach(a);
    ShowsOneEach(b);
    if path[1..] != [] {
      ProperSubtreeIsSmaller(n.children[k], path[1..]);
    }
  }

  // ----- splitPanelAt -----

  lemma {:induction false} FindParentMeaning(n: Node, id: string)
    ensures n.Split? ==> (FindParentSplit(n, id).Some? <==> HasId(Flatten(n), id))
    ensures FindParentSplit(n, id).Some? ==>
              var p := FindParentSplit(n, id).value;
              p.Split? && Occurs(p, n) && LeafIndex(p.children, id) < |p.children|
    decreases n
  {
    if n.Split? {
      FindParentInMeaning(n.children, id);
      if LeafIndex(n.children, id) < |n.children| {
        ChildCounts(n.children, LeafIndex(n.children, id), 0, id);
      }
    }
  }

  lemma {:induction false} FindParentInMeaning(ns: seq<Node>, id: string)
    ensures LeafIndex(ns, id) < |ns| || FindParentIn(ns, id).Some? <==> HasId(FlattenAll(ns), id)
    ensures FindParentIn(ns, id).Some? ==>
              var p := FindParentIn(ns, id).value;
              p.Split? && OccursIn(p, ns) && LeafIndex(p.children, id) < |p.children|
    decreases ns
  {
    if ns != [] {
      CountConcat(Flatten(ns[0]), FlattenAll(ns[1..]), id);
      FindParentMeaning(ns[0], id);
      FindParentInMeaning(ns[1..], id);
    }
  }

  lemma SplitChildFlatten(parent: Node, k: nat, newPanel: Panel, side: DropSide)
    requires parent.Split? && k < |parent.children| && parent.children[k].Leaf?
    ensures var cs := parent.children;
            Flatten(SplitChildAt(parent, k, newPanel, side))
            == FlattenAll(cs[..k]) + Beside(cs[k].panel, newPanel, side) + FlattenAll(cs[k + 1..])
    ensures WellFormed(parent) ==> WellFormed(SplitChildAt(parent, k, newPanel, side))
  {
    var cs := parent.children;
    var r := SplitChildAt(parent, k, newPanel, side);
    if side.Center? {
      FlattenReplaceChild(cs, k, r.children[k]);
    } else if parent.direction == WantDirection(side) {
      InsertAround(cs, k, Leaf(newPanel));
      FlattenInsertPair(cs, k, newPanel, side);
    } else {
      PairFlatten(cs[k], newPanel, side);
      FlattenReplaceChild(cs, k, r.children[k]);
    }
  }

  lemma InsertAround<T>(xs: seq<T>, k: nat, x: T)
    requires k < |xs|
    ensures xs[..k] + [x] + xs[k..] == xs[..k] + [x, xs[k]] + xs[k + 1..]
    ensures xs[..k + 1] + [x] + xs[k + 1..] == xs[..k] + [xs[k], x] + xs[k + 1..]
  {
  }

  lemma FlattenInsertPair(cs: seq<Node>, k: nat, newPanel: Panel, side: DropSide)
    requires k < |cs| && cs[k].Leaf? && !side.Center?
    ensures FlattenAll(cs[..k] + Pair(cs[k], newPanel, side) + cs[k + 1..])
         == FlattenAll(cs[..k]) + Beside(cs[k].panel, newPanel, side) + FlattenAll(cs[k + 1..])
    ensures WellFormedAll(cs) ==> WellFormedAll(cs[..k] + Pair(cs[k], newPanel, side) + cs[k + 1..])
  {
    var pair := Pair(cs[k], newPanel, side);
    PairFlatten(cs[k], newPanel, side);
    FlattenConcat(cs[..k] + pair, cs[k + 1..]);
    FlattenConcat(cs[..k], pair);
    WellFormedAt(cs, k);
    WellFormedConcat(cs[..k] + pair, cs[k + 1..]);
    WellFormedConcat(cs[..k], pair);
  }

  lemma FlattenReplaceChild(cs: seq<Node>, k: nat, n: Node)
    requires k < |cs|
    ensures FlattenAll(cs[k := n]) == FlattenAll(cs[..k]) + Flatten(n) + FlattenAll(cs[k + 1..])
    ensures WellFormedAll(cs) && WellFormed(n) ==> WellFormedAll(cs[k := n])
  {
    var cs' := cs[k := n];
    assert cs'[..k] == cs[..k] && cs'[k + 1..] == cs[k + 1..];
    FlattenAt(cs', k);
    WellFormedAt(cs', k);
    WellFormedAt(cs, k);
  }

  lemma PairFlatten(target: Node, newPanel: Panel, side: DropSide)
    requires target.Leaf? && !side.Center?
    ensures FlattenAll(Pair(target, newPanel, side)) == Beside(target.panel, newPanel, side)
    ensures WellFormedAll(Pair(target, newPanel, side))
  {
    var pair := Pair(target, newPanel, side);
    assert pair == [pair[0]] + [pair[1]];
    FlattenConcat([pair[0]], [pair[1]]);
    FlattenOne(pair[0]);
    FlattenOne(pair[1]);
    WellFormedConcat([pair[0]], [pair[1]]);
  }

  /**
   * splitPanelAt inserts the new panel immediately before or after its target in leaf order (or, in the
   * centre, as a tab of the target), whatever branch it takes, and keeps the tree well formed.
   */
  lemma SplitPanelAtLeafOrder(root: Node, targetId: string, newPanel: Panel, side: DropSide)
    requires Unique(Flatten(root))
    ensures Flatten(SplitPanelAt(Some(root), targetId, newPanel, side))
        == InsertBeside(Flatten(root), targetId, newPanel, side)
    ensures WellFormed(root) ==> WellFormed(SplitPanelAt(Some(root), targetId, newPanel, side))
  {
    var with := Drop(newPanel, side);
    if root.Leaf? {
      var p := root.panel;
      if p.id != targetId {
        SubstituteAbsent([p], targetId, with);
      } else {
        SubstituteMiddle([], p, [], with);
        assert [] + [p] + [] == [p] && [] + with(p) + [] == with(p);
        if !side.Center? {
          PairFlatten(root, newPanel, side);
        }
      }
    } else {
      FindParentMeaning(root, targetId);
      if !HasId(Flatten(root), targetId) {
        SubstituteAbsent(Flatten(root), targetId, with);
      } else {
        var parent := FindParentSplit(root, targetId).value;
        var cs := parent.children;
        var k := LeafIndex(cs, targetId);
        var r := SplitChildAt(parent, k, newPanel, side);
        SplitChildFlatten(parent, k, newPanel, side);
        FlattenAt(cs, k);
        ChildCounts(cs, k, k, targetId);
        OccursCount(parent, root, targetId);
        if WellFormed(root) {
          OccursWellFormed(parent, root);
        }
        var pre, post := ReplaceFlatten(root, parent, r, targetId);
        var a, b, p := pre + FlattenAll(cs[..k]), FlattenAll(cs[k + 1..]) + post, cs[k].panel;
        SurroundedBy(Flatten(root), pre, FlattenAll(cs[..k]), [p], FlattenAll(cs[k + 1..]), post);
        SurroundedBy(Flatten(ReplaceSplit(root, parent, r)), pre, FlattenAll(cs[..k]), with(p), FlattenAll(cs[k + 1..]),
            post);
        WithoutMiddle(a, p, b);
        SubstituteMiddle(a, p, b, with);
      }
    }
  }

  lemma SurroundedBy(s: seq<Panel>, pre: seq<Panel>, a: seq<Panel>, m: seq<Panel>, b: seq<Panel>, post: seq<Panel>)
    requires s == pre + (a + m + b) + post
    ensures s == (pre + a) + m + (b + post)
  {
  }

  lemma {:induction false} OccursWellFormed(t: Node, n: Node)
    requires Occurs(t, n) && WellFormed(n)
    ensures WellFormed(t)
    decreases n
  {
    if t != n {
      OccursInWellFormed(t, n.children);
    }
  }

  lemma {:induction false} OccursInWellFormed(t: Node, ns: seq<Node>)
    requires OccursIn(t, ns) && WellFormedAll(ns)
    ensures WellFormed(t)
    decreases ns
  {
    if Occurs(t, ns[0]) {
      OccursWellFormed(t, ns[0]);
    } else {
      OccursInWellFormed(t, ns[1..]);
    }
  }

  // ----- removePanel and movePanel -----

  lemma {:induction false} RemovePanelLeafOrder(n: Node, id: string)
    ensures Shown(RemovePanel(n, id)) == Without(Flatten(n), id)
    ensures WellFormed(n) && RemovePanel(n, id).Some? ==> WellFormed(RemovePanel(n, id).value)
    decreases n
  {
    if n.Split? {
      var kept := RemovePanelIn(n.children, id);
      RemovePanelInLeafOrder(n.children, id);
      if |kept| == 1 {
        FlattenOne(kept[0]);
      }
    }
  }

  lemma {:induction false} RemovePanelInLeafOrder(ns: seq<Node>, id: string)
    ensures FlattenAll(RemovePanelIn(ns, id)) == Without(FlattenAll(ns), id)
    ensures WellFormedAll(ns) ==> WellFormedAll(RemovePanelIn(ns, id))
    decreases ns
  {
    if ns != [] {
      RemovePanelLeafOrder(ns[0], id);
      RemovePanelInLeafOrder(ns[1..], id);
      WithoutConcat(Flatten(ns[0]), FlattenAll(ns[1..]), id);
      var r := RemovePanel(ns[0], id);
      if r.Some? {
        FlattenOne(r.value);
        FlattenConcat([r.value], RemovePanelIn(ns[1..], id));
        WellFormedConcat([r.value], RemovePanelIn(ns[1..], id));
      } else {
        assert RemovePanelIn(ns, id) == RemovePanelIn(ns[1..], id);
      }
    }
  }

  /** An emptied tree is exactly a tree that shows nothing. */
  lemma RemoveFromRootLeafOrder(root: Option<Node>, id: string)
    ensures Shown(RemoveFromRoot(root, id)) == Without(Shown(root), id)
    ensures root.Some? && WellFormed(root.value) && RemoveFromRoot(root, id).Some?
        ==> WellFormed(RemoveFromRoot(root, id).value)
  {
    if root.Some? {
      RemovePanelLeafOrder(root.value, id);
    }
  }

  /**
   * movePanel takes the dragged panel out of the leaf order and puts it back beside its target; it leaves
   * the tree alone exactly when there is nothing to move.
   */
  lemma MovePanelLeafOrder(root: Option<Node>, draggedId: string, targetId: string, side: DropSide)
    requires Unique(Shown(root))
    ensures var before, moved := Shown(root), MovePanel(root, draggedId, targetId, side);
            if draggedId == targetId || !HasId(before, targetId) || !HasId(before, draggedId) then moved == root
            else Shown(moved) == InsertBeside(Without(before, draggedId), targetId, Find(before, draggedId).value, side)
    ensures root.Some? && WellFormed(root.value) ==>
              MovePanel(root, draggedId, targetId, side).Some?
                  && WellFormed(MovePanel(root, draggedId, targetId, side).value)
  {
    FindInRootIsFind(root, targetId);
    FindInRootIsFind(root, draggedId);
    var rest := RemoveFromRoot(root, draggedId);
    RemoveFromRootLeafOrder(root, draggedId);
    FindInRootIsFind(rest, targetId);
    CountWithout(Shown(root), draggedId, targetId);
    UniqueWithout(Shown(root), draggedId);
    if rest.Some? && HasId(Shown(root), draggedId) {
      SplitPanelAtLeafOrder(rest.value, targetId, Find(Shown(root), draggedId).value, side);
    }
  }

  lemma {:induction false} InsertBesidePermutes(ps: seq<Panel>, targetId: string, newPanel: Panel, side: DropSide)
    requires HasId(ps, targetId) && !side.Center?
    ensures multiset(InsertBeside(ps, targetId, newPanel, side)) == multiset(ps) + multiset{newPanel}
  {
    var rest := ps[1..];
    assert ps == [ps[0]] + rest;
    if ps[0].id == targetId {
      PairPermutes(ps[0], newPanel, side, rest);
    } else {
      InsertBesidePermutes(rest, targetId, newPanel, side);
      var inserted := InsertBeside(rest, targetId, newPanel, side);
      assert multiset([ps[0]] + inserted) == multiset{ps[0]} + multiset(inserted);
    }
  }

  lemma PairPermutes(p: Panel, q: Panel, side: DropSide, rest: seq<Panel>)
    requires !side.Center?
    ensures multiset(Beside(p, q, side) + rest) == multiset([p] + rest) + multiset{q}
  {
  }

  /** A drop beside another panel permutes the panels of the tree. */
  lemma MovePanelPermutes(root: Option<Node>, draggedId: string, targetId: string, side: DropSide)
    requires Unique(Shown(root)) && !side.Center?
    ensures multiset(Shown(MovePanel(root, draggedId, targetId, side))) == multiset(Shown(root))
  {
    var before := Shown(root);
    MovePanelLeafOrder(root, draggedId, targetId, side);
    if draggedId != targetId && HasId(before, targetId) && HasId(before, draggedId) {
      CountWithout(before, draggedId, targetId);
      InsertBesidePermutes(Without(before, draggedId), targetId, Find(before, draggedId).value, side);
      WithoutTakesOne(before, Find(before, draggedId).value);
    }
  }

  // ----- Inserting and removing again -----

  /** The same tree with every split reset to equal shares. */
  function Equalized(n: Node): Node
    decreases n
  {
    match n
    case Leaf(_) => n
    case Split(d, cs, _) => Split(d, EqualizedAll(cs), EqualShares(|cs|))
  }

  function EqualizedAll(ns: seq<Node>): (r: seq<Node>)
    ensures |r| == |ns|
    decreases ns
  {
    if ns == [] then [] else [Equalized(ns[0])] + EqualizedAll(ns[1..])
  }

  lemma {:induction false} RemoveAbsent(n: Node, id: string)
    requires WellFormed(n) && !HasId(Flatten(n), id)
    ensures RemovePanel(n, id) == Some(Equalized(n))
    decreases n
  {
    if n.Split? {
      RemoveAbsentIn(n.children, id);
    }
  }

  lemma {:induction false} RemoveAbsentIn(ns: seq<Node>, id: string)
    requires WellFormedAll(ns) && !HasId(FlattenAll(ns), id)
    ensures RemovePanelIn(ns, id) == EqualizedAll(ns)
    decreases ns
  {
    if ns != [] {
      CountConcat(Flatten(ns[0]), FlattenAll(ns[1..]), id);
      RemoveAbsent(ns[0], id);
      RemoveAbsentIn(ns[1..], id);
    }
  }

  /** A leaf that goes again may stand anywhere among the children. */
  lemma {:induction false} RemoveInInsert(ns: seq<Node>, at: nat, p: Panel)
    requires at <= |ns|
    ensures RemovePanelIn(ns[..at] + [Leaf(p)] + ns[at..], p.id) == RemovePanelIn(ns, p.id)
  {
    var with := ns[..at] + [Leaf(p)] + ns[at..];
    if at == 0 {
      assert with[1..] == ns;
    } else {
      assert with[1..] == ns[1..][..at - 1] + [Leaf(p)] + ns[1..][at - 1..];
      RemoveInInsert(ns[1..], at - 1, p);
    }
  }

  lemma {:induction false} RemoveInUpdate(ns: seq<Node>, k: nat, n: Node, id: string)
    requires k < |ns| && RemovePanel(n, id) == RemovePanel(ns[k], id)
    ensures RemovePanelIn(ns[k := n], id) == RemovePanelIn(ns, id)
  {
    if k == 0 {
      assert ns[k := n][1..] == ns[1..];
    } else {
      assert ns[k := n][1..] == ns[1..][k - 1 := n];
      RemoveInUpdate(ns[1..], k - 1, n, id);
    }
  }

  /** A replacement that removal takes back to the replaced subtree is taken back inside any tree. */
  lemma {:induction false} RemoveUndoesReplace(n: Node, t: Node, r: Node, id: string)
    requires WellFormed(n) && !HasId(Flatten(n), id) && RemovePanel(r, id) == Some(Equalized(t))
    ensures RemovePanel(ReplaceSplit(n, t, r), id) == Some(Equalized(n))
    decreases n
  {
    if n != t && n.Split? {
      RemoveUndoesReplaceIn(n.children, t, r, id);
    }
  }

  lemma {:induction false} RemoveUndoesReplaceIn(ns: seq<Node>, t: Node, r: Node, id: string)
    requires WellFormedAll(ns) && !HasId(FlattenAll(ns), id) && RemovePanel(r, id) == Some(Equalized(t))
    ensures RemovePanelIn(ReplaceSplitIn(ns, t, r), id) == EqualizedAll(ns)
    decreases ns
  {
    if ns != [] {
      CountConcat(Flatten(ns[0]), FlattenAll(ns[1..]), id);
      RemoveUndoesReplace(ns[0], t, r, id);
      RemoveUndoesReplaceIn(ns[1..], t, r, id);
      assert ReplaceSplitIn(ns, t, r)[1..] == ReplaceSplitIn(ns[1..], t, r);
    }
  }

  lemma RemoveUndoesSplitChild(parent: Node, k: nat, newPanel: Panel, side: DropSide)
    requires WellFormed(parent) && parent.Split? && k < |parent.children| && parent.children[k].Leaf?
    requires !side.Center? && !HasId(Flatten(parent), newPanel.id)
    ensures RemovePanel(SplitChildAt(parent, k, newPanel, side), newPanel.id) == Some(Equalized(parent))
  {
    var cs, id := parent.children, newPanel.id;
    var r := SplitChildAt(parent, k, newPanel, side);
    RemoveAbsentIn(cs, id);
    if parent.direction == WantDirection(side) {
      RemoveInInsert(cs, if side.Right? || side.Bottom? then k + 1 else k, newPanel);
    } else {
      ChildCounts(cs, k, k, id);
      RemovePair(cs[k], newPanel, side);
      RemoveInUpdate(cs, k, r.children[k], id);
    }
  }

  lemma RemovePair(target: Node, newPanel: Panel, side: DropSide)
    requires target.Leaf? && target.panel.id != newPanel.id && !side.Center?
    ensures RemovePanel(MakeSplit(WantDirection(side), Pair(target, newPanel, side)), newPanel.id) == Some(target)
  {
    var at := if Before(side) then 0 else 1;
    assert Pair(target, newPanel, side) == [target][..at] + [Leaf(newPanel)] + [target][at..];
    RemoveInInsert([target], at, newPanel);
    assert RemovePanelIn([target], newPanel.id) == [target] + RemovePanelIn([], newPanel.id);
  }

  /** Removing a panel that was just inserted gives the old tree back, with every split at equal shares. */
  lemma RemoveUndoesInsert(root: Node, targetId: string, newPanel: Panel, side: DropSide)
    requires WellFormed(root) && HasId(Flatten(root), targetId) && !HasId(Flatten(root), newPanel.id)
    requires !side.Center?
    ensures RemovePanel(SplitPanelAt(Some(root), targetId, newPanel, side), newPanel.id) == Some(Equalized(root))
  {
    if root.Leaf? {
      RemovePair(root, newPanel, side);
    } else {
      FindParentMeaning(root, targetId);
      var parent := FindParentSplit(root, targetId).value;
      var k := LeafIndex(parent.children, targetId);
      OccursWellFormed(parent, root);
      OccursCount(parent, root, newPanel.id);
      RemoveUndoesSplitChild(parent, k, newPanel, side);
      RemoveUndoesReplace(root, parent, SplitChildAt(parent, k, newPanel, side), newPanel.id);
    }
  }

  // ----- replacePanelLeaf -----

  lemma {:induction false} ReplaceLeafWellFormed(n: Node, id: string, p: Panel)
    ensures WellFormed(ReplacePanelLeaf(n, id, p)) <==> WellFormed(n)
    decreases n
  {
    if n.Split? {
      ReplaceLeafInWellFormed(n.children, id, p);
    }
  }

  lemma {:induction false} ReplaceLeafInWellFormed(ns: seq<Node>, id: string, p: Panel)
    ensures WellFormedAll(ReplacePanelLeafIn(ns, id, p)) <==> WellFormedAll(ns)
    decreases ns
  {
    if ns != [] {
      ReplaceLeafWellFormed(ns[0], id, p);
      ReplaceLeafInWellFormed(ns[1..], id, p);
      assert ReplacePanelLeafIn(ns, id, p)[1..] == ReplacePanelLeafIn(ns[1..], id, p);
    }
  }

  lemma {:induction false} SubstituteConcat(a: seq<Panel>, b: seq<Panel>, id: string, with: Panel -> seq<Panel>)
    ensures Substitute(a + b, id, with) == if HasId(a, id) then Substitute(a, id, with) + b
        else a + Substitute(b, id, with)
  {
    if a == [] {
      assert a + b == b;
    } else {
      assert (a + b)[1..] == a[1..] + b;
      SubstituteConcat(a[1..], b, id, with);
      if a[0].id == id {
        assert with(a[0]) + (a[1..] + b) == with(a[0]) + a[1..] + b;
      }
    }
  }

  /** On a tree with unique ids the swap exchanges one panel in place. */
  lemma {:induction false} ReplaceLeafFlatten(n: Node, id: string, p: Panel)
    requires CountId(Flatten(n), id) <= 1
    ensures Flatten(ReplacePanelLeaf(n, id, p)) == Substitute(Flatten(n), id, Only(p))
    decreases n
  {
    if n.Split? {
      ReplaceLeafInFlatten(n.children, id, p);
    } else {
      SubstituteOne(n.panel, id, Only(p));
    }
  }

  lemma SubstituteOne(q: Panel, id: string, with: Panel -> seq<Panel>)
    ensures Substitute([q], id, with) == if q.id == id then with(q) else [q]
  {
    if q.id == id {
      SubstituteMiddle([], q, [], with);
      assert [] + [q] + [] == [q] && [] + with(q) + [] == with(q);
    } else {
      assert Substitute([q], id, with) == [q] + Substitute([], id, with);
    }
  }

  lemma {:induction false} ReplaceLeafInFlatten(ns: seq<Node>, id: string, p: Panel)
    requires CountId(FlattenAll(ns), id) <= 1
    ensures FlattenAll(ReplacePanelLeafIn(ns, id, p)) == Substitute(FlattenAll(ns), id, Only(p))
    decreases ns
  {
    if ns != [] {
      var head, rest := Flatten(ns[0]), FlattenAll(ns[1..]);
      var with := Only(p);
      CountConcat(head, rest, id);
      ReplaceLeafFlatten(ns[0], id, p);
      ReplaceLeafInFlatten(ns[1..], id, p);
      assert ReplacePanelLeafIn(ns, id, p)[1..] == ReplacePanelLeafIn(ns[1..], id, p);
      SubstituteConcat(head, rest, id, with);
      if HasId(head, id) {
        SubstituteAbsent(rest, id, with);
      } else {
        SubstituteAbsent(head, id, with);
      }
    }
  }
}
