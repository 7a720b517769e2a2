/** The stable sort of the runtime, as a function of the list and the strict order "comes before". */
module StableSort {

  /** Before the first element that does not come before x. */
  function Insert<T>(x: T, ys: seq<T>, before: (T, T) -> bool): seq<T> {
    if ys == [] || !before(ys[0], x) then [x] + ys else [ys[0]] + Insert(x, ys[1..], before)
  }

  function Sort<T>(xs: seq<T>, before: (T, T) -> bool): (r: seq<T>) {
    if xs == [] then [] else Insert(xs[0], Sort(xs[1..], before), before)
  }

  /** Asymmetric, and "does not come before" is transitive. */
  ghost predicate StrictWeak<T(!new)>(before: (T, T) -> bool) {
    && (forall a, b :: before(a, b) ==> !before(b, a))
    && (forall a, b, c :: !before(b, a) && !before(c, b) ==> !before(c, a))
  }

  ghost predicate Sorted<T>(xs: seq<T>, before: (T, T) -> bool) {
    forall i, j :: 0 <= i < j < |xs| ==> !before(xs[j], xs[i])
  }

  /** The sum of a measure over a list. */
  function Total<T>(xs: seq<T>, f: T -> nat): nat {
    if xs == [] then 0 else f(xs[0]) + Total(xs[1..], f)
  }

  lemma {:induction false} InsertTotal<T>(x: T, ys: seq<T>, before: (T, T) -> bool, f: T -> nat)
    ensures Total(Insert(x, ys, before), f) == f(x) + Total(ys, f)
    ensures |Insert(x, ys, before)| == |ys| + 1
    ensures forall y :: y in Insert(x, ys, before) <==> y == x || y in ys
  {
    if ys == [] || !before(ys[0], x) {
      assert ([x] + ys)[1..] == ys;
    } else {
      InsertTotal(x, ys[1..], before, f);
      assert ([ys[0]] + Insert(x, ys[1..], before))[1..] == Insert(x, ys[1..], before);
    }
  }

  /** Sorting changes no total over the list, and no membership. */
  lemma {:induction false} SortTotal<T>(xs: seq<T>, before: (T, T) -> bool, f: T -> nat)
    ensures Total(Sort(xs, before), f) == Total(xs, f)
    ensures |Sort(xs, before)| == |xs|
    ensures forall y :: y in Sort(xs, before) <==> y in xs
  {
    if xs != [] {
      SortTotal(xs[1..], before, f);
      InsertTotal(xs[0], Sort(xs[1..], before), before, f);
    }
  }

  lemma {:induction false} InsertSorted<T(!new)>(x: T, ys: seq<T>, before: (T, T) -> bool)
    requires StrictWeak(before) && Sorted(ys, before)
    ensures Sorted(Insert(x, ys, before), before)
  {
    if ys != [] && before(ys[0], x) {
      assert Sorted(ys[1..], before);
      InsertSorted(x, ys[1..], before);
      var rest := Insert(x, ys[1..], before);
      InsertTotal(x, ys[1..], before, (y: T) => 0);
      forall j | 0 <= j < |rest| ensures !before(rest[j], ys[0]) {
        assert rest[j] in rest;
        if rest[j] != x {
          var k :| 0 <= k < |ys[1..]| && ys[1..][k] == rest[j];
          assert ys[k + 1] == rest[j];
        }
      }
    } else if ys != [] {
      forall j | 0 <= j < |ys| ensures !before(ys[j], x) {
        assert !before(ys[0], x) && (j > 0 ==> !before(ys[j], ys[0]));
      }
    }
  }

  lemma {:induction false} SortSorted<T(!new)>(xs: seq<T>, before: (T, T) -> bool)
    requires StrictWeak(before)
    ensures Sorted(Sort(xs, before), before)
  {
    if xs != [] {
      SortSorted(xs[1..], before);
      InsertSorted(xs[0], Sort(xs[1..], before), before);
    }
  }

  /** An element that counts is somewhere. */
  lemma {:induction false} TotalAt<T>(xs: seq<T>, f: T -> nat, i: nat)
    requires i < |xs|
    ensures Total(xs, f) >= f(xs[i])
  {
    if i > 0 {
      TotalAt(xs[1..], f, i - 1);
    }
  }

  lemma {:induction false} TotalTwice<T>(xs: seq<T>, f: T -> nat, i: nat, j: nat)
    requires i < j < |xs|
    ensures Total(xs, f) >= f(xs[i]) + f(xs[j])
  {
    if i > 0 {
      TotalTwice(xs[1..], f, i - 1, j - 1);
    } else {
      TotalAt(xs[1..], f, j - 1);
    }
  }

  lemma {:induction false} TotalZero<T>(xs: seq<T>, f: T -> nat)
    requires forall i :: 0 <= i < |xs| ==> f(xs[i]) == 0
    ensures Total(xs, f) == 0
  {
    if xs != [] {
      TotalZero(xs[1..], f);
    }
  }

  /** Only one place counts. */
  lemma {:induction false} TotalOne<T>(xs: seq<T>, f: T -> nat, i: nat)
    requires i < |xs| && forall j :: 0 <= j < |xs| && j != i ==> f(xs[j]) == 0
    ensures Total(xs, f) == f(xs[i])
  {
    if i > 0 {
      assert f(xs[0]) == 0;
      TotalOne(xs[1..], f, i - 1);
    } else {
      TotalZero(xs[1..], f);
    }
  }

  lemma {:induction false} TotalConcat<T>(a: seq<T>, b: seq<T>, f: T -> nat)
    ensures Total(a + b, f) == Total(a, f) + Total(b, f)
  {
    if a == [] {
      assert a + b == b;
    } else {
      assert (a + b)[1..] == a[1..] + b;
      TotalConcat(a[1..], b, f);
    }
  }

  /** A positive total comes from somewhere. */
  lemma {:induction false} TotalSource<T>(xs: seq<T>, f: T -> nat) returns (i: nat)
    requires Total(xs, f) > 0
    ensures i < |xs| && f(xs[i]) > 0
  {
    if f(xs[0]) > 0 {
      i := 0;
    } else {
      var k := TotalSource(xs[1..], f);
      i := k + 1;
    }
  }

  /** Neither comes before the other. */
  predicate Tied<T>(a: T, b: T, before: (T, T) -> bool) {
    !before(a, b) && !before(b, a)
  }

  /** The elements that tie with x, in order. */
  function TiedWith<T>(xs: seq<T>, x: T, before: (T, T) -> bool): seq<T> {
    if xs == [] then [] else (if Tied(xs[0], x, before) then [xs[0]] else []) + TiedWith(xs[1..], x, before)
  }

  lemma {:induction false} InsertKeepsTies<T(!new)>(y: T, ys: seq<T>, x: T, before: (T, T) -> bool)
    requires StrictWeak(before)
    ensures TiedWith(Insert(y, ys, before), x, before) == TiedWith([y] + ys, x, before)
  {
    if ys != [] && before(ys[0], y) {
      InsertKeepsTies(y, ys[1..], x, before);
      var rest := Insert(y, ys[1..], before);
      assert ([ys[0]] + rest)[1..] == rest && ([y] + ys)[1..] == ys && ([y] + ys[1..])[1..] == ys[1..];
      assert !Tied(ys[0], x, before) || !Tied(y, x, before);
    }
  }

  /** The sort is stable: elements that tie keep their order. */
  lemma {:induction false} SortStable<T(!new)>(xs: seq<T>, x: T, before: (T, T) -> bool)
    requires StrictWeak(before)
    ensures TiedWith(Sort(xs, before), x, before) == TiedWith(xs, x, before)
  {
    if xs != [] {
      SortStable(xs[1..], x, before);
      var rest := Sort(xs[1..], before);
      InsertKeepsTies(xs[0], rest, x, before);
      assert ([xs[0]] + rest)[1..] == rest;
    }
  }
}
