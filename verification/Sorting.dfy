/** Stable sorting by a strict weak order, and the order of strings. */
module Sorting {

  ghost predicate StrictWeakOrder<T(!new)>(before: (T, T) -> bool) {
    && (forall x :: !before(x, x))
    && (forall x, y, z :: before(x, y) && before(y, z) ==> before(x, z))
    && (forall x, y, z :: before(x, z) ==> before(x, y) || before(y, z))
  }

  ghost predicate SortedBy<T>(before: (T, T) -> bool, xs: seq<T>) {
    forall i, j | 0 <= i < j < |xs| :: !before(xs[j], xs[i])
  }

  /** Any two positions hold comparable elements: there are no ties. */
  ghost predicate NoTies<T>(before: (T, T) -> bool, xs: seq<T>) {
    forall i, j | 0 <= i < j < |xs| :: before(xs[i], xs[j]) || before(xs[j], xs[i])
  }

  function Insert<T>(before: (T, T) -> bool, x: T, xs: seq<T>): (r: seq<T>)
    ensures multiset(r) == multiset(xs) + multiset{x}
  {
    if xs == [] || !before(xs[0], x) then [x] + xs
    else
      assert xs == [xs[0]] + xs[1..];
      [xs[0]] + Insert(before, x, xs[1..])
  }

  /** `sort.SliceStable`: a sorted permutation that keeps the order of ties. */
  function Sort<T>(before: (T, T) -> bool, xs: seq<T>): (r: seq<T>)
    ensures multiset(r) == multiset(xs) && |r| == |xs|
  {
    if xs == [] then []
    else
      assert xs == [xs[0]] + xs[1..];
      var r := Insert(before, xs[0], Sort(before, xs[1..]));
      assert |multiset(r)| == |multiset(xs)|;
      r
  }

  lemma SameElements<T>(xs: seq<T>, ys: seq<T>)
    requires multiset(xs) == multiset(ys)
    ensures forall x :: x in xs <==> x in ys
  {
    assert forall x :: x in xs <==> x in multiset(xs);
    assert forall x :: x in ys <==> x in multiset(ys);
  }

  lemma {:induction false} InsertSorted<T(!new)>(before: (T, T) -> bool, x: T, xs: seq<T>)
    requires StrictWeakOrder(before) && SortedBy(before, xs)
    ensures SortedBy(before, Insert(before, x, xs))
  {
    if xs != [] && before(xs[0], x) {
      InsertSorted(before, x, xs[1..]);
      var rest := Insert(before, x, xs[1..]);
      SameElements(rest, xs[1..] + [x]);
      forall j | 0 <= j < |rest|
        ensures !before(rest[j], xs[0])
      {
        assert rest[j] in xs[1..] + [x];
      }
    }
  }

  lemma {:induction false} SortSorts<T(!new)>(before: (T, T) -> bool, xs: seq<T>)
    requires StrictWeakOrder(before)
    ensures SortedBy(before, Sort(before, xs))
  {
    if xs != [] {
      SortSorts(before, xs[1..]);
      InsertSorted(before, xs[0], Sort(before, xs[1..]));
    }
  }

  /** The heads of two sorted arrangements agree when nothing ties. */
  lemma SameHead<T(!new)>(before: (T, T) -> bool, xs: seq<T>, ys: seq<T>)
    requires SortedBy(before, xs) && SortedBy(before, ys) && NoTies(before, xs)
    requires multiset(xs) == multiset(ys) && xs != [] && ys != []
    requires StrictWeakOrder(before)
    ensures xs[0] == ys[0]
  {
    SameElements(xs, ys);
    assert xs[0] in xs && ys[0] in ys;
    var i :| 0 <= i < |ys| && ys[i] == xs[0];
    var j :| 0 <= j < |xs| && xs[j] == ys[0];
    hide StrictWeakOrder;
  }

  lemma TailMultiset<T>(xs: seq<T>)
    requires xs != []
    ensures multiset(xs[1..]) == multiset(xs) - multiset{xs[0]}
  {
    assert xs == [xs[0]] + xs[1..];
  }

  /** Without ties there is only one sorted arrangement. */
  lemma {:induction false} SortedUnique<T(!new)>(before: (T, T) -> bool, xs: seq<T>, ys: seq<T>)
    requires StrictWeakOrder(before)
    requires SortedBy(before, xs) && SortedBy(before, ys) && NoTies(before, xs)
    requires multiset(xs) == multiset(ys)
    ensures xs == ys
  {
    hide StrictWeakOrder;
    assert |xs| == |multiset(xs)| == |multiset(ys)| == |ys|;
    if xs != [] {
      SameHead(before, xs, ys);
      TailMultiset(xs);
      TailMultiset(ys);
      SortedUnique(before, xs[1..], ys[1..]);
      assert xs == [xs[0]] + xs[1..] && ys == [ys[0]] + ys[1..];
    }
  }

  // ---- the order of strings ----

  /** Go's `<` on strings. */
  predicate Less(a: string, b: string) {
    if b == "" then false
    else if a == "" then true
    else a[0] < b[0] || (a[0] == b[0] && Less(a[1..], b[1..]))
  }

  lemma {:induction false} LessTotal(a: string, b: string)
    ensures Less(a, b) || Less(b, a) || a == b
    ensures !(Less(a, b) && Less(b, a))
    ensures !Less(a, a)
  {
    if a != "" {
      LessTotal(a[1..], a[1..]);
    }
    if a != "" && b != "" {
      LessTotal(a[1..], b[1..]);
      assert a[0] == b[0] && a[1..] == b[1..] ==> a == [a[0]] + a[1..] == b;
    }
  }

  lemma {:induction false} LessTransitive(a: string, b: string, c: string)
    requires Less(a, b) && Less(b, c)
    ensures Less(a, c)
  {
    if a != "" && a[0] == b[0] == c[0] {
      LessTransitive(a[1..], b[1..], c[1..]);
    }
  }

  lemma LessIsStrict()
    ensures StrictWeakOrder(Less)
  {
    forall a, b, c
      ensures !Less(a, a) && (Less(a, b) && Less(b, c) ==> Less(a, c)) && (Less(a, c) ==> Less(a, b) || Less(b, c))
    {
      LessTotal(a, a);
      LessTotal(a, b);
      LessTotal(b, c);
      if Less(a, b) && Less(b, c) { LessTransitive(a, b, c); }
      if Less(a, c) && Less(b, a) && !Less(b, c) { LessTransitive(b, a, c); }
    }
  }

  /** The first position at which the texts differ or one of them has ended. */
  predicate FirstDifference(a: string, b: string, k: nat) {
    && k <= |a| && k <= |b| && (forall i | 0 <= i < k :: a[i] == b[i])
    && (k < |a| && k < |b| ==> a[k] != b[k])
  }

  /** The dictionary order: where the texts part, the smaller character comes first, and a
      proper prefix comes before what it begins. */
  lemma {:induction false} LessIsDictionaryOrder(a: string, b: string) returns (k: nat)
    ensures FirstDifference(a, b, k)
    ensures Less(a, b) <==> k < |b| && (k < |a| ==> a[k] < b[k])
  {
    if a != "" && b != "" && a[0] == b[0] {
      var j := LessIsDictionaryOrder(a[1..], b[1..]);
      k := j + 1;
      assert forall i | 0 <= i < j :: a[1..][i] == a[i + 1] && b[1..][i] == b[i + 1];
      forall i | 0 <= i < k
        ensures a[i] == b[i]
      {
        if i > 0 {
          assert a[1..][i - 1] == b[1..][i - 1];
        }
      }
    } else {
      k := 0;
    }
  }
}
