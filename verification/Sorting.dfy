/** Stable sorting by a comparison, and why a sorted sequence is unique. */
module Sorting {
  import opened CodeUnits

  ghost predicate IsOrder<T(!new)>(le: (T, T) -> bool) {
    && (forall a, b :: le(a, b) || le(b, a))
    && (forall a, b, c :: le(a, b) && le(b, c) ==> le(a, c))
  }

  predicate Ordered<T>(xs: seq<T>, le: (T, T) -> bool) {
    forall i, j :: 0 <= i < j < |xs| ==> le(xs[i], xs[j])
  }

  function Insert<T>(x: T, xs: seq<T>, le: (T, T) -> bool): seq<T> {
    if xs == [] || le(x, xs[0]) then [x] + xs else [xs[0]] + Insert(x, xs[1..], le)
  }

  /** Elements that compare equal keep their order. */
  function Sort<T>(xs: seq<T>, le: (T, T) -> bool): seq<T> {
    if xs == [] then [] else Insert(xs[0], Sort(xs[1..], le), le)
  }

  lemma {:induction false} InsertKeeps<T>(x: T, xs: seq<T>, le: (T, T) -> bool)
    ensures multiset(Insert(x, xs, le)) == multiset(xs) + multiset{x}
  {
    if xs != [] && !le(x, xs[0]) {
      InsertKeeps(x, xs[1..], le);
      assert xs == [xs[0]] + xs[1..];
    }
  }

  lemma {:induction false} SortKeeps<T>(xs: seq<T>, le: (T, T) -> bool)
    ensures multiset(Sort(xs, le)) == multiset(xs) && |Sort(xs, le)| == |xs|
  {
    if xs != [] {
      SortKeeps(xs[1..], le);
      InsertKeeps(xs[0], Sort(xs[1..], le), le);
      hide Insert;
      assert xs == [xs[0]] + xs[1..];
    }
    hide Sort;
    assert |multiset(Sort(xs, le))| == |Sort(xs, le)| && |multiset(xs)| == |xs|;
  }

  lemma SortedIn<T>(xs: seq<T>, le: (T, T) -> bool, x: T)
    ensures x in Sort(xs, le) <==> x in xs
  {
    SortKeeps(xs, le);
    assert x in Sort(xs, le) <==> x in multiset(Sort(xs, le));
    assert x in xs <==> x in multiset(xs);
  }

  lemma {:induction false} InsertIsOrdered<T(!new)>(x: T, xs: seq<T>, le: (T, T) -> bool)
    requires IsOrder(le) && Ordered(xs, le)
    ensures Ordered(Insert(x, xs, le), le)
  {
    if xs != [] && !le(x, xs[0]) {
      InsertIsOrdered(x, xs[1..], le);
      InsertKeeps(x, xs[1..], le);
      var rest := Insert(x, xs[1..], le);
      forall j | 0 <= j < |rest| ensures le(xs[0], rest[j]) {
        assert rest[j] in multiset(rest);
      }
    }
  }

  lemma {:induction false} SortIsOrdered<T(!new)>(xs: seq<T>, le: (T, T) -> bool)
    requires IsOrder(le)
    ensures Ordered(Sort(xs, le), le)
  {
    if xs != [] {
      SortIsOrdered(xs[1..], le);
      InsertIsOrdered(xs[0], Sort(xs[1..], le), le);
    }
  }

  ghost predicate Separates<T(!new)>(xs: seq<T>, le: (T, T) -> bool) {
    forall a, b :: a in xs && b in xs && le(a, b) && le(b, a) ==> a == b
  }

  lemma FirstsAgree<T(!new)>(xs: seq<T>, ys: seq<T>, le: (T, T) -> bool)
    requires IsOrder(le) && Ordered(xs, le) && Ordered(ys, le) && Separates(xs, le) && multiset(xs) == multiset(ys)
    requires xs != [] && ys != []
    ensures xs[0] == ys[0]
  {
    assert xs[0] in multiset(ys) && ys[0] in multiset(xs);
    var i :| 0 <= i < |xs| && xs[i] == ys[0];
    var j :| 0 <= j < |ys| && ys[j] == xs[0];
    assert le(xs[0], xs[i]) && le(ys[0], ys[j]);
  }

  lemma TailsAgree<T>(xs: seq<T>, ys: seq<T>)
    requires multiset(xs) == multiset(ys) && xs != [] && ys != [] && xs[0] == ys[0]
    ensures multiset(xs[1..]) == multiset(ys[1..])
  {
    assert xs == [xs[0]] + xs[1..] && ys == [ys[0]] + ys[1..];
    assert multiset(xs[1..]) == multiset(xs) - multiset{xs[0]};
    assert multiset(ys[1..]) == multiset(ys) - multiset{ys[0]};
  }

  lemma TailIsOrdered<T(!new)>(xs: seq<T>, le: (T, T) -> bool)
    requires Ordered(xs, le) && Separates(xs, le) && xs != []
    ensures Ordered(xs[1..], le) && Separates(xs[1..], le)
  {
    assert forall x :: x in xs[1..] ==> x in xs;
  }

  /** Two ordered arrangements of the same elements are equal, when no two different elements compare equal. */
  lemma {:induction false} OrderedIsUnique<T(!new)>(xs: seq<T>, ys: seq<T>, le: (T, T) -> bool)
    requires IsOrder(le) && Ordered(xs, le) && Ordered(ys, le) && Separates(xs, le) && multiset(xs) == multiset(ys)
    ensures xs == ys
  {
    hide *;
    assert |xs| == |multiset(xs)| == |multiset(ys)| == |ys|;
    if xs != [] {
      FirstsAgree(xs, ys, le);
      TailsAgree(xs, ys);
      TailIsOrdered(xs, le);
      SameSeparation(xs, ys, le);
      TailIsOrdered(ys, le);
      OrderedIsUnique(xs[1..], ys[1..], le);
      assert xs == [xs[0]] + xs[1..] && ys == [ys[0]] + ys[1..];
    }
  }

  lemma SameSeparation<T(!new)>(xs: seq<T>, ys: seq<T>, le: (T, T) -> bool)
    requires Separates(xs, le) && multiset(xs) == multiset(ys)
    ensures Separates(ys, le)
  {
    assert forall y :: y in ys ==> y in multiset(ys);
  }

  // ----- elements with distinct keys

  predicate DistinctBy<T, K(==)>(xs: seq<T>, key: T -> K) {
    forall i, j :: 0 <= i < j < |xs| ==> key(xs[i]) != key(xs[j])
  }

  /** Elements with one key are one element. */
  lemma KeyFinds<T, K>(xs: seq<T>, key: T -> K, x: T, y: T)
    requires DistinctBy(xs, key) && x in xs && y in xs && key(x) == key(y)
    ensures x == y
  {
    var i :| 0 <= i < |xs| && xs[i] == x;
    var j :| 0 <= j < |xs| && xs[j] == y;
    assert i == j by { if i < j { } else if j < i { } }
  }

  /** Keys that are distinct stay distinct in any other arrangement. */
  lemma DistinctByKeeps<T, K>(xs: seq<T>, ys: seq<T>, key: T -> K)
    requires DistinctBy(xs, key) && multiset(xs) == multiset(ys)
    ensures DistinctBy(ys, key)
  {
    forall i, j | 0 <= i < j < |ys| ensures key(ys[i]) != key(ys[j]) {
      if key(ys[i]) == key(ys[j]) {
        assert ys[i] in multiset(xs) && ys[j] in multiset(xs);
        KeyFinds(xs, key, ys[i], ys[j]);
        Twice(ys, i, j);
        Once(xs, key, ys[i]);
      }
    }
  }

  lemma Twice<T>(xs: seq<T>, i: nat, j: nat)
    requires i < j < |xs| && xs[i] == xs[j]
    ensures multiset(xs)[xs[i]] >= 2
  {
    assert xs == xs[..j] + xs[j..];
    assert xs[..j][i] == xs[i] && xs[j..][0] == xs[i];
  }

  lemma {:induction false} Once<T, K>(xs: seq<T>, key: T -> K, x: T)
    requires DistinctBy(xs, key)
    ensures multiset(xs)[x] <= 1
  {
    if xs != [] {
      assert xs == [xs[0]] + xs[1..];
      Once(xs[1..], key, x);
    }
  }

  /** Sorting in the order of code units, by keys that are distinct, makes the keys strictly increasing. */
  lemma SortedKeysIncrease<T(!new)>(xs: seq<T>, key: T -> Text)
    requires DistinctBy(xs, key)
    ensures Increasing(KeysOf(Sort(xs, OnKeys(key)), key))
  {
    var sorted := Sort(xs, OnKeys(key));
    OnKeysIsOrder(key);
    SortIsOrdered(xs, OnKeys(key));
    SortKeeps(xs, OnKeys(key));
    DistinctByKeeps(xs, sorted, key);
    forall i, j | 0 <= i < j < |sorted|
      ensures AtMost(key(sorted[i]), key(sorted[j])) && key(sorted[i]) != key(sorted[j])
    {
      assert OnKeys(key)(sorted[i], sorted[j]);
    }
  }

  function OnKeys<T>(key: T -> Text): (T, T) -> bool {
    (a: T, b: T) => AtMost(key(a), key(b))
  }

  function KeysOf<T>(xs: seq<T>, key: T -> Text): seq<Text> {
    seq(|xs|, i requires 0 <= i < |xs| => key(xs[i]))
  }

  lemma OnKeysIsOrder<T(!new)>(key: T -> Text)
    ensures IsOrder(OnKeys(key))
  {
    forall a: T, b: T ensures OnKeys(key)(a, b) || OnKeys(key)(b, a) { AtMostIsTotal(key(a), key(b)); }
    forall a: T, b: T, c: T | OnKeys(key)(a, b) && OnKeys(key)(b, c) ensures OnKeys(key)(a, c) {
      AtMostIsTransitive(key(a), key(b), key(c));
    }
  }

  /** With distinct keys, sorting gives one result for every arrangement. */
  lemma SortForgetsOrder<T(!new)>(xs: seq<T>, ys: seq<T>, key: T -> Text)
    requires DistinctBy(xs, key) && multiset(xs) == multiset(ys)
    ensures Sort(xs, OnKeys(key)) == Sort(ys, OnKeys(key))
  {
    var le := OnKeys(key);
    OnKeysIsOrder(key);
    SortKeeps(xs, le);
    SortKeeps(ys, le);
    SortIsOrdered(xs, le);
    SortIsOrdered(ys, le);
    var sorted := Sort(xs, le);
    DistinctByKeeps(xs, sorted, key);
    forall a, b | a in sorted && b in sorted && le(a, b) && le(b, a) ensures a == b {
      AtMostIsAntisymmetric(key(a), key(b));
      KeyFinds(sorted, key, a, b);
    }
    OrderedIsUnique(sorted, Sort(ys, le), le);
  }
}
