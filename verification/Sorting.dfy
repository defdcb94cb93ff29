/** The stable sort behind `sort_by_key`, on sequences of (key, item). */
module Sorting {
  function Insert<T>(x: (nat, T), xs: seq<(nat, T)>): (r: seq<(nat, T)>)
    ensures |r| == |xs| + 1
    ensures r[0] == x || (xs != [] && r[0] == xs[0])
  {
    if xs == [] || x.0 <= xs[0].0 then [x] + xs else [xs[0]] + Insert(x, xs[1..])
  }

  function Sort<T>(xs: seq<(nat, T)>): (r: seq<(nat, T)>)
    ensures |r| == |xs|
  {
    if xs == [] then [] else Insert(xs[0], Sort(xs[1..]))
  }

  predicate Sorted<T>(xs: seq<(nat, T)>) {
    forall i :: 0 <= i < |xs| - 1 ==> xs[i].0 <= xs[i + 1].0
  }

  predicate StrictlySorted<T>(xs: seq<(nat, T)>) {
    forall i :: 0 <= i < |xs| - 1 ==> xs[i].0 < xs[i + 1].0
  }

  lemma {:induction false} InsertSorted<T>(x: (nat, T), xs: seq<(nat, T)>)
    requires Sorted(xs)
    ensures Sorted(Insert(x, xs))
  {
    if xs != [] && x.0 > xs[0].0 {
      InsertSorted(x, xs[1..]);
    }
  }

  lemma {:induction false} InsertMultiset<T>(x: (nat, T), xs: seq<(nat, T)>)
    ensures multiset(Insert(x, xs)) == multiset{x} + multiset(xs)
  {
    if xs != [] && x.0 > xs[0].0 {
      InsertMultiset(x, xs[1..]);
      assert xs == [xs[0]] + xs[1..];
    }
  }

  lemma {:induction false} SortSorts<T>(xs: seq<(nat, T)>)
    ensures Sorted(Sort(xs)) && multiset(Sort(xs)) == multiset(xs)
  {
    if xs != [] {
      SortSorts(xs[1..]);
      InsertSorted(xs[0], Sort(xs[1..]));
      InsertMultiset(xs[0], Sort(xs[1..]));
      assert xs == [xs[0]] + xs[1..];
    }
  }

  lemma {:induction false} HeadLeast<T>(xs: seq<(nat, T)>, i: nat)
    requires Sorted(xs) && i < |xs|
    ensures xs[0].0 <= xs[i].0
    ensures StrictlySorted(xs) && i > 0 ==> xs[0].0 < xs[i].0
  {
    if i > 0 {
      HeadLeast(xs, i - 1);
    }
  }

  lemma HeadOfPermutation<T>(a: seq<(nat, T)>, b: seq<(nat, T)>)
    requires multiset(a) == multiset(b) && a != [] && b != []
    requires Sorted(a) && StrictlySorted(b)
    ensures a[0] == b[0]
  {
    assert a[0] in multiset(b) && b[0] in multiset(a);
    var i :| 0 <= i < |b| && b[i] == a[0];
    var j :| 0 <= j < |a| && a[j] == b[0];
    HeadLeast(a, j);
    HeadLeast(b, i);
  }

  /** A strictly sorted sequence is the only sorted permutation of itself. */
  lemma {:induction false} SortedUnique<T>(a: seq<(nat, T)>, b: seq<(nat, T)>)
    requires multiset(a) == multiset(b) && Sorted(a) && StrictlySorted(b)
    ensures a == b
  {
    assert |a| == |multiset(a)| == |multiset(b)| == |b|;
    if a != [] {
      HeadOfPermutation(a, b);
      TailMultiset(a);
      TailMultiset(b);
      SortedUnique(a[1..], b[1..]);
      assert a == [a[0]] + a[1..] && b == [b[0]] + b[1..];
    }
  }

  lemma TailMultiset<T>(a: seq<(nat, T)>)
    requires a != []
    ensures multiset(a[1..]) == multiset(a) - multiset{a[0]}
  {
    assert a == [a[0]] + a[1..];
  }

  /** Sorting any permutation of a strictly sorted sequence gives that sequence. */
  lemma SortOfPermutation<T>(a: seq<(nat, T)>, b: seq<(nat, T)>)
    requires multiset(a) == multiset(b) && StrictlySorted(b)
    ensures Sort(a) == b
  {
    SortSorts(a);
    SortedUnique(Sort(a), b);
  }
}
