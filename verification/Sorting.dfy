/** In-place sorting by a caller's `less`, as Go's sort.Slice, sort.SliceStable, sort.Strings and
    slices.SortFunc promise it, and what a sorted permutation determines. */
module Sorting {

  /** The caller's side of the bargain: on these elements `less` is a strict weak order. */
  ghost predicate StrictWeakOn<T>(less: (T, T) -> bool, xs: seq<T>) {
    && (forall x, y :: x in xs && y in xs && less(x, y) ==> !less(y, x))
    && (forall x, y, z :: x in xs && y in xs && z in xs && !less(y, x) && !less(z, y) ==> !less(z, x))
  }

  /** `less` also separates any two different elements. */
  ghost predicate StrictTotalOn<T>(less: (T, T) -> bool, xs: seq<T>) {
    && StrictWeakOn(less, xs)
    && (forall x, y :: x in xs && y in xs && !less(x, y) && !less(y, x) ==> x == y)
  }

  /** No later element is less than an earlier one. */
  ghost predicate Sorted<T>(less: (T, T) -> bool, xs: seq<T>) {
    forall i, j :: 0 <= i < j < |xs| ==> !less(xs[j], xs[i])
  }

  ghost predicate Distinct<T>(xs: seq<T>) {
    forall i, j :: 0 <= i < j < |xs| ==> xs[i] != xs[j]
  }

  ghost predicate SortedButFor<T>(less: (T, T) -> bool, xs: seq<T>, hi: nat, j: nat)
    requires hi <= |xs|
  {
    forall p, q :: 0 <= p < q < hi && q != j ==> !less(xs[q], xs[p])
  }

  /** Insertion sort: the order of elements that compare equal is not part of the contract. */
  method Sort<T>(a: array<T>, less: (T, T) -> bool)
    modifies a
    ensures multiset(a[..]) == old(multiset(a[..]))
    ensures StrictWeakOn(less, old(a[..])) ==> Sorted(less, a[..])
  {
    ghost var xs := a[..];
    var i := 1;
    while i < a.Length
      invariant multiset(a[..]) == multiset(xs)
      invariant 0 < i
      invariant i <= a.Length || a.Length == 0
      invariant StrictWeakOn(less, xs) && i <= a.Length ==> SortedButFor(less, a[..], i, i)
    {
      var j := i;
      while 0 < j && less(a[j], a[j - 1])
        invariant 0 <= j <= i < a.Length
        invariant multiset(a[..]) == multiset(xs)
        invariant StrictWeakOn(less, xs) ==> SortedButFor(less, a[..], i + 1, j)
      {
        ghost var before := a[..];
        a[j - 1], a[j] := a[j], a[j - 1];
        assert a[..] == before[j - 1 := before[j]][j := before[j - 1]];
        if StrictWeakOn(less, xs) {
          SwapKeepsOrder(less, xs, before, i + 1, j);
        }
        j := j - 1;
      }
      if StrictWeakOn(less, xs) {
        StopMeansSorted(less, xs, a[..], i + 1, j);
      }
      i := i + 1;
    }
  }

  lemma SwapKeepsOrder<T>(less: (T, T) -> bool, xs: seq<T>, s: seq<T>, hi: nat, j: nat)
    requires StrictWeakOn(less, xs) && multiset(s) == multiset(xs)
    requires 0 < j < hi <= |s| && SortedButFor(less, s, hi, j) && less(s[j], s[j - 1])
    ensures SortedButFor(less, s[j - 1 := s[j]][j := s[j - 1]], hi, j - 1)
  {
    SameMembers(s, xs);
  }

  lemma StopMeansSorted<T>(less: (T, T) -> bool, xs: seq<T>, s: seq<T>, hi: nat, j: nat)
    requires StrictWeakOn(less, xs) && multiset(s) == multiset(xs)
    requires j < hi <= |s| && SortedButFor(less, s, hi, j) && (j > 0 ==> !less(s[j], s[j - 1]))
    ensures SortedButFor(less, s, hi, hi)
  {
    SameMembers(s, xs);
    forall p | 0 <= p < j ensures !less(s[j], s[p]) {
      if p < j - 1 {
        assert !less(s[j - 1], s[p]);
      }
    }
  }

  lemma SameMembers<T>(s: seq<T>, xs: seq<T>)
    requires multiset(s) == multiset(xs)
    ensures forall x :: x in s <==> x in xs
    ensures |s| == |xs|
  {
    forall x ensures x in s <==> x in xs {
      assert x in s <==> x in multiset(s);
      assert x in xs <==> x in multiset(xs);
    }
    assert |multiset(s)| == |s| && |multiset(xs)| == |xs|;
  }

  /** `x` put into a sorted list of elements of `xs`. */
  lemma {:induction false} InsertSorted<T>(less: (T, T) -> bool, xs: seq<T>, x: T, s: seq<T>) returns (t: seq<T>)
    requires StrictWeakOn(less, xs) && x in xs && (forall y :: y in s ==> y in xs) && Sorted(less, s)
    ensures Sorted(less, t) && multiset(t) == multiset(s) + multiset{x}
    decreases |s|
  {
    hide Sorted;
    if s == [] || !less(s[0], x) {
      assert Sorted(less, [x] + s) by { ConsSorted(less, xs, x, s); }
      t := [x] + s;
    } else {
      var rest := s[1..];
      SortedTail(less, s);
      var tail := InsertSorted(less, xs, x, rest);
      assert s == [s[0]] + rest;
      HeadStaysFirst(less, xs, x, s, tail);
      t := [s[0]] + tail;
    }
  }

  lemma ConsSorted<T>(less: (T, T) -> bool, xs: seq<T>, x: T, s: seq<T>)
    requires StrictWeakOn(less, xs) && x in xs && (forall y :: y in s ==> y in xs) && Sorted(less, s)
    requires s == [] || !less(s[0], x)
    ensures Sorted(less, [x] + s)
  {
    forall j | 0 <= j < |s| ensures !less(s[j], x) {
      assert s[j] in s && s[0] in s;
      if j > 0 {
        assert !less(s[j], s[0]);
      }
    }
  }

  lemma HeadStaysFirst<T>(less: (T, T) -> bool, xs: seq<T>, x: T, s: seq<T>, tail: seq<T>)
    requires StrictWeakOn(less, xs) && x in xs && (forall y :: y in s ==> y in xs) && Sorted(less, s)
    requires s != [] && less(s[0], x) && Sorted(less, tail) && multiset(tail) == multiset(s[1..]) + multiset{x}
    ensures Sorted(less, [s[0]] + tail)
  {
    assert s[0] in s;
    forall j | 0 <= j < |tail| ensures !less(tail[j], s[0]) {
      assert tail[j] in multiset(tail);
      if tail[j] != x {
        assert tail[j] in s[1..];
        var k :| 0 <= k < |s[1..]| && s[1..][k] == tail[j];
        assert !less(s[k + 1], s[0]);
      }
    }
  }

  /** There is always a sorted permutation. */
  lemma {:induction false} SortedPermutation<T>(less: (T, T) -> bool, xs: seq<T>) returns (s: seq<T>)
    requires StrictWeakOn(less, xs)
    ensures multiset(s) == multiset(xs) && Sorted(less, s)
    decreases |xs|
  {
    hide Sorted, StrictWeakOn;
    if xs == [] {
      s := [];
      assert Sorted(less, s) by { NothingSorted(less); }
    } else {
      WeakOnTail(less, xs);
      var rest := SortedPermutation(less, xs[1..]);
      SameMembers(rest, xs[1..]);
      s := InsertSorted(less, xs, xs[0], rest);
      assert xs == [xs[0]] + xs[1..];
    }
  }

  lemma NothingSorted<T>(less: (T, T) -> bool)
    ensures Sorted(less, [])
  {
  }

  lemma WeakOnTail<T>(less: (T, T) -> bool, xs: seq<T>)
    requires StrictWeakOn(less, xs) && xs != []
    ensures StrictWeakOn(less, xs[1..])
  {
  }

  /** Two elements exchanged: a permutation. */
  lemma Exchanged<T>(s: seq<T>, i: nat, j: nat)
    requires i < j < |s|
    ensures multiset(s[i := s[j]][j := s[i]]) == multiset(s)
  {
  }

  /** Removing one copy of an element from each of two permutations leaves permutations. */
  lemma RemoveOne<T>(a: seq<T>, b: seq<T>, k: nat)
    requires multiset(a) == multiset(b) && a != [] && k < |b| && b[k] == a[0]
    ensures multiset(a[1..]) == multiset(b[..k] + b[k + 1..])
  {
    assert a == [a[0]] + a[1..];
    assert b == b[..k] + [b[k]] + b[k + 1..];
    assert multiset(a) == multiset{a[0]} + multiset(a[1..]);
    assert multiset(b) == multiset(b[..k]) + multiset{b[k]} + multiset(b[k + 1..]);
    var rest := multiset(b[..k]) + multiset(b[k + 1..]);
    assert multiset(b) == multiset{b[k]} + rest;
    assert multiset(a[1..]) == multiset(a) - multiset{a[0]} == rest;
  }

  lemma SameHead<T>(less: (T, T) -> bool, a: seq<T>, b: seq<T>)
    requires StrictTotalOn(less, a)
    requires multiset(a) == multiset(b) && Sorted(less, a) && Sorted(less, b) && a != []
    ensures b != [] && a[0] == b[0]
  {
    SameMembers(a, b);
    assert a[0] in b && b[0] in a;
    var i :| 0 <= i < |b| && b[i] == a[0];
    var j :| 0 <= j < |a| && a[j] == b[0];
    if i > 0 && j > 0 {
      assert !less(b[i], b[0]) && !less(a[j], a[0]);
    }
  }

  lemma TotalOnTail<T>(less: (T, T) -> bool, a: seq<T>)
    requires StrictTotalOn(less, a) && a != []
    ensures StrictTotalOn(less, a[1..])
  {
  }

  lemma SortedTail<T>(less: (T, T) -> bool, a: seq<T>)
    requires Sorted(less, a) && a != []
    ensures Sorted(less, a[1..])
  {
  }

  /** A total order leaves one sorted permutation only. */
  lemma {:induction false} SortedUnique<T>(less: (T, T) -> bool, a: seq<T>, b: seq<T>)
    requires StrictTotalOn(less, a)
    requires multiset(a) == multiset(b) && Sorted(less, a) && Sorted(less, b)
    ensures a == b
    decreases |a|
  {
    hide StrictTotalOn, Sorted;
    if a == [] {
      SameMembers(a, b);
    } else {
      SameHead(less, a, b);
      RemoveOne(a, b, 0);
      assert b[..0] + b[0 + 1..] == b[1..];
      TotalOnTail(less, a);
      SortedTail(less, a);
      SortedTail(less, b);
      SortedUnique(less, a[1..], b[1..]);
      assert a == [a[0]] + a[1..] && b == [b[0]] + b[1..];
    }
  }

  /** Two duplicate-free lists of the same elements are permutations of each other. */
  lemma {:induction false} DistinctPermutation<T>(a: seq<T>, b: seq<T>)
    requires Distinct(a) && Distinct(b) && forall x :: x in a <==> x in b
    ensures multiset(a) == multiset(b)
  {
    forall x ensures multiset(a)[x] == multiset(b)[x] {
      DistinctCount(a, x);
      DistinctCount(b, x);
    }
  }

  lemma {:induction false} DistinctCount<T>(a: seq<T>, x: T)
    requires Distinct(a)
    ensures multiset(a)[x] == if x in a then 1 else 0
  {
    if a != [] {
      assert a == [a[0]] + a[1..];
      DistinctCount(a[1..], x);
    }
  }

  /** Two indices with equal elements count twice. */
  lemma CountTwo<T>(s: seq<T>, i: nat, j: nat)
    requires i < j < |s| && s[i] == s[j]
    ensures multiset(s)[s[i]] >= 2
  {
    assert s == s[..i] + [s[i]] + s[i + 1..j] + [s[j]] + s[j + 1..];
    assert multiset(s) == multiset(s[..i]) + multiset{s[i]} + multiset(s[i + 1..j]) + multiset{s[j]}
                          + multiset(s[j + 1..]);
  }

  function Map<A, B>(f: A -> B, xs: seq<A>): (r: seq<B>)
    ensures |r| == |xs| && forall i :: 0 <= i < |xs| ==> r[i] == f(xs[i])
  {
    seq(|xs|, i requires 0 <= i < |xs| => f(xs[i]))
  }

  lemma {:induction false} MapConcat<A, B>(f: A -> B, a: seq<A>, b: seq<A>)
    ensures Map(f, a + b) == Map(f, a) + Map(f, b)
  {
  }

  /** Mapping the elements of a permutation gives a permutation. */
  lemma {:induction false} MapPermutation<A, B>(f: A -> B, a: seq<A>, b: seq<A>)
    requires multiset(a) == multiset(b)
    ensures multiset(Map(f, a)) == multiset(Map(f, b))
    decreases |a|
  {
    SameMembers(a, b);
    if a == [] {
      assert Map(f, a) == Map(f, b);
    } else {
      assert a[0] in b;
      var k :| 0 <= k < |b| && b[k] == a[0];
      RemoveOne(a, b, k);
      MapPermutation(f, a[1..], b[..k] + b[k + 1..]);
      assert Map(f, a) == [f(a[0])] + Map(f, a[1..]);
      MapConcat(f, b[..k], b[k + 1..]);
      assert Map(f, b) == Map(f, b[..k]) + [f(b[k])] + Map(f, b[k + 1..]);
    }
  }
}
