/** Lists ordered by a strict order, and insertion sort into that order. */
module Sorting {

  ghost predicate StrictOrder<T(!new)>(less: (T, T) -> bool) {
    && (forall x :: !less(x, x))
    && (forall x, y, z :: less(x, y) && less(y, z) ==> less(x, z))
  }

  ghost predicate Increasing<T>(s: seq<T>, less: (T, T) -> bool) {
    forall i, j :: 0 <= i < j < |s| ==> less(s[i], s[j])
  }

  /** Any two different elements are ordered. */
  ghost predicate Comparable<T>(s: set<T>, less: (T, T) -> bool) {
    forall x, y :: x in s && y in s && x != y ==> less(x, y) || less(y, x)
  }

  ghost function Elements<T>(s: seq<T>): set<T> {
    set x | x in s
  }

  ghost predicate Distinct<T>(s: seq<T>) {
    forall i, j :: 0 <= i < j < |s| ==> s[i] != s[j]
  }

  lemma TailIncreases<T(!new)>(a: seq<T>, less: (T, T) -> bool)
    requires StrictOrder(less) && Increasing(a, less) && a != []
    ensures Increasing(a[1..], less) && a[0] !in a[1..]
    ensures forall x :: x in a <==> x == a[0] || x in a[1..]
    ensures forall x :: x in a[1..] ==> less(a[0], x)
  {
    assert a == [a[0]] + a[1..];
    forall i | 0 <= i < |a[1..]|
      ensures less(a[0], a[1..][i])
    {
      assert a[1..][i] == a[i + 1];
    }
  }

  lemma NoMemberMeansEmpty<T>(a: seq<T>)
    ensures a == [] <==> forall x :: x !in a
  {
    if a != [] {
      assert a[0] in a;
    }
  }

  /** An increasing list is determined by its elements. */
  lemma {:induction false} IncreasingDetermines<T(!new)>(a: seq<T>, b: seq<T>, less: (T, T) -> bool)
    requires StrictOrder(less) && Increasing(a, less) && Increasing(b, less)
    requires forall x :: x in a <==> x in b
    ensures a == b
    decreases |a|
  {
    NoMemberMeansEmpty(a);
    NoMemberMeansEmpty(b);
    if a != [] {
      TailIncreases(a, less);
      TailIncreases(b, less);
      assert a[0] in b && b[0] in a;
      IncreasingDetermines(a[1..], b[1..], less);
    }
  }

  lemma SizeOneExactly<T>(s: seq<T>, x: T)
    requires forall i, j :: 0 <= i < j < |s| ==> s[i] != s[j]
    ensures |s| == 1 && s[0] == x <==> x in s && forall y :: y in s ==> y == x
  {
    assert |s| > 1 ==> s[0] in s && s[1] in s;
    assert x in s ==> |s| > 0;
  }

  // ---- insertion sort ----

  function Insert<T>(x: T, s: seq<T>, less: (T, T) -> bool): seq<T> {
    if s == [] || less(x, s[0]) then [x] + s else [s[0]] + Insert(x, s[1..], less)
  }

  function Sort<T>(s: seq<T>, less: (T, T) -> bool): seq<T> {
    if s == [] then [] else Insert(s[0], Sort(s[1..], less), less)
  }

  lemma {:induction false} InsertPermutes<T>(x: T, s: seq<T>, less: (T, T) -> bool)
    ensures multiset(Insert(x, s, less)) == multiset{x} + multiset(s)
  {
    if s != [] && !less(x, s[0]) {
      InsertPermutes(x, s[1..], less);
      assert s == [s[0]] + s[1..];
    }
  }

  lemma {:induction false} SortPermutes<T>(s: seq<T>, less: (T, T) -> bool)
    ensures multiset(Sort(s, less)) == multiset(s)
    ensures |Sort(s, less)| == |s|
    ensures forall x :: x in Sort(s, less) <==> x in s
  {
    if s != [] {
      SortPermutes(s[1..], less);
      InsertPermutes(s[0], Sort(s[1..], less), less);
      assert s == [s[0]] + s[1..];
    }
    assert forall x :: x in multiset(s) <==> x in s;
    assert forall x :: x in multiset(Sort(s, less)) <==> x in Sort(s, less);
    assert |multiset(Sort(s, less))| == |Sort(s, less)|;
  }

  lemma {:induction false} InsertIncreases<T(!new)>(x: T, s: seq<T>, less: (T, T) -> bool)
    requires StrictOrder(less) && Increasing(s, less)
    requires forall y :: y in s ==> less(x, y) || less(y, x)
    ensures Increasing(Insert(x, s, less), less)
    ensures forall y :: y in Insert(x, s, less) <==> y == x || y in s
  {
    if s == [] {
    } else if less(x, s[0]) {
      TailIncreases(s, less);
      assert forall y :: y in s ==> less(x, y);
    } else {
      TailIncreases(s, less);
      assert s[0] in s;
      InsertIncreases(x, s[1..], less);
      assert forall y :: y in Insert(x, s[1..], less) ==> less(s[0], y);
    }
  }

  /** Sorting distinct, pairwise comparable elements gives their increasing list. */
  lemma {:induction false} SortIncreases<T(!new)>(s: seq<T>, less: (T, T) -> bool)
    requires StrictOrder(less) && Distinct(s) && Comparable(Elements(s), less)
    ensures Increasing(Sort(s, less), less)
    ensures forall x :: x in Sort(s, less) <==> x in s
  {
    if s != [] {
      var tail := s[1..];
      assert s == [s[0]] + tail;
      assert forall i :: 0 <= i < |tail| ==> tail[i] == s[i + 1];
      assert Distinct(tail);
      assert forall x :: x in tail ==> x in Elements(s);
      SortIncreases(tail, less);
      assert forall y :: y in tail ==> y != s[0];
      assert s[0] in Elements(s);
      InsertIncreases(s[0], Sort(tail, less), less);
    }
  }

  // ---- prefixes ----

  /** The first `n` elements, or all when there are fewer. */
  function Take<T>(s: seq<T>, n: nat): seq<T> {
    if |s| <= n then s else s[..n]
  }

  /** Taking from position `n` on: a full take stops at its last element, a short one at the end. */
  lemma TakeNext<T>(all: seq<T>, n: nat, take: nat)
    requires n <= |all| && take >= 1
    ensures var chunk := Take(all[n..], take);
            && n + |chunk| <= |all|
            && all[..n] + chunk == all[..n + |chunk|]
            && (|chunk| < take ==> n + |chunk| == |all|)
            && (|chunk| >= take ==>
                  |chunk| == take && chunk[take - 1] == all[n + take - 1] && all[n..][take..] == all[n + take..])
  {
  }

  lemma IncreasingIsDistinct<T(!new)>(s: seq<T>, less: (T, T) -> bool)
    requires StrictOrder(less) && Increasing(s, less)
    ensures Distinct(s)
  {
  }

  /** The elements of an increasing list that precede one of its elements. */
  ghost function Below<T>(s: set<T>, x: T, less: (T, T) -> bool): set<T> {
    set y | y in s && less(y, x)
  }

  lemma {:induction false} PrefixHasItsSize<T>(s: seq<T>, n: nat)
    requires Distinct(s) && n <= |s|
    ensures |Elements(s[..n])| == n
  {
    if n == 0 {
      assert Elements(s[..n]) == {};
    } else {
      PrefixHasItsSize(s, n - 1);
      assert s[..n] == s[..n - 1] + [s[n - 1]];
      assert Elements(s[..n]) == Elements(s[..n - 1]) + {s[n - 1]};
      assert s[n - 1] !in s[..n - 1];
    }
  }

  /** An element's index in an increasing list is the number of elements below it. */
  lemma IndexIsRank<T(!new)>(s: seq<T>, i: nat, less: (T, T) -> bool)
    requires StrictOrder(less) && Increasing(s, less) && i < |s|
    ensures |Below(Elements(s), s[i], less)| == i
  {
    IncreasingIsDistinct(s, less);
    PrefixHasItsSize(s, i);
    forall y
      ensures y in Below(Elements(s), s[i], less) <==> y in s[..i]
    {
      if y in Below(Elements(s), s[i], less) {
        var k :| 0 <= k < |s| && s[k] == y;
        assert !less(s[k], s[i]) || k < i;
        assert s[..i][k] == y;
      }
    }
    assert Below(Elements(s), s[i], less) == Elements(s[..i]);
  }

  /** An element among the first `n` of a list is among the first `n` of any sublist that has it. */
  lemma PrefixOfSublist<T(!new)>(whole: seq<T>, part: seq<T>, x: T, n: nat, less: (T, T) -> bool)
    requires StrictOrder(less) && Increasing(whole, less) && Increasing(part, less)
    requires forall y :: y in part ==> y in whole
    requires x in part && x in Take(whole, n)
    ensures x in Take(part, n)
  {
    var i :| 0 <= i < |Take(whole, n)| && Take(whole, n)[i] == x;
    var k :| 0 <= k < |part| && part[k] == x;
    IndexIsRank(whole, i, less);
    IndexIsRank(part, k, less);
    var below, below' := Below(Elements(part), x, less), Below(Elements(whole), x, less);
    assert below <= below';
    CardinalityMonotone(below, below');
    assert k <= i;
    assert Take(part, n)[k] == x;
  }

  lemma {:induction false} CardinalityMonotone<T>(a: set<T>, b: set<T>)
    requires a <= b
    ensures |a| <= |b|
  {
    if a != {} {
      var x :| x in a;
      CardinalityMonotone(a - {x}, b - {x});
    }
  }

  /** A list that has the first `n` of the whole, and nothing else of it, starts with those `n`. */
  lemma PrefixIsDetermined<T(!new)>(whole: seq<T>, some: seq<T>, n: nat, less: (T, T) -> bool)
    requires StrictOrder(less) && Increasing(whole, less) && Increasing(some, less)
    requires forall x :: x in some ==> x in whole
    requires forall x :: x in Take(whole, n) ==> x in some
    ensures Take(some, n) == Take(whole, n)
  {
    var a, b := Take(some, n), Take(whole, n);
    assert Increasing(a, less) && Increasing(b, less);
    forall x
      ensures x in b ==> x in a
    {
      if x in b {
        PrefixOfSublist(whole, some, x, n, less);
      }
    }
    IncreasingIsDistinct(a, less);
    IncreasingIsDistinct(b, less);
    PrefixHasItsSize(a, |a|);
    PrefixHasItsSize(b, |b|);
    assert a[..|a|] == a && b[..|b|] == b;
    assert Elements(b) <= Elements(a);
    SublistIsShorter(some, whole, less);
    SubsetOfSameSize(Elements(b), Elements(a));
    assert forall x :: x in a <==> x in Elements(a);
    assert forall x :: x in b <==> x in Elements(b);
    IncreasingDetermines(a, b, less);
  }

  /** Some elements of an increasing list, in order, that all precede the others are its first ones. */
  lemma LeastAreThePrefix<T(!new)>(whole: seq<T>, some: seq<T>, less: (T, T) -> bool)
    requires StrictOrder(less) && Increasing(whole, less) && Increasing(some, less)
    requires forall x :: x in some ==> x in whole
    requires forall x, y :: x in some && y in whole && y !in some ==> less(x, y)
    ensures |some| <= |whole| && some == whole[..|some|]
  {
    var k := |some|;
    SublistIsShorter(some, whole, less);
    IncreasingIsDistinct(some, less);
    PrefixHasItsSize(some, k);
    assert some[..k] == some;
    forall x | x in Take(whole, k)
      ensures x in some
    {
      var i :| 0 <= i < |Take(whole, k)| && Take(whole, k)[i] == x;
      if x !in some {
        IndexIsRank(whole, i, less);
        assert whole[i] == x;
        assert Elements(some) <= Below(Elements(whole), x, less);
        CardinalityMonotone(Elements(some), Below(Elements(whole), x, less));
      }
    }
    PrefixIsDetermined(whole, some, k, less);
  }

  /** The first elements of an increasing list precede the others. */
  lemma PrefixIsLeast<T(!new)>(whole: seq<T>, k: nat, less: (T, T) -> bool)
    requires StrictOrder(less) && Increasing(whole, less) && k <= |whole|
    ensures Increasing(whole[..k], less)
    ensures forall x :: x in whole[..k] ==> x in whole
    ensures forall x, y :: x in whole[..k] && y in whole && y !in whole[..k] ==> less(x, y)
  {
    forall x, y | x in whole[..k] && y in whole && y !in whole[..k]
      ensures less(x, y)
    {
      var i :| 0 <= i < k && whole[..k][i] == x;
      var j :| 0 <= j < |whole| && whole[j] == y;
      assert forall m :: 0 <= m < k ==> whole[..k][m] == whole[m];
      assert k <= j && whole[i] == x;
    }
  }

  lemma SublistIsShorter<T(!new)>(part: seq<T>, whole: seq<T>, less: (T, T) -> bool)
    requires StrictOrder(less) && Increasing(part, less) && Increasing(whole, less)
    requires forall x :: x in part ==> x in whole
    ensures |part| <= |whole|
  {
    IncreasingIsDistinct(part, less);
    IncreasingIsDistinct(whole, less);
    PrefixHasItsSize(part, |part|);
    PrefixHasItsSize(whole, |whole|);
    assert part[..|part|] == part && whole[..|whole|] == whole;
    CardinalityMonotone(Elements(part), Elements(whole));
  }

  lemma {:induction false} SubsetOfSameSize<T>(a: set<T>, b: set<T>)
    requires a <= b && |b| <= |a|
    ensures a == b
  {
    if a == {} {
      assert |b| == 0;
    } else {
      var x :| x in a;
      SubsetOfSameSize(a - {x}, b - {x});
    }
  }
}
