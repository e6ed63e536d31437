/** Counting the elements of a sequence that satisfy a predicate. */
module Counting {

  function Count<T>(s: seq<T>, p: T -> bool): nat {
    if s == [] then 0
    else Count(s[..|s| - 1], p) + if p(s[|s| - 1]) then 1 else 0
  }

  lemma {:induction false} CountConcat<T>(a: seq<T>, b: seq<T>, p: T -> bool)
    ensures Count(a + b, p) == Count(a, p) + Count(b, p)
  {
    if b == [] {
      assert a + b == a;
    } else {
      assert (a + b)[..|a + b| - 1] == a + b[..|b| - 1];
      CountConcat(a, b[..|b| - 1], p);
    }
  }

  lemma {:induction false} CountAll<T>(s: seq<T>, p: T -> bool)
    requires forall x :: x in s ==> p(x)
    ensures Count(s, p) == |s|
  {
    if s != [] {
      CountAll(s[..|s| - 1], p);
    }
  }

  ghost function Positions<T>(s: seq<T>, p: T -> bool): set<int> {
    set i | 0 <= i < |s| && p(s[i])
  }

  lemma {:induction false} CountPositions<T>(s: seq<T>, p: T -> bool)
    ensures Count(s, p) == |Positions(s, p)|
  {
    if s != [] {
      var n := |s| - 1;
      CountPositions(s[..n], p);
      assert Positions(s, p) == Positions(s[..n], p) + if p(s[n]) then {n} else {};
    }
  }

  /** Everything is counted exactly when everything satisfies the predicate. */
  lemma {:induction false} CountIsAllExactly<T>(s: seq<T>, p: T -> bool)
    ensures Count(s, p) <= |s|
    ensures Count(s, p) == |s| <==> forall i :: 0 <= i < |s| ==> p(s[i])
  {
    if s != [] {
      CountIsAllExactly(s[..|s| - 1], p);
    }
  }

  function RemoveAt<T>(s: seq<T>, k: nat): seq<T>
    requires k < |s|
  {
    s[..k] + s[k + 1..]
  }

  lemma CountOne<T>(x: T, p: T -> bool)
    ensures Count([x], p) == if p(x) then 1 else 0
  {
    assert [x][..|[x]| - 1] == [];
  }

  lemma CountInsert<T>(a: seq<T>, x: T, b: seq<T>, p: T -> bool)
    ensures Count(a + ([x] + b), p) == Count(a + b, p) + if p(x) then 1 else 0
  {
    CountConcat(a, [x] + b, p);
    CountConcat([x], b, p);
    CountConcat(a, b, p);
    CountOne(x, p);
  }

  lemma SplitAt<T>(s: seq<T>, k: nat)
    requires k < |s|
    ensures s == s[..k] + ([s[k]] + s[k + 1..])
  {
  }

  lemma CountRemoveAt<T>(s: seq<T>, k: nat, p: T -> bool)
    requires k < |s|
    ensures Count(s, p) == Count(RemoveAt(s, k), p) + if p(s[k]) then 1 else 0
  {
    var a, b := s[..k], s[k + 1..];
    SplitAt(s, k);
    CountInsert(a, s[k], b, p);
    assert RemoveAt(s, k) == a + b;
  }

  lemma MultisetRemoveAt<T>(s: seq<T>, k: nat)
    requires k < |s|
    ensures multiset(RemoveAt(s, k)) == multiset(s) - multiset{s[k]}
  {
    assert s == s[..k] + [s[k]] + s[k + 1..];
  }

  /** Counting does not see the order. */
  lemma {:induction false} CountPermutation<T>(a: seq<T>, b: seq<T>, p: T -> bool)
    requires multiset(a) == multiset(b)
    ensures Count(a, p) == Count(b, p)
    decreases |a|
  {
    if a == [] {
      assert |multiset(b)| == 0;
    } else {
      var n := |a| - 1;
      assert a[n] in multiset(b);
      var k :| 0 <= k < |b| && b[k] == a[n];
      MultisetRemoveAt(b, k);
      MultisetRemoveAt(a, n);
      assert RemoveAt(a, n) == a[..n];
      CountPermutation(a[..n], RemoveAt(b, k), p);
      CountRemoveAt(b, k, p);
    }
  }

  ghost function Image<T, K>(s: seq<T>, p: T -> bool, f: T -> K): set<K> {
    set x | x in s && p(x) :: f(x)
  }

  ghost predicate Injective<T, K>(s: seq<T>, p: T -> bool, f: T -> K) {
    forall i, j :: 0 <= i < j < |s| && p(s[i]) && p(s[j]) ==> f(s[i]) != f(s[j])
  }

  /** Selected elements are at least as many as their images, and exactly as many when no two share one. */
  lemma {:induction false} CountAndImage<T, K>(s: seq<T>, p: T -> bool, f: T -> K)
    ensures |Image(s, p, f)| <= Count(s, p)
    ensures Injective(s, p, f) <==> Count(s, p) == |Image(s, p, f)|
  {
    if s != [] {
      var n := |s| - 1;
      var earlier, last := s[..n], s[n];
      assert s == earlier + [last];
      CountAndImage(earlier, p, f);
      assert Image(s, p, f) == Image(earlier, p, f) + if p(last) then {f(last)} else {};
      InjectiveOneMore(s, p, f);
    }
  }

  lemma InjectiveOneMore<T, K>(s: seq<T>, p: T -> bool, f: T -> K)
    requires s != []
    ensures var n := |s| - 1;
            Injective(s, p, f) <==>
              Injective(s[..n], p, f) && (p(s[n]) ==> f(s[n]) !in Image(s[..n], p, f))
  {
    var n := |s| - 1;
    var earlier := s[..n];
    assert forall i :: 0 <= i < n ==> earlier[i] == s[i] && s[i] in earlier;
  }
}
