/**
 * `Array.prototype.filter` and duplicate-freedom, shared by the pages' list
 * computations.
 */
module Lists {

  /** `s.filter(p)`: the elements satisfying `p`, in their original order. */
  function Filter<T(!new)>(s: seq<T>, p: T -> bool): (r: seq<T>)
    ensures |r| <= |s|
    ensures forall x :: x in r <==> x in s && p(x)
  {
    if s == [] then []
    else
      assert s == [s[0]] + s[1..];
      (if p(s[0]) then [s[0]] else []) + Filter(s[1..], p)
  }

  /** Filtering works piecewise, so the survivors keep their relative order. */
  lemma {:induction false} FilterAppend<T(!new)>(a: seq<T>, b: seq<T>, p: T -> bool)
    ensures Filter(a + b, p) == Filter(a, p) + Filter(b, p)
    decreases |a|
  {
    if a == [] {
      assert a + b == b;
    } else {
      assert (a + b)[1..] == a[1..] + b;
      FilterAppend(a[1..], b, p);
    }
  }

  /** `x` occurs in `s` at some position before an occurrence of `y`. */
  ghost predicate Precedes<T>(s: seq<T>, x: T, y: T) {
    exists a, b :: 0 <= a < b < |s| && s[a] == x && s[b] == y
  }

  /** Filtering keeps the survivors' relative order: any two of them sit in that order in the input. */
  lemma {:induction false} FilterOrder<T(!new)>(s: seq<T>, p: T -> bool, i: nat, j: nat)
    requires i < j < |Filter(s, p)|
    ensures Precedes(s, Filter(s, p)[i], Filter(s, p)[j])
    decreases |s|
  {
    var r := Filter(s, p);
    var rest := Filter(s[1..], p);
    assert s == [s[0]] + s[1..];
    if p(s[0]) {
      assert r == [s[0]] + rest;
      if i == 0 {
        assert r[j] == rest[j - 1] && rest[j - 1] in s[1..];
        var b :| 0 <= b < |s[1..]| && s[1..][b] == rest[j - 1];
        assert s[0] == r[i] && s[b + 1] == r[j];
      } else {
        FilterOrder(s[1..], p, i - 1, j - 1);
        var a, b :| 0 <= a < b < |s[1..]| && s[1..][a] == rest[i - 1] && s[1..][b] == rest[j - 1];
        assert s[a + 1] == r[i] && s[b + 1] == r[j];
      }
    } else {
      assert r == rest;
      FilterOrder(s[1..], p, i, j);
      var a, b :| 0 <= a < b < |s[1..]| && s[1..][a] == rest[i] && s[1..][b] == rest[j];
      assert s[a + 1] == r[i] && s[b + 1] == r[j];
    }
  }

  /** A filter that no element passes keeps nothing. */
  lemma {:induction false} FilterNone<T(!new)>(s: seq<T>, p: T -> bool)
    requires forall x | x in s :: !p(x)
    ensures Filter(s, p) == []
    decreases |s|
  {
    if s != [] {
      assert s[0] in s;
      assert forall x | x in s[1..] :: x in s;
      FilterNone(s[1..], p);
    }
  }

  /** A non-empty list is its front followed by its last element. */
  lemma LastSplit<T>(s: seq<T>)
    requires s != []
    ensures s[..|s| - 1] + [s[|s| - 1]] == s
  {
  }

  /** A suffix is its first element followed by the rest. */
  lemma FrontSplit<T>(s: seq<T>, i: nat)
    requires i < |s|
    ensures s[i..] == [s[i]] + s[i + 1..]
  {
  }

  /** `s.map(f)`. */
  function Map<T, U>(s: seq<T>, f: T -> U): (r: seq<U>)
    ensures |r| == |s|
    ensures forall i | 0 <= i < |s| :: r[i] == f(s[i])
  {
    if s == [] then [] else [f(s[0])] + Map(s[1..], f)
  }

  lemma MapAppend<T, U>(a: seq<T>, b: seq<T>, f: T -> U)
    ensures Map(a + b, f) == Map(a, f) + Map(b, f)
  {
    assert forall i | 0 <= i < |a + b| :: Map(a + b, f)[i] == (Map(a, f) + Map(b, f))[i];
  }

  /** Two filters that agree on the elements of `s` select the same list. */
  lemma {:induction false} FilterCongruent<T(!new)>(s: seq<T>, p: T -> bool, q: T -> bool)
    requires forall x | x in s :: p(x) == q(x)
    ensures Filter(s, p) == Filter(s, q)
    decreases |s|
  {
    if s != [] {
      assert s[0] in s;
      assert forall x | x in s[1..] :: x in s;
      FilterCongruent(s[1..], p, q);
    }
  }

  /** No element occurs twice. */
  predicate Distinct<T(==)>(s: seq<T>) {
    forall i, j | 0 <= i < j < |s| :: s[i] != s[j]
  }

  /** A duplicate-free list holds each of its elements exactly once. */
  lemma {:induction false} DistinctCount<T>(s: seq<T>, x: T)
    requires Distinct(s)
    ensures multiset(s)[x] == if x in s then 1 else 0
    decreases |s|
  {
    if s != [] {
      assert s == [s[0]] + s[1..];
      DistinctCount(s[1..], x);
      if x == s[0] {
        assert x !in s[1..];
      }
    }
  }

  /** Two duplicate-free lists with the same elements are permutations of each other. */
  lemma SameMembersPermutation<T>(a: seq<T>, b: seq<T>)
    requires Distinct(a) && Distinct(b)
    requires forall x :: x in a <==> x in b
    ensures multiset(a) == multiset(b)
  {
    forall x
      ensures multiset(a)[x] == multiset(b)[x]
    {
      DistinctCount(a, x);
      DistinctCount(b, x);
    }
  }

  /** An element occurring at two positions is counted twice. */
  lemma CountTwo<T>(s: seq<T>, i: nat, j: nat)
    requires i < j < |s|
    ensures multiset(s)[s[i]] >= 1 + (if s[j] == s[i] then 1 else 0)
  {
    assert s == s[..j] + [s[j]] + s[j + 1..];
    assert s[i] in s[..j];
  }

  /** A permutation of a duplicate-free list is duplicate-free. */
  lemma DistinctPermutation<T>(a: seq<T>, b: seq<T>)
    requires Distinct(a)
    requires multiset(a) == multiset(b)
    ensures Distinct(b)
  {
    forall i, j | 0 <= i < j < |b|
      ensures b[i] != b[j]
    {
      CountTwo(b, i, j);
      DistinctCount(a, b[i]);
    }
  }

  /** Joining duplicate-free lists with no element in common keeps them duplicate-free. */
  lemma DistinctConcat<T>(a: seq<T>, b: seq<T>)
    requires Distinct(a) && Distinct(b)
    requires forall x | x in a :: x !in b
    ensures Distinct(a + b)
  {
    forall i, j | 0 <= i < j < |a + b|
      ensures (a + b)[i] != (a + b)[j]
    {
      if i < |a| && j >= |a| {
        assert (a + b)[i] in a && (a + b)[j] == b[j - |a|];
      }
    }
  }

  /** A filter of a duplicate-free list is duplicate-free. */
  lemma {:induction false} FilterDistinct<T(!new)>(s: seq<T>, p: T -> bool)
    requires Distinct(s)
    ensures Distinct(Filter(s, p))
    decreases |s|
  {
    if s != [] {
      assert s == [s[0]] + s[1..];
      FilterDistinct(s[1..], p);
      assert s[0] !in s[1..];
      DistinctConcat(if p(s[0]) then [s[0]] else [], Filter(s[1..], p));
    }
  }
}
