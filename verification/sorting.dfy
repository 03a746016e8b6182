/**
 * A stable insertion sort standing in for `Array.prototype.sort` with a
 * comparator. `lt(a, b)` holds when the comparator returns a negative number
 * for `(a, b)`, i.e. `a` must come before `b`; elements it does not separate
 * keep their input order, as ECMAScript's sort promises.
 */
module Sorting {

  /** `lt` is a strict order: asymmetric and transitive. */
  ghost predicate StrictOrder<T(!new)>(lt: (T, T) -> bool) {
    && (forall a, b :: lt(a, b) ==> !lt(b, a))
    && (forall a, b, c :: lt(a, b) && lt(b, c) ==> lt(a, c))
  }

  /** No later element must come before an earlier one. */
  ghost predicate SortedBy<T>(s: seq<T>, lt: (T, T) -> bool) {
    forall i, j | 0 <= i < j < |s| :: !lt(s[j], s[i])
  }

  /** Places `x` in front of the first element it must precede. */
  function Insert<T>(x: T, s: seq<T>, lt: (T, T) -> bool): (r: seq<T>)
    ensures multiset(r) == multiset(s) + multiset{x}
    ensures |r| == |s| + 1
  {
    if |s| == 0 then [x]
    else if lt(x, s[0]) then [x] + s
    else
      var rest := Insert(x, s[1..], lt);
      assert s == [s[0]] + s[1..];
      [s[0]] + rest
  }

  lemma {:induction false} InsertSorted<T(!new)>(x: T, s: seq<T>, lt: (T, T) -> bool)
    requires StrictOrder(lt)
    requires SortedBy(s, lt)
    ensures SortedBy(Insert(x, s, lt), lt)
  {
    if |s| > 0 && !lt(x, s[0]) {
      InsertSorted(x, s[1..], lt);
      var r := Insert(x, s, lt);
      var rest := Insert(x, s[1..], lt);
      assert r == [s[0]] + rest;
      forall j | 0 < j < |r|
        ensures !lt(r[j], r[0])
      {
        assert r[j] in multiset(rest);
        assert r[j] in multiset(s[1..]) || r[j] == x;
        if r[j] != x {
          var k :| 1 <= k < |s| && s[k] == r[j];
        }
      }
    }
  }

  /** Sorts `s` by inserting its last element into the sorted prefix. */
  function SortBy<T>(s: seq<T>, lt: (T, T) -> bool): (r: seq<T>)
    ensures multiset(r) == multiset(s)
    ensures |r| == |s|
  {
    if |s| == 0 then []
    else
      assert s == s[..|s| - 1] + [s[|s| - 1]];
      Insert(s[|s| - 1], SortBy(s[..|s| - 1], lt), lt)
  }

  lemma {:induction false} SortBySorted<T(!new)>(s: seq<T>, lt: (T, T) -> bool)
    requires StrictOrder(lt)
    ensures SortedBy(SortBy(s, lt), lt)
  {
    if |s| > 0 {
      SortBySorted(s[..|s| - 1], lt);
      InsertSorted(s[|s| - 1], SortBy(s[..|s| - 1], lt), lt);
    }
  }

  /** Sorting keeps exactly the input's elements. */
  lemma SortByMembers<T>(s: seq<T>, lt: (T, T) -> bool, x: T)
    ensures x in SortBy(s, lt) <==> x in s
  {
    var r := SortBy(s, lt);
    assert x in r <==> x in multiset(r);
    assert x in s <==> x in multiset(s);
  }
}
