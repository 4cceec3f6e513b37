/**
  A stable sort, standing for pandas' `sort_values` over several columns: rows
  are ordered by a total preorder `le` ("may come first"), and rows the order
  ties keep their table order. Both orders the analytics service sorts by are
  instances of it.
 */
module Sorting {

  /** `le` is total and transitive: it ranks every pair, consistently. */
  ghost predicate TotalPreorder<T(!new)>(le: (T, T) -> bool) {
    && (forall a, b :: le(a, b) || le(b, a))
    && (forall a, b, c :: le(a, b) && le(b, c) ==> le(a, c))
  }

  /** Every element may come before every later one. */
  predicate SortedBy<T>(s: seq<T>, le: (T, T) -> bool) {
    forall i, j :: 0 <= i < j < |s| ==> le(s[i], s[j])
  }

  predicate Distinct<T(==)>(s: seq<T>) {
    forall i, j :: 0 <= i < j < |s| ==> s[i] != s[j]
  }

  /** Inserts `x` in front of the first element it may come before. */
  function Insert<T>(x: T, s: seq<T>, le: (T, T) -> bool): (r: seq<T>)
    ensures |r| == |s| + 1
    ensures multiset(r) == multiset(s) + multiset{x}
  {
    if s == [] || le(x, s[0]) then
      [x] + s
    else
      assert s == [s[0]] + s[1..];
      [s[0]] + Insert(x, s[1..], le)
  }

  /** Insertion sort: a permutation of `s`. */
  function SortBy<T>(s: seq<T>, le: (T, T) -> bool): (r: seq<T>)
    ensures |r| == |s|
    ensures multiset(r) == multiset(s)
  {
    if s == [] then
      []
    else
      assert s == [s[0]] + s[1..];
      Insert(s[0], SortBy(s[1..], le), le)
  }

  lemma {:induction false} InsertSorted<T(!new)>(x: T, s: seq<T>, le: (T, T) -> bool)
    requires TotalPreorder(le) && SortedBy(s, le)
    ensures SortedBy(Insert(x, s, le), le)
  {
    if s != [] && !le(x, s[0]) {
      var rest := Insert(x, s[1..], le);
      InsertSorted(x, s[1..], le);
      assert le(s[0], x);
      forall y | y in rest
        ensures le(s[0], y)
      {
        assert y in multiset(rest);
        if y != x {
          assert y in s[1..];
        }
      }
    }
  }

  /** Two elements are swapped exactly when the first may not come before the second. */
  lemma SortPair<T>(x: T, y: T, le: (T, T) -> bool)
    ensures SortBy([x, y], le) == if le(x, y) then [x, y] else [y, x]
  {
    assert [x, y][1..] == [y] && [y][1..] == [];
    assert SortBy([y], le) == [y];
  }

  /** The result of `SortBy` is ordered by `le`. */
  lemma {:induction false} SortBySorted<T(!new)>(s: seq<T>, le: (T, T) -> bool)
    requires TotalPreorder(le)
    ensures SortedBy(SortBy(s, le), le)
  {
    if s != [] {
      SortBySorted(s[1..], le);
      InsertSorted(s[0], SortBy(s[1..], le), le);
    }
  }

  /** The elements of `s` that `le` ranks level with `e`, in their order in `s`. */
  function Tied<T>(s: seq<T>, e: T, le: (T, T) -> bool): (r: seq<T>)
    ensures |r| <= |s|
  {
    if s == [] then []
    else (if le(e, s[0]) && le(s[0], e) then [s[0]] else []) + Tied(s[1..], e, le)
  }

  lemma {:induction false} InsertStable<T(!new)>(x: T, s: seq<T>, e: T, le: (T, T) -> bool)
    requires TotalPreorder(le) && SortedBy(s, le)
    ensures Tied(Insert(x, s, le), e, le) == Tied([x] + s, e, le)
  {
    if s != [] && !le(x, s[0]) {
      InsertStable(x, s[1..], e, le);
      var tx := le(e, x) && le(x, e);
      var t0 := le(e, s[0]) && le(s[0], e);
      assert !(tx && t0);
      assert Tied([x] + s[1..], e, le) == (if tx then [x] else []) + Tied(s[1..], e, le);
      assert Tied([x] + s, e, le) == (if tx then [x] else []) + Tied(s, e, le);
      assert Tied(s, e, le) == (if t0 then [s[0]] else []) + Tied(s[1..], e, le);
    }
  }

  /** `SortBy` is stable: the elements ranked level with any `e` keep their order in `s`. */
  lemma {:induction false} SortByStable<T(!new)>(s: seq<T>, e: T, le: (T, T) -> bool)
    requires TotalPreorder(le)
    ensures Tied(SortBy(s, le), e, le) == Tied(s, e, le)
  {
    if s != [] {
      SortByStable(s[1..], e, le);
      SortBySorted(s[1..], le);
      InsertStable(s[0], SortBy(s[1..], le), e, le);
      assert s == [s[0]] + s[1..];
    }
  }

  /** The ties within a prefix of `s` are a prefix of the ties in `s`. */
  lemma {:induction false} TiedPrefix<T>(s: seq<T>, n: nat, e: T, le: (T, T) -> bool)
    requires n <= |s|
    ensures Tied(s[..n], e, le) <= Tied(s, e, le)
  {
    if n > 0 {
      TiedPrefix(s[1..], n - 1, e, le);
      assert s[..n][1..] == s[1..][..n - 1];
    }
  }

  /** In a sorted sequence, every element of a prefix may come before every element left after it. */
  lemma SortedPrefixFirst<T>(s: seq<T>, n: nat, le: (T, T) -> bool)
    requires SortedBy(s, le) && n <= |s|
    ensures forall x, i :: x in multiset(s) - multiset(s[..n]) && 0 <= i < n ==> le(s[i], x)
  {
    var rest := s[n..];
    assert s == s[..n] + rest;
    assert multiset(s) - multiset(s[..n]) == multiset(rest);
    forall x, i | x in multiset(s) - multiset(s[..n]) && 0 <= i < n
      ensures le(s[i], x)
    {
      var j :| 0 <= j < |rest| && rest[j] == x;
      assert s[n + j] == x;
    }
  }

  lemma {:induction false} InsertDistinct<T>(x: T, s: seq<T>, le: (T, T) -> bool)
    requires Distinct(s) && x !in s
    ensures Distinct(Insert(x, s, le))
  {
    if s != [] && !le(x, s[0]) {
      InsertDistinct(x, s[1..], le);
      var rest := Insert(x, s[1..], le);
      assert s[0] !in s[1..];
      assert s[0] !in multiset(rest);
    }
  }

  /** Sorting a sequence without repeated elements repeats none. */
  lemma {:induction false} SortByDistinct<T>(s: seq<T>, le: (T, T) -> bool)
    requires Distinct(s)
    ensures Distinct(SortBy(s, le))
  {
    if s != [] {
      SortByDistinct(s[1..], le);
      assert s[0] !in SortBy(s[1..], le) by {
        assert s[0] !in multiset(s[1..]);
      }
      InsertDistinct(s[0], SortBy(s[1..], le), le);
    }
  }

  /** The sum of `f` over a sequence. */
  function SumBy<T>(s: seq<T>, f: T -> int): int {
    if s == [] then 0 else f(s[0]) + SumBy(s[1..], f)
  }

  lemma {:induction false} InsertSum<T>(x: T, s: seq<T>, le: (T, T) -> bool, f: T -> int)
    ensures SumBy(Insert(x, s, le), f) == f(x) + SumBy(s, f)
  {
    if s != [] && !le(x, s[0]) {
      InsertSum(x, s[1..], le, f);
    }
  }

  /** Sorting does not change a sum over the elements. */
  lemma {:induction false} SortBySum<T>(s: seq<T>, le: (T, T) -> bool, f: T -> int)
    ensures SumBy(SortBy(s, le), f) == SumBy(s, f)
  {
    if s != [] {
      SortBySum(s[1..], le, f);
      InsertSum(s[0], SortBy(s[1..], le), le, f);
    }
  }
}
