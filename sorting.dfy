/** ORDER BY: the listings the pages render are the scanned rows put in order by
    a comparison on their sort columns. Rows that compare equal may come in any
    order in MySQL; the model fixes one such order. */
module Sorting {

  /** A comparison usable for ORDER BY: any two rows compare, and transitively. */
  ghost predicate TotalPreorder<T(!new)>(le: (T, T) -> bool)
  {
    && (forall a, b :: le(a, b) || le(b, a))
    && (forall a, b, c :: le(a, b) && le(b, c) ==> le(a, c))
  }

  predicate Sorted<T(!new)>(s: seq<T>, le: (T, T) -> bool)
  {
    forall i, j :: 0 <= i < j < |s| ==> le(s[i], s[j])
  }

  function InsertSorted<T(!new)>(x: T, s: seq<T>, le: (T, T) -> bool): (r: seq<T>)
    requires TotalPreorder(le) && Sorted(s, le)
    ensures Sorted(r, le)
    ensures multiset(r) == multiset(s) + multiset{x}
  {
    if s == [] || le(x, s[0]) then
      [x] + s
    else
      var rest := InsertSorted(x, s[1..], le);
      HeadComesFirst(x, s, rest, le);
      assert s == [s[0]] + s[1..];
      [s[0]] + rest
  }

  /** When x goes after the head of s, the head comes no later than anything in
      the rest with x inserted. */
  lemma HeadComesFirst<T(!new)>(x: T, s: seq<T>, rest: seq<T>, le: (T, T) -> bool)
    requires TotalPreorder(le) && Sorted(s, le) && s != [] && !le(x, s[0])
    requires multiset(rest) == multiset(s[1..]) + multiset{x}
    ensures forall y :: y in rest ==> le(s[0], y)
  {
    forall y | y in rest ensures le(s[0], y) {
      assert y in multiset(rest);
      if y != x {
        assert y in multiset(s[1..]);
        var k :| 0 <= k < |s[1..]| && s[1..][k] == y;
        assert s[k + 1] == y;
      }
    }
  }

  /** The rows in the order of `le` (insertion sort). */
  function SortBy<T(!new)>(s: seq<T>, le: (T, T) -> bool): (r: seq<T>)
    requires TotalPreorder(le)
    ensures Sorted(r, le)
    ensures multiset(r) == multiset(s)
    ensures |r| == |s|
  {
    if s == [] then []
    else
      assert s == [s[0]] + s[1..];
      InsertSorted(s[0], SortBy(s[1..], le), le)
  }

  /** Keeps the rows meeting a condition, in their order (array_filter, WHERE). */
  function Filter<T(!new)>(s: seq<T>, keep: T -> bool): (r: seq<T>)
    ensures |r| <= |s|
    ensures forall x :: x in r <==> x in s && keep(x)
  {
    if s == [] then [] else (if keep(s[0]) then [s[0]] else []) + Filter(s[1..], keep)
  }

  /** Filtering works piece by piece: the rows kept from a list are the rows kept
      from its front followed by those kept from its back, so kept rows stay in
      their original order. */
  lemma {:induction false} FilterAppend<T(!new)>(a: seq<T>, b: seq<T>, keep: T -> bool)
    ensures Filter(a + b, keep) == Filter(a, keep) + Filter(b, keep)
  {
    if a != [] {
      assert (a + b)[1..] == a[1..] + b;
      FilterAppend(a[1..], b, keep);
    } else {
      assert a + b == b;
    }
  }

  /** Filtering a sorted list leaves it sorted. */
  lemma {:induction false} FilterSorted<T(!new)>(s: seq<T>, keep: T -> bool, le: (T, T) -> bool)
    ensures Sorted(s, le) ==> Sorted(Filter(s, keep), le)
  {
    if s != [] && Sorted(s, le) {
      FilterSorted(s[1..], keep, le);
      var rest := Filter(s[1..], keep);
      forall x | x in rest ensures le(s[0], x) {
        var k :| 0 <= k < |s[1..]| && s[1..][k] == x;
        assert s[k + 1] == x;
      }
    }
  }

  /** How many rows meet a condition. */
  function Count<T(!new)>(s: seq<T>, keep: T -> bool): nat
  {
    if s == [] then 0 else (if keep(s[0]) then 1 else 0) + Count(s[1..], keep)
  }

  lemma {:induction false} FilterLength<T(!new)>(s: seq<T>, keep: T -> bool)
    ensures |Filter(s, keep)| == Count(s, keep)
  {
    if s != [] {
      FilterLength(s[1..], keep);
    }
  }

  lemma {:induction false} CountInsert<T(!new)>(x: T, s: seq<T>, le: (T, T) -> bool, keep: T -> bool)
    requires TotalPreorder(le) && Sorted(s, le)
    ensures Count(InsertSorted(x, s, le), keep) == Count(s, keep) + (if keep(x) then 1 else 0)
  {
    if s != [] && !le(x, s[0]) {
      CountInsert(x, s[1..], le, keep);
      var r := InsertSorted(x, s, le);
      assert r[1..] == InsertSorted(x, s[1..], le);
    } else {
      var r := [x] + s;
      assert r[1..] == s;
    }
  }

  /** Putting rows in order does not change how many of them meet a condition. */
  lemma {:induction false} CountSortBy<T(!new)>(s: seq<T>, le: (T, T) -> bool, keep: T -> bool)
    requires TotalPreorder(le)
    ensures Count(SortBy(s, le), keep) == Count(s, keep)
  {
    if s != [] {
      CountSortBy(s[1..], le, keep);
      CountInsert(s[0], SortBy(s[1..], le), le, keep);
    }
  }

  /** The first n elements of a sorted sequence come no later, in the order, than
      any element left out (the rows a LIMIT n keeps). */
  lemma TakeIsTop<T(!new)>(s: seq<T>, le: (T, T) -> bool, n: nat)
    requires Sorted(s, le) && n <= |s|
    ensures forall i, j :: 0 <= i < n <= j < |s| ==> le(s[..n][i], s[j])
  {
  }
}
