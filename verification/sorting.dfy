/** The orderings behind the `ORDER BY` clauses of the listings: a
    lexicographic order on names and an insertion sort over any total
    preorder. SQL leaves the order of rows with equal sort keys open, so the
    sort is specified only as "ordered, and a permutation of its input". */
module Sorting {

  /** `le` compares every pair and is transitive. */
  ghost predicate TotalPreorder<T(!new)>(le: (T, T) -> bool)
  {
    && (forall a, b :: le(a, b) || le(b, a))
    && (forall a, b, c :: le(a, b) && le(b, c) ==> le(a, c))
  }

  /** Every earlier element is `le` every later one. */
  ghost predicate SortedBy<T>(le: (T, T) -> bool, s: seq<T>)
  {
    forall i, j :: 0 <= i < j < |s| ==> le(s[i], s[j])
  }

  /** Lexicographic order on names, character by character; a proper prefix
      comes first. */
  predicate NameLe(a: string, b: string)
  {
    if |a| == 0 then true
    else if |b| == 0 then false
    else if a[0] != b[0] then a[0] < b[0]
    else NameLe(a[1..], b[1..])
  }

  lemma {:induction false} NameLeTotal(a: string, b: string)
    ensures NameLe(a, b) || NameLe(b, a)
  {
    if |a| > 0 && |b| > 0 && a[0] == b[0] {
      NameLeTotal(a[1..], b[1..]);
    }
  }

  lemma {:induction false} NameLeTransitive(a: string, b: string, c: string)
    requires NameLe(a, b) && NameLe(b, c)
    ensures NameLe(a, c)
  {
    if |a| > 0 && |b| > 0 && |c| > 0 && a[0] == b[0] && b[0] == c[0] {
      NameLeTransitive(a[1..], b[1..], c[1..]);
    }
  }

  /** The tail of a sorted sequence is sorted, and its head precedes it. */
  lemma SortedTail<T>(le: (T, T) -> bool, s: seq<T>)
    requires |s| > 0 && SortedBy(le, s)
    ensures SortedBy(le, s[1..])
    ensures forall y :: y in s[1..] ==> le(s[0], y)
  {
    var tail := s[1..];
    forall i, j | 0 <= i < j < |tail|
      ensures le(tail[i], tail[j])
    {
      assert tail[i] == s[i + 1] && tail[j] == s[j + 1];
    }
    forall y | y in tail
      ensures le(s[0], y)
    {
      var k :| 0 <= k < |tail| && tail[k] == y;
      assert s[k + 1] == y;
    }
  }

  /** A head that precedes every element of a sorted tail gives a sorted sequence. */
  lemma SortedCons<T>(le: (T, T) -> bool, x: T, s: seq<T>)
    requires SortedBy(le, s)
    requires forall y :: y in s ==> le(x, y)
    ensures SortedBy(le, [x] + s)
  {
    var r := [x] + s;
    forall i, j | 0 <= i < j < |r|
      ensures le(r[i], r[j])
    {
      assert r[j] == s[j - 1];
      if i == 0 {
        assert r[j] in s;
      } else {
        assert r[i] == s[i - 1];
      }
    }
  }

  /** Inserts `x` into the sorted `s` after every element that must precede it. */
  function Insert<T(!new)>(le: (T, T) -> bool, x: T, s: seq<T>): (r: seq<T>)
    requires TotalPreorder(le)
    requires SortedBy(le, s)
    ensures multiset(r) == multiset(s) + multiset{x}
    ensures SortedBy(le, r)
  {
    if |s| == 0 then [x]
    else if le(x, s[0]) then
      SortedTail(le, s);
      assert s == [s[0]] + s[1..];
      SortedCons(le, x, s);
      [x] + s
    else
      SortedTail(le, s);
      var rest := Insert(le, x, s[1..]);
      assert s == [s[0]] + s[1..];
      assert le(s[0], x);
      assert forall y :: y in rest ==> le(s[0], y) by {
        forall y | y in rest
          ensures le(s[0], y)
        {
          assert y in multiset(rest);
          if y != x {
            assert y in multiset(s[1..]);
          }
        }
      }
      SortedCons(le, s[0], rest);
      [s[0]] + rest
  }

  /** A stable insertion sort: ordered by `le` and a permutation of `s`. */
  function InsertionSort<T(!new)>(le: (T, T) -> bool, s: seq<T>): (r: seq<T>)
    requires TotalPreorder(le)
    ensures multiset(r) == multiset(s)
    ensures |r| == |s|
    ensures SortedBy(le, r)
  {
    if |s| == 0 then []
    else
      assert s == [s[0]] + s[1..];
      var r := Insert(le, s[0], InsertionSort(le, s[1..]));
      assert |r| == |multiset(r)|;
      r
  }
}
