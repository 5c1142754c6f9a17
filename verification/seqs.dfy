/** Sequence helpers shared by every table of the store: a row filter with
    the multiset meaning of a SQL `WHERE`, and the "no two rows share a key"
    predicate behind the primary keys and the per-day uniqueness rules. */
module Seqs {

  /** The rows of `s` that satisfy `p`, in their original order. */
  function Filter<T(!new)>(p: T -> bool, s: seq<T>): (r: seq<T>)
    ensures |r| <= |s|
    ensures forall x :: multiset(r)[x] == if p(x) then multiset(s)[x] else 0
    ensures forall x :: x in r <==> x in s && p(x)
  {
    if |s| == 0 then []
    else
      var rest := Filter(p, s[1..]);
      assert s == [s[0]] + s[1..];
      if p(s[0]) then [s[0]] + rest else rest
  }

  /** The complement of a row predicate. */
  function Not<T>(p: T -> bool): T -> bool
  {
    x => !p(x)
  }

  /** Filtering distributes over concatenation. */
  lemma {:induction false} FilterAppend<T(!new)>(p: T -> bool, a: seq<T>, b: seq<T>)
    ensures Filter(p, a + b) == Filter(p, a) + Filter(p, b)
  {
    if |a| == 0 {
      assert a + b == b;
    } else {
      assert (a + b)[1..] == a[1..] + b;
      FilterAppend(p, a[1..], b);
    }
  }

  /** A filter that keeps every row is the identity. */
  lemma {:induction false} FilterKeepsAll<T(!new)>(p: T -> bool, s: seq<T>)
    requires forall x :: x in s ==> p(x)
    ensures Filter(p, s) == s
  {
    if |s| > 0 {
      assert s[0] in s;
      assert forall x :: x in s[1..] ==> x in s;
      FilterKeepsAll(p, s[1..]);
      assert s == [s[0]] + s[1..];
    }
  }

  /** Filtering out a row appended to rows the predicate all keep out
      gives back exactly that row, and the original rows. */
  lemma FilterAppended<T(!new)>(p: T -> bool, s: seq<T>, y: T)
    requires forall x :: x in s ==> !p(x)
    requires p(y)
    ensures Filter(p, s + [y]) == [y]
    ensures Filter(Not(p), s + [y]) == s
  {
    assert [y][1..] == [];
    assert Filter(p, [y]) == [y];
    assert Filter(Not(p), [y]) == [] by {
      assert !Not(p)(y);
    }
    FilterAppend(p, s, [y]);
    FilterAppend(Not(p), s, [y]);
    assert forall x :: x in s ==> Not(p)(x);
    FilterKeepsAll(Not(p), s);
    assert Filter(p, s) == [] by {
      assert forall x :: x !in Filter(p, s);
    }
  }

  /** A row set splits into the rows a predicate keeps and those it drops. */
  lemma FilterSplit<T(!new)>(p: T -> bool, s: seq<T>)
    ensures multiset(Filter(p, s)) + multiset(Filter(Not(p), s)) == multiset(s)
  {
    var a, b := Filter(p, s), Filter(Not(p), s);
    forall x
      ensures (multiset(a) + multiset(b))[x] == multiset(s)[x]
    {
      assert Not(p)(x) == !p(x);
    }
  }

  /** No two distinct positions of `s` carry the same key. */
  ghost predicate KeysDistinct<T, K>(key: T -> K, s: seq<T>)
  {
    forall i, j :: 0 <= i < j < |s| ==> key(s[i]) != key(s[j])
  }

  /** Appending a row whose key is new keeps the keys distinct. */
  lemma KeysDistinctAppend<T, K>(key: T -> K, s: seq<T>, x: T)
    requires KeysDistinct(key, s)
    requires forall y :: y in s ==> key(y) != key(x)
    ensures KeysDistinct(key, s + [x])
  {
    var t := s + [x];
    forall i, j | 0 <= i < j < |t|
      ensures key(t[i]) != key(t[j])
    {
      if j == |s| {
        assert t[i] in s;
      }
    }
  }

  /** Dropping the first row keeps the keys distinct. */
  lemma KeysDistinctTail<T, K>(key: T -> K, s: seq<T>)
    requires |s| > 0 && KeysDistinct(key, s)
    ensures KeysDistinct(key, s[1..])
    ensures forall y :: y in s[1..] ==> key(y) != key(s[0])
  {
    var tail := s[1..];
    forall i, j | 0 <= i < j < |tail|
      ensures key(tail[i]) != key(tail[j])
    {
      assert tail[i] == s[i + 1] && tail[j] == s[j + 1];
    }
    forall y | y in tail
      ensures key(y) != key(s[0])
    {
      var k :| 0 <= k < |tail| && tail[k] == y;
      assert s[k + 1] == y;
    }
  }

  /** Putting a row with a new key in front keeps the keys distinct. */
  lemma KeysDistinctCons<T, K>(key: T -> K, x: T, s: seq<T>)
    requires KeysDistinct(key, s)
    requires forall y :: y in s ==> key(y) != key(x)
    ensures KeysDistinct(key, [x] + s)
  {
    var r := [x] + s;
    forall i, j | 0 <= i < j < |r|
      ensures key(r[i]) != key(r[j])
    {
      assert r[j] == s[j - 1];
      if i == 0 {
        assert r[j] in s;
      } else {
        assert r[i] == s[i - 1];
      }
    }
  }

  /** Removing rows keeps the keys distinct. */
  lemma {:induction false} KeysDistinctFilter<T(!new), K>(key: T -> K, p: T -> bool, s: seq<T>)
    requires KeysDistinct(key, s)
    ensures KeysDistinct(key, Filter(p, s))
  {
    if |s| > 0 {
      KeysDistinctTail(key, s);
      KeysDistinctFilter(key, p, s[1..]);
      if p(s[0]) {
        KeysDistinctCons(key, s[0], Filter(p, s[1..]));
      }
    }
  }

  /** Rewriting rows without touching their keys keeps the keys distinct. */
  lemma KeysDistinctSameKeys<T, K>(key: T -> K, a: seq<T>, b: seq<T>)
    requires KeysDistinct(key, a)
    requires |a| == |b| && forall i :: 0 <= i < |a| ==> key(a[i]) == key(b[i])
    ensures KeysDistinct(key, b)
  {
  }

  /** When the keys are distinct, at most one row carries a given key. */
  lemma KeysDistinctAtMostOne<T, K>(key: T -> K, s: seq<T>, x: T, y: T)
    requires KeysDistinct(key, s)
    requires x in s && y in s && key(x) == key(y)
    ensures x == y
  {
    var i :| 0 <= i < |s| && s[i] == x;
    var j :| 0 <= j < |s| && s[j] == y;
    assert key(s[i]) == key(s[j]);
    assert i == j;
  }
}
