/**
 * The array methods the views are built from: `filter`, `slice(0, n)` and a
 * stable `sort` driven by a three-way comparator, with the facts about them
 * that the rest of the model relies on.
 */
module Seqs {

  /** a can be obtained from b by deleting elements: an order-preserving subsequence. */
  predicate IsSubsequence<T(==)>(a: seq<T>, b: seq<T>)
    decreases |b|
  {
    |a| == 0
    || (|b| > 0 && ((a[0] == b[0] && IsSubsequence(a[1..], b[1..])) || IsSubsequence(a, b[1..])))
  }

  /** `s.filter(p)`. */
  function Filter<T(==)>(s: seq<T>, p: T -> bool): (r: seq<T>)
    ensures |r| <= |s|
    ensures forall i :: 0 <= i < |r| ==> r[i] in s && p(r[i])
    ensures forall i :: 0 <= i < |s| && p(s[i]) ==> s[i] in r
    ensures IsSubsequence(r, s)
    decreases |s|
  {
    if |s| == 0 then []
    else if p(s[0]) then [s[0]] + Filter(s[1..], p)
    else Filter(s[1..], p)
  }

  /** `s.map(f)`. */
  function Map<T, U>(s: seq<T>, f: T -> U): (r: seq<U>)
    ensures |r| == |s|
    ensures forall i :: 0 <= i < |s| ==> r[i] == f(s[i])
    decreases |s|
  {
    if |s| == 0 then [] else [f(s[0])] + Map(s[1..], f)
  }

  /**
   * How many elements `filter` keeps, counted independently: when p tests
   * `f(x) == v`, the kept length is the multiplicity of v among the mapped values.
   */
  lemma {:induction false} FilterLengthIsMultiplicity<T, U>(s: seq<T>, p: T -> bool, f: T -> U, v: U)
    requires forall x :: p(x) == (f(x) == v)
    ensures |Filter(s, p)| == multiset(Map(s, f))[v]
    decreases |s|
  {
    if |s| > 0 {
      FilterLengthIsMultiplicity(s[1..], p, f, v);
      assert Map(s, f) == [f(s[0])] + Map(s[1..], f);
    }
  }

  /** Filtering with a predicate that every element meets changes nothing. */
  lemma {:induction false} FilterAll<T>(s: seq<T>, p: T -> bool)
    requires forall x :: x in s ==> p(x)
    ensures Filter(s, p) == s
    decreases |s|
  {
    if |s| > 0 {
      FilterAll(s[1..], p);
    }
  }

  /** Filtering keeps the elements that pass and only those, counted with multiplicity. */
  lemma {:induction false} FilterMultiset<T>(s: seq<T>, p: T -> bool)
    ensures forall x :: multiset(Filter(s, p))[x] == if p(x) then multiset(s)[x] else 0
    decreases |s|
  {
    if |s| > 0 {
      FilterMultiset(s[1..], p);
      assert s == [s[0]] + s[1..];
    }
  }

  /** A prefix of a subsequence is still a subsequence. */
  lemma {:induction false} PrefixOfSubsequence<T>(a: seq<T>, b: seq<T>, n: nat)
    requires IsSubsequence(a, b) && n <= |a|
    ensures IsSubsequence(a[..n], b)
    decreases |b|
  {
    if n > 0 {
      if a[0] == b[0] && IsSubsequence(a[1..], b[1..]) {
        PrefixOfSubsequence(a[1..], b[1..], n - 1);
        assert a[..n][1..] == a[1..][..n - 1];
      } else {
        PrefixOfSubsequence(a, b[1..], n);
      }
    }
  }

  /** `s.slice(0, n)`. */
  function Take<T>(s: seq<T>, n: nat): (r: seq<T>)
    ensures |r| == if n < |s| then n else |s|
    ensures r <= s
  {
    if n < |s| then s[..n] else s
  }

  // ---------------------------------------------------------------------
  // Sorting
  // ---------------------------------------------------------------------

  /** s is ordered by cmp: no later element compares below an earlier one. */
  ghost predicate SortedBy<T>(s: seq<T>, cmp: (T, T) -> int) {
    forall i, j :: 0 <= i < j < |s| ==> cmp(s[i], s[j]) <= 0
  }

  /** Any two elements of s are comparable one way or the other. */
  ghost predicate ConnexOn<T>(s: seq<T>, cmp: (T, T) -> int) {
    forall a, b :: a in s && b in s ==> cmp(a, b) <= 0 || cmp(b, a) <= 0
  }

  /** "Sorts no later than" is transitive on the elements of s. */
  ghost predicate TransitiveOn<T>(s: seq<T>, cmp: (T, T) -> int) {
    forall a, b, c {:trigger cmp(a, b), cmp(b, c)} ::
      a in s && b in s && c in s && cmp(a, b) <= 0 && cmp(b, c) <= 0 ==> cmp(a, c) <= 0
  }

  ghost predicate TotalPreorderOn<T>(s: seq<T>, cmp: (T, T) -> int) {
    ConnexOn(s, cmp) && TransitiveOn(s, cmp)
  }

  /**
   * Inserts x before the first element it does not sort after. Elements
   * that compare equal keep their relative order, which makes the sort stable.
   */
  function Insert<T>(x: T, ys: seq<T>, cmp: (T, T) -> int): (r: seq<T>)
    ensures multiset(r) == multiset(ys) + multiset{x}
    decreases |ys|
  {
    if |ys| == 0 || cmp(x, ys[0]) <= 0 then [x] + ys
    else
      assert ys == [ys[0]] + ys[1..];
      [ys[0]] + Insert(x, ys[1..], cmp)
  }

  /** `[...s].sort(cmp)`: a stable sort that returns a rearrangement of s. */
  function SortBy<T>(s: seq<T>, cmp: (T, T) -> int): (r: seq<T>)
    ensures multiset(r) == multiset(s)
    ensures |r| == |s|
    decreases |s|
  {
    if |s| == 0 then []
    else
      var rest := SortBy(s[1..], cmp);
      assert s == [s[0]] + s[1..];
      Insert(s[0], rest, cmp)
  }

  lemma SortedTail<T>(ys: seq<T>, cmp: (T, T) -> int)
    requires |ys| > 0 && SortedBy(ys, cmp)
    ensures SortedBy(ys[1..], cmp)
  {
    forall i, j | 0 <= i < j < |ys[1..]|
      ensures cmp(ys[1..][i], ys[1..][j]) <= 0
    {
      assert ys[1..][i] == ys[i + 1] && ys[1..][j] == ys[j + 1];
    }
  }

  lemma SortedCons<T>(y: T, t: seq<T>, cmp: (T, T) -> int)
    requires SortedBy(t, cmp)
    requires forall j :: 0 <= j < |t| ==> cmp(y, t[j]) <= 0
    ensures SortedBy([y] + t, cmp)
  {
    var r := [y] + t;
    forall i, j | 0 <= i < j < |r|
      ensures cmp(r[i], r[j]) <= 0
    {
      assert r[j] == t[j - 1];
      if i > 0 {
        assert r[i] == t[i - 1];
      }
    }
  }

  /** Every element of a is an element of b. */
  ghost predicate Within<T>(a: seq<T>, b: seq<T>) {
    forall y :: y in a ==> y in b
  }

  lemma {:induction false} InsertSorted<T>(x: T, ys: seq<T>, cmp: (T, T) -> int, all: seq<T>)
    requires SortedBy(ys, cmp)
    requires x in all && Within(ys, all)
    requires TotalPreorderOn(all, cmp)
    ensures SortedBy(Insert(x, ys, cmp), cmp)
    decreases |ys|
  {
    if |ys| == 0 {
    } else if cmp(x, ys[0]) <= 0 {
      forall j | 0 <= j < |ys|
        ensures cmp(x, ys[j]) <= 0
      {
        if j > 0 {
          assert cmp(ys[0], ys[j]) <= 0;
          assert ys[0] in all && ys[j] in all;
        }
      }
      SortedCons(x, ys, cmp);
    } else {
      var tail := Insert(x, ys[1..], cmp);
      SortedTail(ys, cmp);
      assert Within(ys[1..], all) by {
        forall y | y in ys[1..]
          ensures y in all
        {
          assert y in ys;
        }
      }
      InsertSorted(x, ys[1..], cmp, all);
      assert ys[0] in all;
      assert cmp(ys[0], x) <= 0;
      forall j | 0 <= j < |tail|
        ensures cmp(ys[0], tail[j]) <= 0
      {
        assert tail[j] in multiset(tail);
        if tail[j] != x {
          assert tail[j] in multiset(ys[1..]);
          var k :| 0 <= k < |ys[1..]| && ys[1..][k] == tail[j];
          assert ys[k + 1] == tail[j];
        }
      }
      SortedCons(ys[0], tail, cmp);
    }
  }

  /** On elements that form a total preorder, the sort's output is ordered. */
  lemma {:induction false} SortBySorted<T>(s: seq<T>, cmp: (T, T) -> int)
    requires TotalPreorderOn(s, cmp)
    ensures SortedBy(SortBy(s, cmp), cmp)
    decreases |s|
  {
    if |s| > 0 {
      var rest := SortBy(s[1..], cmp);
      assert TotalPreorderOn(s[1..], cmp) by {
        assert Within(s[1..], s);
      }
      SortBySorted(s[1..], cmp);
      assert Within(rest, s) by {
        forall y | y in rest
          ensures y in s
        {
          assert y in multiset(rest);
          assert y in multiset(s[1..]);
        }
      }
      InsertSorted(s[0], rest, cmp, s);
    }
  }

  /** When cmp reports every pair of elements as equal, the stable sort keeps the order. */
  lemma {:induction false} SortByNeutral<T>(s: seq<T>, cmp: (T, T) -> int)
    requires forall a, b :: a in s && b in s ==> cmp(a, b) == 0
    ensures SortBy(s, cmp) == s
    decreases |s|
  {
    if |s| > 0 {
      var rest := s[1..];
      forall a, b | a in rest && b in rest ensures cmp(a, b) == 0 {
        assert a in s && b in s;
      }
      SortByNeutral(rest, cmp);
      if |rest| > 0 {
        assert rest[0] in s;
        assert cmp(s[0], rest[0]) <= 0;
      }
      assert Insert(s[0], rest, cmp) == [s[0]] + rest;
      assert [s[0]] + rest == s;
    }
  }
}
