/**
 * Query-builder operations over an in-memory table: where-filters, sums,
 * counts and orderBy.
 */
module Seqs {
  import opened Wrappers

  /** The rows of xs that satisfy p, in their original order. */
  function Filter<T(!new)>(xs: seq<T>, p: T -> bool): (r: seq<T>)
    ensures |r| <= |xs|
    ensures forall x :: x in r <==> x in xs && p(x)
    ensures forall i :: 0 <= i < |r| ==> p(r[i])
  {
    if xs == [] then [] else (if p(xs[0]) then [xs[0]] else []) + Filter(xs[1..], p)
  }

  lemma {:induction false} FilterSubMultiset<T(!new)>(xs: seq<T>, p: T -> bool)
    ensures multiset(Filter(xs, p)) <= multiset(xs)
  {
    if xs != [] {
      assert xs == [xs[0]] + xs[1..];
      FilterSubMultiset(xs[1..], p);
    }
  }

  lemma {:induction false} FilterAll<T(!new)>(xs: seq<T>, p: T -> bool)
    requires forall x :: x in xs ==> p(x)
    ensures Filter(xs, p) == xs
  {
    if xs != [] {
      FilterAll(xs[1..], p);
    }
  }

  /** A stronger condition keeps no more rows than a weaker one. */
  lemma {:induction false} FilterCountMonotone<T(!new)>(xs: seq<T>, p: T -> bool, q: T -> bool)
    requires forall x :: x in xs && p(x) ==> q(x)
    ensures |Filter(xs, p)| <= |Filter(xs, q)|
  {
    if xs != [] {
      FilterCountMonotone(xs[1..], p, q);
    }
  }

  lemma FilterNone<T(!new)>(xs: seq<T>, p: T -> bool)
    requires forall x :: x in xs ==> !p(x)
    ensures Filter(xs, p) == []
  {
  }

  lemma {:induction false} FilterAppend<T(!new)>(xs: seq<T>, ys: seq<T>, p: T -> bool)
    ensures Filter(xs + ys, p) == Filter(xs, p) + Filter(ys, p)
  {
    if xs == [] {
      assert xs + ys == ys;
    } else {
      assert (xs + ys)[1..] == xs[1..] + ys;
      FilterAppend(xs[1..], ys, p);
    }
  }

  /** sum(column) over the rows of xs. */
  function Sum<T>(xs: seq<T>, f: T -> int): int
  {
    if xs == [] then 0 else f(xs[0]) + Sum(xs[1..], f)
  }

  /** Taking one more element of s appends s[i]. */
  lemma TakeSnoc<T>(s: seq<T>, i: nat)
    requires i < |s|
    ensures s[..i + 1] == s[..i] + [s[i]]
  {
  }

  lemma SumCons<T>(x: T, r: seq<T>, f: T -> int)
    ensures Sum([x] + r, f) == f(x) + Sum(r, f)
  {
    assert ([x] + r)[1..] == r;
  }

  /** Of non-negative values, the sum over the rows meeting a stronger condition is the smaller. */
  lemma {:induction false} SumFilterMonotone<T(!new)>(xs: seq<T>, p: T -> bool, q: T -> bool, f: T -> int)
    requires forall x :: x in xs ==> f(x) >= 0
    requires forall x :: x in xs && p(x) ==> q(x)
    ensures 0 <= Sum(Filter(xs, p), f) <= Sum(Filter(xs, q), f)
  {
    if xs != [] {
      var h, t := xs[0], xs[1..];
      assert forall x :: x in t ==> x in xs;
      SumFilterMonotone(t, p, q, f);
      assert Filter(xs, p) == (if p(h) then [h] else []) + Filter(t, p);
      assert Filter(xs, q) == (if q(h) then [h] else []) + Filter(t, q);
      if p(h) { SumCons(h, Filter(t, p), f); } else { assert Filter(xs, p) == Filter(t, p); }
      if q(h) { SumCons(h, Filter(t, q), f); } else { assert Filter(xs, q) == Filter(t, q); }
    }
  }

  /** first(): the first row of xs that satisfies p. */
  function First<T>(xs: seq<T>, p: T -> bool): (r: Option<T>)
    ensures r.None? <==> forall i :: 0 <= i < |xs| ==> !p(xs[i])
    ensures r.Some? ==> exists k :: 0 <= k < |xs| && xs[k] == r.value && p(xs[k]) &&
                                    forall i :: 0 <= i < k ==> !p(xs[i])
  {
    if xs == [] then None
    else if p(xs[0]) then Some(xs[0])
    else
      var r := First(xs[1..], p);
      assert r.Some? ==> exists k :: 0 <= k < |xs[1..]| && xs[1..][k] == r.value && p(xs[1..][k]) &&
                                      forall i :: 0 <= i < k ==> !p(xs[1..][i]);
      assert r.Some? ==> exists k :: 1 <= k < |xs| && xs[k] == r.value && p(xs[k]) &&
                                      forall i :: 0 <= i < k ==> !p(xs[i]);
      r
  }

  /** first() over a concatenation whose first part has no match. */
  lemma {:induction false} FirstSkips<T>(xs: seq<T>, ys: seq<T>, p: T -> bool)
    requires forall i :: 0 <= i < |xs| ==> !p(xs[i])
    ensures First(xs + ys, p) == First(ys, p)
  {
    if xs == [] {
      assert xs + ys == ys;
    } else {
      assert (xs + ys)[0] == xs[0];
      assert (xs + ys)[1..] == xs[1..] + ys;
      FirstSkips(xs[1..], ys, p);
    }
  }

  ghost predicate SortedBy<T>(xs: seq<T>, le: (T, T) -> bool)
  {
    forall i, j :: 0 <= i < j < |xs| ==> le(xs[i], xs[j])
  }

  /** An ordering in which any two rows compare; ties are allowed. */
  ghost predicate TotalPreorder<T(!new)>(le: (T, T) -> bool)
  {
    && (forall a, b :: le(a, b) || le(b, a))
    && (forall a, b, c :: le(a, b) && le(b, c) ==> le(a, c))
  }

  function Insert<T(!new)>(x: T, s: seq<T>, le: (T, T) -> bool): (r: seq<T>)
    requires TotalPreorder(le) && SortedBy(s, le)
    ensures SortedBy(r, le)
    ensures multiset(r) == multiset(s) + multiset{x}
    ensures forall y :: y in r <==> y == x || y in s
  {
    if s == [] || le(x, s[0]) then
      [x] + s
    else
      var rest := Insert(x, s[1..], le);
      HeadBelowRest(s, x, rest, le);
      assert s == [s[0]] + s[1..];
      [s[0]] + rest
  }

  /** The head of a sorted s that x does not precede comes before x and everything of s after it. */
  lemma HeadBelowRest<T(!new)>(s: seq<T>, x: T, rest: seq<T>, le: (T, T) -> bool)
    requires TotalPreorder(le) && SortedBy(s, le) && s != [] && !le(x, s[0])
    requires SortedBy(rest, le) && forall y :: y in rest <==> y == x || y in s[1..]
    ensures SortedBy([s[0]] + rest, le)
  {
    var r := [s[0]] + rest;
    forall k | 0 <= k < |rest|
      ensures le(s[0], rest[k])
    {
      assert rest[k] in rest;
      if rest[k] != x {
        var j :| 0 <= j < |s[1..]| && s[1..][j] == rest[k];
        assert s[1 + j] == rest[k];
      }
    }
    assert forall i, j :: 0 < i < j < |r| ==> r[i] == rest[i - 1] && r[j] == rest[j - 1];
  }

  /** orderBy: the rows of xs rearranged so that le holds between every earlier and later row. */
  function SortBy<T(!new)>(xs: seq<T>, le: (T, T) -> bool): (r: seq<T>)
    requires TotalPreorder(le)
    ensures SortedBy(r, le)
    ensures multiset(r) == multiset(xs)
    ensures |r| == |xs|
    ensures forall x :: x in r <==> x in xs
  {
    if xs == [] then []
    else
      assert xs == [xs[0]] + xs[1..];
      Insert(xs[0], SortBy(xs[1..], le), le)
  }

  lemma SortedByPrefix<T>(xs: seq<T>, n: nat, le: (T, T) -> bool)
    requires SortedBy(xs, le) && n <= |xs|
    ensures SortedBy(xs[..n], le)
  {
  }

  /** In a sorted sequence every element of the first n is ordered before every element after them. */
  lemma SortedPrefixIsLeast<T>(s: seq<T>, n: nat, le: (T, T) -> bool)
    requires SortedBy(s, le) && n <= |s|
    ensures multiset(s) == multiset(s[..n]) + multiset(s[n..])
    ensures forall x, y :: x in s[..n] && y in s[n..] ==> le(x, y)
  {
    assert s == s[..n] + s[n..];
    forall x, y | x in s[..n] && y in s[n..] ensures le(x, y) {
      var i :| 0 <= i < n && s[..n][i] == x;
      var j :| 0 <= j < |s| - n && s[n..][j] == y;
      assert s[i] == x && s[n + j] == y;
    }
  }

  /**
   * orderBy(...)->take(n): the first n rows in the order le (all of them when
   * there are fewer). Every row left out is ordered after every row kept.
   */
  function FirstInOrder<T(!new)>(xs: seq<T>, le: (T, T) -> bool, n: nat): (r: seq<T>)
    requires TotalPreorder(le)
    ensures |r| == (if |xs| < n then |xs| else n)
    ensures SortedBy(r, le)
    ensures multiset(r) <= multiset(xs)
    ensures forall x :: x in r ==> x in xs
    ensures forall x, y :: x in r && y in multiset(xs) - multiset(r) ==> le(x, y)
  {
    var sorted := SortBy(xs, le);
    var k := if |sorted| < n then |sorted| else n;
    SortedPrefixFacts(xs, sorted, k, le);
    assert |xs| == |multiset(xs)| == |multiset(sorted)| == |sorted|;
    sorted[..k]
  }

  lemma SortedPrefixFacts<T>(xs: seq<T>, sorted: seq<T>, k: nat, le: (T, T) -> bool)
    requires SortedBy(sorted, le) && multiset(sorted) == multiset(xs) && k <= |sorted|
    ensures SortedBy(sorted[..k], le)
    ensures multiset(sorted[..k]) <= multiset(xs)
    ensures forall x :: x in sorted[..k] ==> x in xs
    ensures forall x, y :: x in sorted[..k] && y in multiset(xs) - multiset(sorted[..k]) ==> le(x, y)
  {
    var r := sorted[..k];
    SortedPrefixIsLeast(sorted, k, le);
    assert multiset(xs) - multiset(r) == multiset(sorted[k..]);
    forall x | x in r ensures x in xs {
      assert x in multiset(sorted);
    }
    forall x, y | x in r && y in multiset(xs) - multiset(r) ensures le(x, y) {
      assert y in sorted[k..];
    }
  }

  /** Lexicographic order of strings by code point. */
  predicate LexLe(a: string, b: string)
  {
    a == [] || (b != [] && (a[0] < b[0] || (a[0] == b[0] && LexLe(a[1..], b[1..]))))
  }

  lemma {:induction false} LexLeTotal(a: string, b: string)
    ensures LexLe(a, b) || LexLe(b, a)
  {
    if a != [] && b != [] && a[0] == b[0] {
      LexLeTotal(a[1..], b[1..]);
    }
  }

  lemma {:induction false} LexLeTransitive(a: string, b: string, c: string)
    requires LexLe(a, b) && LexLe(b, c)
    ensures LexLe(a, c)
  {
    if a != [] && b != [] && c != [] && a[0] == b[0] && b[0] == c[0] {
      LexLeTransitive(a[1..], b[1..], c[1..]);
    }
  }

  /** Ordering rows by a string column (orderBy('name')) is a total preorder. */
  lemma ByStringKey<T(!new)>(le: (T, T) -> bool, key: T -> string)
    requires forall a, b :: le(a, b) <==> LexLe(key(a), key(b))
    ensures TotalPreorder(le)
  {
    forall a, b ensures le(a, b) || le(b, a) {
      LexLeTotal(key(a), key(b));
    }
    forall a, b, c | le(a, b) && le(b, c) ensures le(a, c) {
      LexLeTransitive(key(a), key(b), key(c));
    }
  }
}
