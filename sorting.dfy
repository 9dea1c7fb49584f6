/** Sorting by a comparator `le` ("a may come before b").

    The model uses one sort, a stable insertion sort, for every sort in the
    source. Where the source sorts with pandas (`sort_values`, `nlargest`, whose
    default algorithm is not stable) the contracts only use that the result is
    ordered and a permutation of the input; where it sorts with Python's
    `sorted` (stable, also with `reverse=True`) they also use stability. */
module Sorting {
  import opened Basics

  /** `le` is total and transitive: a valid sort order. */
  ghost predicate TotalPreorder<T(!new)>(le: (T, T) -> bool) {
    && (forall a, b :: le(a, b) || le(b, a))
    && (forall a, b, c :: le(a, b) && le(b, c) ==> le(a, c))
  }

  ghost predicate SortedBy<T>(s: seq<T>, le: (T, T) -> bool) {
    forall i, j :: 0 <= i < j < |s| ==> le(s[i], s[j])
  }

  /** Insert `x` before the first element it may precede. */
  function Insert<T>(x: T, s: seq<T>, le: (T, T) -> bool): (r: seq<T>)
    ensures |r| == |s| + 1
    ensures multiset(r) == multiset(s) + multiset{x}
  {
    if s == [] || le(x, s[0]) then [x] + s
    else
      assert s == [s[0]] + s[1..];
      [s[0]] + Insert(x, s[1..], le)
  }

  /** Insertion sort; the result is a permutation of the input. */
  function SortBy<T>(s: seq<T>, le: (T, T) -> bool): (r: seq<T>)
    ensures |r| == |s|
    ensures multiset(r) == multiset(s)
  {
    if s == [] then []
    else
      assert s == [s[0]] + s[1..];
      Insert(s[0], SortBy(s[1..], le), le)
  }

  lemma {:induction false} InsertSorted<T(!new)>(x: T, s: seq<T>, le: (T, T) -> bool)
    requires TotalPreorder(le) && SortedBy(s, le)
    ensures SortedBy(Insert(x, s, le), le)
  {
    if s == [] || le(x, s[0]) {
      var r := [x] + s;
      forall i, j | 0 <= i < j < |r| ensures le(r[i], r[j]) {
        if i == 0 && j > 1 {
          assert le(x, s[0]) && le(s[0], s[j - 1]);
        }
      }
    } else {
      var t := Insert(x, s[1..], le);
      InsertSorted(x, s[1..], le);
      assert le(s[0], x);
      var r := [s[0]] + t;
      forall y | y in t ensures le(s[0], y) {
        assert y in multiset(t);
        if y != x {
          assert y in s[1..];
        }
      }
      forall i, j | 0 <= i < j < |r| ensures le(r[i], r[j]) {
        if i == 0 {
          assert r[j] == t[j - 1] && t[j - 1] in t;
        } else {
          assert r[i] == t[i - 1] && r[j] == t[j - 1];
        }
      }
    }
  }

  /** The sort puts its result in order. */
  lemma {:induction false} SortBySorted<T(!new)>(s: seq<T>, le: (T, T) -> bool)
    requires TotalPreorder(le)
    ensures SortedBy(SortBy(s, le), le)
  {
    if s != [] {
      SortBySorted(s[1..], le);
      InsertSorted(s[0], SortBy(s[1..], le), le);
    }
  }

  /** The elements of `s` equivalent to `c` under `le`, in their order in `s`. */
  function TiedWith<T>(s: seq<T>, c: T, le: (T, T) -> bool): seq<T> {
    if s == [] then []
    else (if le(s[0], c) && le(c, s[0]) then [s[0]] else []) + TiedWith(s[1..], c, le)
  }

  lemma {:induction false} TiedWithAppend<T>(a: seq<T>, b: seq<T>, c: T, le: (T, T) -> bool)
    ensures TiedWith(a + b, c, le) == TiedWith(a, c, le) + TiedWith(b, c, le)
  {
    if a != [] {
      TiedWithAppend(a[1..], b, c, le);
      assert (a + b)[1..] == a[1..] + b;
    } else {
      assert a + b == b;
    }
  }

  /** Two neighbours that are not both tied with `c` may swap places. */
  lemma SwapUntied<T>(x: T, y: T, rest: seq<T>, c: T, le: (T, T) -> bool)
    requires !(le(x, c) && le(c, x) && le(y, c) && le(c, y))
    ensures TiedWith([y] + ([x] + rest), c, le) == TiedWith([x] + ([y] + rest), c, le)
  {
    assert ([y] + ([x] + rest))[1..] == [x] + rest;
    assert ([x] + ([y] + rest))[1..] == [y] + rest;
    assert ([x] + rest)[1..] == rest;
    assert ([y] + rest)[1..] == rest;
  }

  lemma {:induction false} InsertStable<T(!new)>(x: T, s: seq<T>, c: T, le: (T, T) -> bool)
    requires TotalPreorder(le)
    ensures TiedWith(Insert(x, s, le), c, le) == TiedWith([x] + s, c, le)
  {
    if s != [] && !le(x, s[0]) {
      var rest := Insert(x, s[1..], le);
      InsertStable(x, s[1..], c, le);
      // x and s[0] are not equivalent, so at most one of them is tied with c
      assert !(le(x, c) && le(c, s[0]));
      SwapUntied(x, s[0], s[1..], c, le);
      TiedWithAppend([s[0]], rest, c, le);
      TiedWithAppend([s[0]], [x] + s[1..], c, le);
      assert s == [s[0]] + s[1..];
    }
  }

  /** Stability: the elements tied with any `c` keep their relative order. */
  lemma {:induction false} SortByStable<T(!new)>(s: seq<T>, c: T, le: (T, T) -> bool)
    requires TotalPreorder(le)
    ensures TiedWith(SortBy(s, le), c, le) == TiedWith(s, c, le)
  {
    if s != [] {
      SortByStable(s[1..], c, le);
      InsertStable(s[0], SortBy(s[1..], le), c, le);
      TiedWithAppend([s[0]], SortBy(s[1..], le), c, le);
      TiedWithAppend([s[0]], s[1..], c, le);
      assert s == [s[0]] + s[1..];
    }
  }

  /** The first `n` elements of `s` in the order `le`. */
  function Top<T>(s: seq<T>, n: nat, le: (T, T) -> bool): (r: seq<T>)
    ensures |r| == if |s| <= n then |s| else n
    ensures multiset(r) <= multiset(s)
  {
    var sorted := SortBy(s, le);
    assert sorted == Take(sorted, n) + sorted[|Take(sorted, n)|..];
    Take(sorted, n)
  }

  /** Every kept element is an element of `s`. */
  lemma TopIn<T>(s: seq<T>, n: nat, le: (T, T) -> bool)
    ensures forall x :: x in Top(s, n, le) ==> x in s
  {
    forall x | x in Top(s, n, le) ensures x in s {
      assert x in multiset(Top(s, n, le));
    }
  }

  /** The kept elements are in order, and every element left out may come
      after every element kept. */
  lemma TopDominates<T(!new)>(s: seq<T>, n: nat, le: (T, T) -> bool)
    requires TotalPreorder(le)
    ensures SortedBy(Top(s, n, le), le)
    ensures forall y, x :: y in Top(s, n, le) && x in multiset(s) - multiset(Top(s, n, le)) ==> le(y, x)
  {
    var sorted := SortBy(s, le);
    var top := Top(s, n, le);
    var k := |top|;
    assert top == sorted[..k];
    assert SortedBy(sorted, le) by {
      SortBySorted(s, le);
    }
    TopRest(s, n, le);
    forall y, x | y in top && x in multiset(s) - multiset(top) ensures le(y, x) {
      var i :| 0 <= i < k && top[i] == y;
      var j :| 0 <= j < |sorted| - k && sorted[k..][j] == x;
      assert sorted[i] == y && sorted[k + j] == x;
      assert i < k + j;
      assert le(sorted[i], sorted[k + j]);
    }
  }

  /** What `Top` leaves out is the rest of the sorted sequence. */
  lemma TopRest<T>(s: seq<T>, n: nat, le: (T, T) -> bool)
    ensures forall x :: x in multiset(s) - multiset(Top(s, n, le)) ==> x in SortBy(s, le)[|Top(s, n, le)|..]
  {
    var sorted := SortBy(s, le);
    var top := Top(s, n, le);
    var k := |top|;
    assert top == sorted[..k];
    assert sorted == top + sorted[k..];
    assert multiset(s) - multiset(top) == multiset(sorted[k..]);
  }

  /** The elements tied with `c` among the first `n` are the first of those
      tied with `c` in the input, in their input order. */
  lemma TopTiedPrefix<T(!new)>(s: seq<T>, n: nat, c: T, le: (T, T) -> bool)
    requires TotalPreorder(le)
    ensures TiedWith(Top(s, n, le), c, le) <= TiedWith(s, c, le)
  {
    var sorted := SortBy(s, le);
    var top := Top(s, n, le);
    assert sorted == top + sorted[|top|..];
    TiedWithAppend(top, sorted[|top|..], c, le);
    SortByStable(s, c, le);
  }
}
