/** Small value types and sequence helpers shared by every part of the model:
    an option type for missing cells, occurrence counts, taking a
    prefix, "keep the first row per key" (pandas `drop_duplicates(keep='first')`
    and the insertion order of a Python dict), and ASCII lower-casing. */
module Basics {

  datatype Option<+T> = None | Some(value: T)

  /** How often `x` occurs in `s`. */
  function Count<T(==)>(s: seq<T>, x: T): (n: nat)
    ensures n == multiset(s)[x]
  {
    if s == [] then 0
    else
      assert s == [s[0]] + s[1..];
      (if s[0] == x then 1 else 0) + Count(s[1..], x)
  }

  /** The first `n` elements of `s`, or all of them (`head(n)`, `[:n]`). */
  function Take<T>(s: seq<T>, n: nat): (r: seq<T>)
    ensures |r| == if |s| <= n then |s| else n
    ensures r == s[..|r|]
  {
    if |s| <= n then s else s[..n]
  }

  ghost predicate NoDup<T>(s: seq<T>) {
    forall i, j :: 0 <= i < j < |s| ==> s[i] != s[j]
  }

  /** Without duplicates, every element occurs once. */
  lemma {:induction false} NoDupCount<T>(s: seq<T>)
    requires NoDup(s)
    ensures forall x :: multiset(s)[x] <= 1
  {
    if s != [] {
      assert s == [s[0]] + s[1..];
      NoDupCount(s[1..]);
      assert s[0] !in s[1..];
    }
  }

  /** A sequence whose elements all occur at most once in some duplicate-free
      sequence has no duplicates either. */
  lemma SubMultisetNoDup<T>(a: seq<T>, b: seq<T>)
    requires multiset(a) <= multiset(b) && NoDup(b)
    ensures NoDup(a)
  {
    NoDupCount(b);
    forall i, j | 0 <= i < j < |a| ensures a[i] != a[j] {
      assert a == a[..j] + a[j..];
      assert multiset(a)[a[j]] == multiset(a[..j])[a[j]] + multiset(a[j..])[a[j]];
      assert a[j] in a[j..] && a[i] in a[..j];
    }
  }

  /** The lists one after the other, as repeated `list.extend` builds them. */
  function Concat<T>(ls: seq<seq<T>>): seq<T>
    decreases |ls|
  {
    if ls == [] then [] else Concat(ls[..|ls| - 1]) + ls[|ls| - 1]
  }

  /** An element is in the concatenation exactly when it is in one of the lists. */
  lemma {:induction false} ConcatMembers<T>(ls: seq<seq<T>>, x: T)
    ensures x in Concat(ls) <==> exists k :: 0 <= k < |ls| && x in ls[k]
    decreases |ls|
  {
    if ls != [] {
      var init := ls[..|ls| - 1];
      ConcatMembers(init, x);
      if x in Concat(init) {
        var k :| 0 <= k < |init| && x in init[k];
        assert ls[k] == init[k];
      }
      if exists k :: 0 <= k < |ls| && x in ls[k] {
        var k :| 0 <= k < |ls| && x in ls[k];
        if k < |init| {
          assert ls[k] == init[k];
        }
      }
    }
  }

  /** Index of the first occurrence of `x` in `s`. */
  function IndexOf<T(==)>(s: seq<T>, x: T): (i: nat)
    requires x in s
    ensures i < |s| && s[i] == x && x !in s[..i]
  {
    if s[0] == x then 0 else 1 + IndexOf(s[1..], x)
  }

  /** In a sequence without duplicates, the first occurrence is the only one. */
  lemma IndexOfNoDup<T>(s: seq<T>, i: nat)
    requires NoDup(s) && i < |s|
    ensures IndexOf(s, s[i]) == i
  {
    var k := IndexOf(s, s[i]);
    assert forall j :: 0 <= j < k ==> s[..k][j] == s[j];
  }

  function Id<T>(x: T): T { x }

  /** Scanning `s` from the left, keep an element only when its key has not
      been seen before: pandas `drop_duplicates(keep='first')` on the key, and
      the key order of a Python dict filled from `s`. */
  function KeepFirst<T, K>(s: seq<T>, key: T -> K, seen: set<K>): (r: seq<T>)
    ensures |r| <= |s|
    ensures forall x :: x in r ==> x in s && key(x) !in seen
  {
    if s == [] then []
    else if key(s[0]) in seen then KeepFirst(s[1..], key, seen)
    else [s[0]] + KeepFirst(s[1..], key, seen + {key(s[0])})
  }

  ghost predicate KeysDistinct<T, K>(s: seq<T>, key: T -> K) {
    forall i, j :: 0 <= i < j < |s| ==> key(s[i]) != key(s[j])
  }

  /** Each kept element is one of the elements scanned. */
  lemma {:induction false} KeepFirstSub<T, K>(s: seq<T>, key: T -> K, seen: set<K>)
    ensures multiset(KeepFirst(s, key, seen)) <= multiset(s)
  {
    if s != [] {
      assert s == [s[0]] + s[1..];
      KeepFirstSub(s[1..], key, seen);
      KeepFirstSub(s[1..], key, seen + {key(s[0])});
    }
  }

  /** Reordering, or keeping some of the elements, keeps the keys distinct. */
  lemma KeysDistinctSub<T, K>(s: seq<T>, t: seq<T>, key: T -> K)
    requires KeysDistinct(s, key) && multiset(t) <= multiset(s)
    ensures KeysDistinct(t, key)
  {
    forall m, n | 0 <= m < n < |t| ensures key(t[m]) != key(t[n]) {
      assert t[m] in multiset(s) && t[n] in multiset(s);
      var a :| 0 <= a < |s| && s[a] == t[m];
      var b :| 0 <= b < |s| && s[b] == t[n];
      if t[m] == t[n] {
        assert NoDup(s);
        NoDupCount(s);
        TwoPositionsCount(t, m, n);
      }
    }
  }

  /** The kept elements have pairwise different keys. */
  lemma {:induction false} KeepFirstKeysDistinct<T, K>(s: seq<T>, key: T -> K, seen: set<K>)
    ensures KeysDistinct(KeepFirst(s, key, seen), key)
  {
    if s == [] {
    } else if key(s[0]) in seen {
      KeepFirstKeysDistinct(s[1..], key, seen);
      assert KeepFirst(s, key, seen) == KeepFirst(s[1..], key, seen);
    } else {
      var seen' := seen + {key(s[0])};
      var r' := KeepFirst(s[1..], key, seen');
      KeepFirstKeysDistinct(s[1..], key, seen');
      var r := [s[0]] + r';
      assert KeepFirst(s, key, seen) == r;
      forall i, j | 0 <= i < j < |r| ensures key(r[i]) != key(r[j]) {
        assert r[j] == r'[j - 1] && r'[j - 1] in r';
        if i > 0 {
          assert r[i] == r'[i - 1];
        } else {
          assert r[0] == s[0];
          assert key(r'[j - 1]) !in seen';
          assert key(r'[j - 1]) != key(s[0]);
        }
      }
    }
  }

  /** Every key of `s` that was not already seen is represented in the result. */
  lemma {:induction false} KeepFirstCovers<T, K>(s: seq<T>, key: T -> K, seen: set<K>)
    ensures var r := KeepFirst(s, key, seen);
      forall x :: x in s && key(x) !in seen ==> exists y :: y in r && key(y) == key(x)
  {
    if s != [] {
      var r := KeepFirst(s, key, seen);
      if key(s[0]) in seen {
        KeepFirstCovers(s[1..], key, seen);
      } else {
        KeepFirstCovers(s[1..], key, seen + {key(s[0])});
        assert r[0] == s[0];
        forall x | x in s && key(x) !in seen
          ensures exists y :: y in r && key(y) == key(x)
        {
          if key(x) == key(s[0]) {
            assert r[0] in r;
          } else {
            assert x in s[1..];
            var y :| y in KeepFirst(s[1..], key, seen + {key(s[0])}) && key(y) == key(x);
            assert y in r;
          }
        }
      }
    }
  }

  /** The same, for one element of `s`, starting from nothing seen. */
  lemma KeepFirstRepresents<T, K>(s: seq<T>, key: T -> K, x: T)
    requires x in s
    ensures exists y :: y in KeepFirst(s, key, {}) && key(y) == key(x)
  {
    KeepFirstCovers(s, key, {});
  }

  /** Each kept element is the first element of `s` with its key. */
  lemma {:induction false} KeepFirstEarliest<T, K>(s: seq<T>, key: T -> K, seen: set<K>)
    ensures forall x :: x in KeepFirst(s, key, seen) ==>
      exists i :: 0 <= i < |s| && s[i] == x && forall j :: 0 <= j < i ==> key(s[j]) != key(x)
  {
    if s != [] {
      var seen' := if key(s[0]) in seen then seen else seen + {key(s[0])};
      KeepFirstEarliest(s[1..], key, seen');
      forall x | x in KeepFirst(s, key, seen)
        ensures exists i :: 0 <= i < |s| && s[i] == x && forall j :: 0 <= j < i ==> key(s[j]) != key(x)
      {
        if key(s[0]) !in seen && x == s[0] {
          assert s[0] == x;
        } else {
          assert x in KeepFirst(s[1..], key, seen');
          var i :| 0 <= i < |s[1..]| && s[1..][i] == x && forall j :: 0 <= j < i ==> key(s[1..][j]) != key(x);
          assert key(x) !in seen';
          assert forall j :: 0 <= j < i + 1 ==> key(s[j]) != key(x) by {
            forall j | 0 <= j < i + 1 ensures key(s[j]) != key(x) {
              if j > 0 {
                assert s[j] == s[1..][j - 1];
              }
            }
          }
          assert s[i + 1] == x;
        }
      }
    }
  }

  /** Two different members make a sequence at least two long. */
  lemma TwoMembers<T>(s: seq<T>, x: T, y: T)
    requires x in s && y in s && x != y
    ensures |s| >= 2
  {
    var i :| 0 <= i < |s| && s[i] == x;
    var k :| 0 <= k < |s| && s[k] == y;
    assert i != k;
  }

  /** A value at two positions occurs at least twice. */
  lemma TwoPositionsCount<T>(s: seq<T>, a: nat, b: nat)
    requires a < b < |s| && s[a] == s[b]
    ensures multiset(s)[s[a]] >= 2
  {
    assert s == s[..b] + s[b..];
    assert s[..b][a] == s[a] && s[b..][0] == s[a];
    assert s[a] in multiset(s[..b]) && s[a] in multiset(s[b..]);
  }

  /** A value that occurs at least twice sits at two positions. */
  lemma {:induction false} CountTwoPositions<T>(s: seq<T>, v: T)
    requires multiset(s)[v] >= 2
    ensures exists a, b :: 0 <= a < b < |s| && s[a] == v && s[b] == v
  {
    assert s == [s[0]] + s[1..];
    if s[0] == v {
      assert v in multiset(s[1..]);
      var b :| 0 <= b < |s[1..]| && s[1..][b] == v;
      assert s[b + 1] == v;
    } else {
      CountTwoPositions(s[1..], v);
      var a, b :| 0 <= a < b < |s[1..]| && s[1..][a] == v && s[1..][b] == v;
      assert s[a + 1] == v && s[b + 1] == v;
    }
  }

  /** Appending one element to the scanned sequence appends it to the result
      exactly when it is new. */
  lemma {:induction false} KeepFirstSnoc<T>(s: seq<T>, x: T, seen: set<T>)
    ensures KeepFirst(s + [x], Id, seen) == KeepFirst(s, Id, seen) + (if x in seen || x in s then [] else [x])
  {
    if s == [] {
      assert [] + [x] == [x];
    } else {
      assert (s + [x])[1..] == s[1..] + [x];
      var seen' := if Id(s[0]) in seen then seen else seen + {Id(s[0])};
      KeepFirstSnoc(s[1..], x, seen');
      assert s == [s[0]] + s[1..];
    }
  }

  /** Every element of `r` occurs in `s`, and they appear in `r` in the order
      of their first occurrence in `s`. */
  ghost predicate InFirstOccurrenceOrder<T>(r: seq<T>, s: seq<T>) {
    && (forall x :: x in r ==> x in s)
    && (forall i, j :: 0 <= i < j < |r| ==> IndexOf(s, r[i]) < IndexOf(s, r[j]))
  }

  /** With the identity as key, the result lists the distinct elements of `s`
      in the order of their first occurrence. */
  lemma {:induction false} KeepFirstOrder<T>(s: seq<T>, seen: set<T>)
    ensures InFirstOccurrenceOrder(KeepFirst(s, Id, seen), s)
  {
    if s != [] {
      var x := s[0];
      var seen' := if Id(x) in seen then seen else seen + {Id(x)};
      var r' := KeepFirst(s[1..], Id, seen');
      var r := KeepFirst(s, Id, seen);
      assert InFirstOccurrenceOrder(r', s[1..]) by {
        KeepFirstOrder(s[1..], seen');
      }
      forall y | y in r' ensures y in s[1..] && y != x {
        assert Id(y) !in seen';
      }
      if Id(x) in seen {
        assert r == r';
        forall i, j | 0 <= i < j < |r| ensures IndexOf(s, r[i]) < IndexOf(s, r[j]) {
          IndexOfTail(s, r[i]);
          IndexOfTail(s, r[j]);
        }
      } else {
        assert r == [x] + r';
        forall i, j | 0 <= i < j < |r| ensures IndexOf(s, r[i]) < IndexOf(s, r[j]) {
          assert r[j] == r'[j - 1];
          IndexOfTail(s, r[j]);
          if i > 0 {
            assert r[i] == r'[i - 1];
            IndexOfTail(s, r[i]);
          }
        }
      }
    }
  }

  /** An element of the tail other than the head is found one place later
      in the whole sequence. */
  lemma IndexOfTail<T>(s: seq<T>, y: T)
    requires |s| > 0 && y in s[1..] && y != s[0]
    ensures IndexOf(s, y) == 1 + IndexOf(s[1..], y)
  {
  }

  /** Python's `str.lower()` restricted to ASCII letters. */
  function LowerChar(c: char): char {
    if 'A' <= c <= 'Z' then (c as int + 32) as char else c
  }

  function Lower(s: string): (r: string)
    ensures |r| == |s|
    ensures forall i :: 0 <= i < |s| ==> r[i] == LowerChar(s[i])
  {
    if s == [] then [] else [LowerChar(s[0])] + Lower(s[1..])
  }

  /** Lower-casing twice is lower-casing once. */
  lemma LowerIdempotent(s: string)
    ensures Lower(Lower(s)) == Lower(s)
  {
    assert forall i :: 0 <= i < |s| ==> LowerChar(LowerChar(s[i])) == LowerChar(s[i]);
  }
}
