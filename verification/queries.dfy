/** The pieces of the ORM's query language the views use, over tables held
    as sequences of rows: lookup by primary key, `filter`, `order_by` and
    slicing. */
module Queries {
  import opened Wrappers

  /** The primary-key column of a table holds no value twice. */
  ghost predicate UniqueKeys<T>(s: seq<T>, key: T -> int) {
    forall i, j :: 0 <= i < j < |s| ==> key(s[i]) != key(s[j])
  }

  /** `get_object_or_404(Model, pk=k)` without the 404: the first row whose
      key is `k`, if any. */
  function Find<T>(s: seq<T>, key: T -> int, k: int): (r: Option<T>)
    ensures r.Some? ==> r.value in s && key(r.value) == k
    ensures r.None? <==> forall x :: x in s ==> key(x) != k
  {
    if |s| == 0 then None
    else if key(s[0]) == k then Some(s[0])
    else Find(s[1..], key, k)
  }

  /** With unique keys, the row `Find` returns is the only row with that key. */
  lemma {:induction false} FindUnique<T>(s: seq<T>, key: T -> int, x: T)
    requires UniqueKeys(s, key)
    requires x in s
    ensures Find(s, key, key(x)) == Some(x)
  {
    if s[0] != x {
      assert x in s[1..];
      assert UniqueKeys(s[1..], key) by {
        forall i, j | 0 <= i < j < |s[1..]| ensures key(s[1..][i]) != key(s[1..][j]) {
          assert s[1..][i] == s[i + 1] && s[1..][j] == s[j + 1];
        }
      }
      var k :| 0 <= k < |s| && s[k] == x;
      assert k > 0;
      FindUnique(s[1..], key, x);
    }
  }

  /** With unique keys no row occurs twice. */
  lemma {:induction false} UniqueKeysOnce<T>(s: seq<T>, key: T -> int, x: T)
    requires UniqueKeys(s, key)
    ensures multiset(s)[x] <= 1
  {
    if |s| > 0 {
      var rest := s[1..];
      assert s == [s[0]] + rest;
      assert UniqueKeys(rest, key) by {
        forall i, j | 0 <= i < j < |rest| ensures key(rest[i]) != key(rest[j]) {
          assert rest[i] == s[i + 1] && rest[j] == s[j + 1];
        }
      }
      UniqueKeysOnce(rest, key, x);
      if s[0] == x {
        forall k | 0 <= k < |rest| ensures rest[k] != x {
          assert rest[k] == s[k + 1];
        }
      }
    }
  }

  /** A row at two positions is counted at least twice. */
  lemma TwiceInMultiset<T>(s: seq<T>, i: nat, j: nat)
    requires i < j < |s| && s[i] == s[j]
    ensures multiset(s)[s[i]] >= 2
  {
    assert s == s[..i] + [s[i]] + s[i + 1..j] + [s[j]] + s[j + 1..];
  }

  /** Rows drawn from a table with unique keys, each at most as often as
      there, have unique keys too: a filtered or sorted query result keeps
      the primary key. */
  lemma UniqueKeysSubMultiset<T>(s: seq<T>, t: seq<T>, key: T -> int)
    requires UniqueKeys(s, key)
    requires forall x :: multiset(t)[x] <= multiset(s)[x]
    ensures UniqueKeys(t, key)
  {
    forall i, j | 0 <= i < j < |t| ensures key(t[i]) != key(t[j]) {
      assert t[i] in multiset(t) && t[j] in multiset(t);
      assert t[i] in s && t[j] in s;
      if t[i] == t[j] {
        TwiceInMultiset(t, i, j);
        UniqueKeysOnce(s, key, t[i]);
      }
    }
  }

  /** `queryset.filter(p)`: keeps exactly the rows satisfying `p`, each as
      often as it occurs, in table order. */
  function Filter<T(!new)>(s: seq<T>, p: T -> bool): (r: seq<T>)
    ensures |r| <= |s|
    ensures forall x :: multiset(r)[x] == (if p(x) then multiset(s)[x] else 0)
    ensures forall x :: x in r <==> x in s && p(x)
  {
    if |s| == 0 then []
    else
      var rest := Filter(s[1..], p);
      assert s == [s[0]] + s[1..];
      if p(s[0]) then [s[0]] + rest else rest
  }

  /** The lexicographic order on the pairs that stand for an `order_by` of
      one or two columns; a descending column is a negated key. */
  predicate LexLe(a: (int, int), b: (int, int)) {
    a.0 < b.0 || (a.0 == b.0 && a.1 <= b.1)
  }

  /** The rows appear in the order `order_by` promises. */
  ghost predicate SortedBy<T>(s: seq<T>, key: T -> (int, int)) {
    forall i, j :: 0 <= i < j < |s| ==> LexLe(key(s[i]), key(s[j]))
  }

  /** Inserts `x` into a sorted sequence, before the first row not below it. */
  function Insert<T>(x: T, s: seq<T>, key: T -> (int, int)): (r: seq<T>)
    requires SortedBy(s, key)
    ensures SortedBy(r, key)
    ensures multiset(r) == multiset(s) + multiset{x}
    ensures |r| == |s| + 1
  {
    if |s| == 0 then [x]
    else if LexLe(key(x), key(s[0])) then [x] + s
    else
      var rest := Insert(x, s[1..], key);
      assert s == [s[0]] + s[1..];
      assert forall k :: 0 <= k < |s[1..]| ==> LexLe(key(s[0]), key(s[1..][k])) by {
        forall k | 0 <= k < |s[1..]| ensures LexLe(key(s[0]), key(s[1..][k])) {
          assert s[1..][k] == s[k + 1];
        }
      }
      AllAbove(s[0], x, s[1..], rest, key);
      ConsSorted(s[0], rest, key);
      [s[0]] + rest
  }

  /** A lower bound of `x` and of every row of `s` bounds every row of any
      rearrangement of `s` with `x` added. */
  lemma {:induction false} AllAbove<T>(a: T, x: T, s: seq<T>, r: seq<T>, key: T -> (int, int))
    requires multiset(r) == multiset(s) + multiset{x}
    requires LexLe(key(a), key(x))
    requires forall k :: 0 <= k < |s| ==> LexLe(key(a), key(s[k]))
    ensures forall k :: 0 <= k < |r| ==> LexLe(key(a), key(r[k]))
  {
    forall k | 0 <= k < |r| ensures LexLe(key(a), key(r[k])) {
      assert r[k] in multiset(r);
      if r[k] != x {
        assert r[k] in multiset(s);
        var m :| 0 <= m < |s| && s[m] == r[k];
      }
    }
  }

  /** A sorted sequence stays sorted behind a row that bounds all of it. */
  lemma {:induction false} ConsSorted<T>(a: T, r: seq<T>, key: T -> (int, int))
    requires SortedBy(r, key)
    requires forall k :: 0 <= k < |r| ==> LexLe(key(a), key(r[k]))
    ensures SortedBy([a] + r, key)
  {
    var t := [a] + r;
    forall i, j | 0 <= i < j < |t| ensures LexLe(key(t[i]), key(t[j])) {
      assert t[j] == r[j - 1];
      if i > 0 {
        assert t[i] == r[i - 1];
      }
    }
  }

  /** `queryset.order_by(...)`: the same rows, rearranged into key order. */
  function SortBy<T>(s: seq<T>, key: T -> (int, int)): (r: seq<T>)
    ensures SortedBy(r, key)
    ensures multiset(r) == multiset(s)
    ensures |r| == |s|
  {
    if |s| == 0 then []
    else
      assert s == [s[0]] + s[1..];
      Insert(s[0], SortBy(s[1..], key), key)
  }

  /** `queryset[:n]`: the first `n` rows, or all of them when there are
      fewer. */
  function Prefix<T>(s: seq<T>, n: nat): (r: seq<T>)
    ensures |r| == if |s| <= n then |s| else n
    ensures |s| <= n ==> r == s
    ensures forall i :: 0 <= i < |r| ==> r[i] == s[i]
    ensures forall x :: x in r ==> x in s
  {
    if |s| <= n then s else s[..n]
  }

  /** The first `n` rows of a sorted sequence come no later than any row
      left out of them. */
  lemma PrefixOfSorted<T>(s: seq<T>, n: nat, key: T -> (int, int), x: T, y: T)
    requires SortedBy(s, key)
    requires x in Prefix(s, n) && y in s && y !in Prefix(s, n)
    ensures LexLe(key(x), key(y))
  {
    var r := Prefix(s, n);
    var i :| 0 <= i < |r| && r[i] == x;
    var j :| 0 <= j < |s| && s[j] == y;
    assert j >= |r|;
    assert s[i] == x;
  }

  /** The rows' images under `f`, concatenated in row order: a list
      comprehension that keeps zero or more values per row. */
  function FlatMap<T, U>(s: seq<T>, f: T -> seq<U>): seq<U> {
    if |s| == 0 then [] else f(s[0]) + FlatMap(s[1..], f)
  }

  /** A value is in the concatenation iff some row's image holds it. */
  lemma {:induction false} FlatMapMember<T, U>(s: seq<T>, f: T -> seq<U>, u: U)
    ensures u in FlatMap(s, f) <==> exists k :: 0 <= k < |s| && u in f(s[k])
  {
    if |s| > 0 {
      var rest := s[1..];
      FlatMapMember(rest, f, u);
      if u in FlatMap(rest, f) {
        var j :| 0 <= j < |rest| && u in f(rest[j]);
        assert rest[j] == s[j + 1];
      }
      if k :| 0 < k < |s| && u in f(s[k]) {
        assert rest[k - 1] == s[k];
      }
    }
  }
}
