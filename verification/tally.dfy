/** Counter arithmetic shared by the vote and survey result pages: the total
    of a column of counters and each row's share of it, in percent. Shares
    are exact rationals (`real`), where the site computes IEEE floats. */
module Tally {

  /** `sum(row.votes for row in rows)`. */
  function Sum<T>(s: seq<T>, count: T -> nat): nat {
    if |s| == 0 then 0 else count(s[0]) + Sum(s[1..], count)
  }

  lemma {:induction false} SumAppend<T>(a: seq<T>, b: seq<T>, count: T -> nat)
    ensures Sum(a + b, count) == Sum(a, count) + Sum(b, count)
  {
    if |a| == 0 {
      assert a + b == b;
    } else {
      assert (a + b)[1..] == a[1..] + b;
      SumAppend(a[1..], b, count);
    }
  }

  /** The total does not depend on the order the rows are listed in, so the
      total of a sorted result equals the total of the table. */
  lemma {:induction false} SumPermutation<T>(a: seq<T>, b: seq<T>, count: T -> nat)
    requires multiset(a) == multiset(b)
    ensures Sum(a, count) == Sum(b, count)
  {
    if |a| == 0 {
      assert |b| == |multiset(b)| == 0;
    } else {
      var k := MatchFirst(a, b);
      SumPermutation(a[1..], b[..k] + b[k + 1..], count);
      SumRemoveAt(b, k, count);
    }
  }

  /** Where the first element of `a` sits in its permutation `b`, and what
      is left of the two once it is taken out of each. */
  lemma {:induction false} MatchFirst<T>(a: seq<T>, b: seq<T>) returns (k: nat)
    requires multiset(a) == multiset(b) && |a| > 0
    ensures k < |b| && b[k] == a[0]
    ensures multiset(a[1..]) == multiset(b[..k] + b[k + 1..])
  {
    assert a[0] in multiset(b);
    k :| 0 <= k < |b| && b[k] == a[0];
    RemoveAt(b, k);
    assert a == [a[0]] + a[1..];
    Cancel(multiset(a[1..]), multiset(b[..k] + b[k + 1..]), a[0]);
  }

  /** Removing the element at `k` removes one copy of it. */
  lemma {:induction false} RemoveAt<T>(b: seq<T>, k: nat)
    requires k < |b|
    ensures multiset(b) == multiset(b[..k] + b[k + 1..]) + multiset{b[k]}
  {
    assert b == b[..k] + [b[k]] + b[k + 1..];
  }

  /** One copy of the same element can be cancelled on both sides. */
  lemma {:induction false} Cancel<T>(x: multiset<T>, y: multiset<T>, e: T)
    requires x + multiset{e} == y + multiset{e}
    ensures x == y
  {
    assert forall z :: x[z] == (x + multiset{e})[z] - (if z == e then 1 else 0);
  }

  /** The total is the removed row's count plus the total of the others. */
  lemma {:induction false} SumRemoveAt<T>(b: seq<T>, k: nat, count: T -> nat)
    requires k < |b|
    ensures Sum(b, count) == count(b[k]) + Sum(b[..k] + b[k + 1..], count)
  {
    assert b == b[..k] + [b[k]] + b[k + 1..];
    SumAppend(b[..k] + [b[k]], b[k + 1..], count);
    SumAppend(b[..k], [b[k]], count);
    SumAppend(b[..k], b[k + 1..], count);
    assert Sum([b[k]], count) == count(b[k]) by {
      assert [b[k]][1..] == [];
    }
  }

  /** A row's share of the total in percent, `part / total * 100`, and 0
      when the total is 0. */
  function Share(part: nat, total: nat): (r: real)
    ensures total > 0 ==> r * (total as real) == (part as real) * 100.0
    ensures total == 0 ==> r == 0.0
    ensures part <= total ==> 0.0 <= r <= 100.0
  {
    if total > 0 then part as real / total as real * 100.0 else 0.0
  }

  function SumReals(s: seq<real>): real {
    if |s| == 0 then 0.0 else s[0] + SumReals(s[1..])
  }

  /** Every row's share of `total`, in row order. */
  function Shares<T>(s: seq<T>, count: T -> nat, total: nat): (r: seq<real>)
    ensures |r| == |s|
    ensures forall i :: 0 <= i < |s| ==> r[i] == Share(count(s[i]), total)
  {
    seq(|s|, i requires 0 <= i < |s| => Share(count(s[i]), total))
  }

  /** The shares add up to the share of the rows' own total. */
  lemma {:induction false} SharesSumScaled<T>(s: seq<T>, count: T -> nat, total: nat)
    ensures SumReals(Shares(s, count, total)) == Share(Sum(s, count), total)
  {
    if |s| > 0 {
      SharesTail(s, count, total);
      SharesSumScaled(s[1..], count, total);
      ShareAdd(count(s[0]), Sum(s[1..], count), total);
    }
  }

  /** The shares of all rows but the first are the tail of the shares. */
  lemma {:induction false} SharesTail<T>(s: seq<T>, count: T -> nat, total: nat)
    requires |s| > 0
    ensures SumReals(Shares(s, count, total)) ==
      Share(count(s[0]), total) + SumReals(Shares(s[1..], count, total))
  {
    assert Shares(s, count, total)[1..] == Shares(s[1..], count, total);
  }

  /** A share is linear in the part. */
  lemma {:induction false} ShareAdd(a: nat, b: nat, total: nat)
    ensures Share(a + b, total) == Share(a, total) + Share(b, total)
  {
    if total > 0 {
      DivAdd(a as real, b as real, total as real);
    }
  }

  lemma {:induction false} DivAdd(p: real, q: real, t: real)
    requires t > 0.0
    ensures (p + q) / t == p / t + q / t
  {
    var x, y := p / t, q / t;
    assert x * t == p;
    assert y * t == q;
    assert (x + y) * t == p + q;
  }

  /** When the rows are all there is, their shares add up to exactly 100. */
  lemma {:induction false} SharesSumTo100<T>(s: seq<T>, count: T -> nat)
    requires Sum(s, count) > 0
    ensures SumReals(Shares(s, count, Sum(s, count))) == 100.0
  {
    SharesSumScaled(s, count, Sum(s, count));
    DivSelf(Sum(s, count) as real);
  }

  lemma {:induction false} DivSelf(t: real)
    requires t > 0.0
    ensures t / t == 1.0
  {
    var x := t / t;
    assert x * t == t;
    assert (x - 1.0) * t == 0.0;
  }
}
