/** Sums over the values of a map and over a sequence. A Java stream's `sum()` over
    a HashMap visits the entries in an unspecified order; integer addition does not
    care, so the specification picks any entry and the lemmas below show that the
    choice does not matter. */
module Sums {

  /** Some key of a non-empty map. */
  ghost function Pick<K>(m: map<K, int>): (k: K)
    requires |m| > 0
    ensures k in m
  {
    var k :| k in m; k
  }

  /** The sum of the values of `m`. */
  ghost function SumValues<K>(m: map<K, int>): int
    decreases |m|
  {
    if |m| == 0 then 0
    else
      var k := Pick(m);
      m[k] + SumValues(m - {k})
  }

  /** Any entry can be taken out first. */
  lemma {:induction false} SumValuesRemove<K>(m: map<K, int>, k: K)
    requires k in m
    ensures SumValues(m) == m[k] + SumValues(m - {k})
    decreases |m|
  {
    var j := Pick(m);
    if j != k {
      var mj := m - {j};
      var mk := m - {k};
      assert k in mj;
      SumValuesRemove(mj, k);
      assert j in mk;
      SumValuesRemove(mk, j);
      assert mj - {k} == mk - {j};
    }
  }

  /** Bounds on every value bound the sum. */
  lemma {:induction false} SumValuesBounds<K>(m: map<K, int>, lo: int, hi: int)
    requires forall k :: k in m ==> lo <= m[k] <= hi
    ensures lo * |m| <= SumValues(m) <= hi * |m|
    decreases |m|
  {
    if |m| > 0 {
      var k :| k in m;
      var rest := m - {k};
      SumValuesRemove(m, k);
      SumValuesBounds(rest, lo, hi);
      assert |rest| == |m| - 1;
      MulSucc(lo, |rest|, |m|);
      MulSucc(hi, |rest|, |m|);
    }
  }

  /** A lower bound on every value bounds the sum from below. */
  lemma {:induction false} SumValuesAtLeast<K>(m: map<K, int>, lo: int)
    requires forall k :: k in m ==> lo <= m[k]
    ensures lo * |m| <= SumValues(m)
    decreases |m|
  {
    if |m| > 0 {
      var k :| k in m;
      var rest := m - {k};
      SumValuesRemove(m, k);
      SumValuesAtLeast(rest, lo);
      assert |rest| == |m| - 1;
      MulSucc(lo, |rest|, |m|);
    }
  }

  lemma MulSucc(a: int, n: nat, n1: nat)
    requires n1 == n + 1
    ensures a * n1 == a + a * n
  {
  }

  /** The sum of a sequence of reals, added from the front. */
  function SumSeq(xs: seq<real>): real
  {
    if xs == [] then 0.0 else SumSeq(xs[..|xs| - 1]) + xs[|xs| - 1]
  }

  lemma {:induction false} SumSeqAppend(a: seq<real>, b: seq<real>)
    ensures SumSeq(a + b) == SumSeq(a) + SumSeq(b)
    decreases |b|
  {
    if b == [] {
      assert a + b == a;
    } else {
      var c := a + b;
      assert c[..|c| - 1] == a + b[..|b| - 1];
      SumSeqAppend(a, b[..|b| - 1]);
    }
  }

  /** The order of the terms does not matter: a permutation has the same sum. */
  lemma {:induction false} SumSeqPermutation(a: seq<real>, b: seq<real>)
    requires multiset(a) == multiset(b)
    ensures SumSeq(a) == SumSeq(b)
    decreases |a|
  {
    if a == [] {
      assert |b| == |multiset(b)| == 0;
    } else {
      var x := a[|a| - 1];
      var a' := a[..|a| - 1];
      assert a == a' + [x];
      assert multiset(a') == multiset(a) - multiset{x};
      assert x in multiset(b);
      var j :| 0 <= j < |b| && b[j] == x;
      var p, q := b[..j], b[j + 1..];
      assert b == p + [x] + q;
      SumSeqMiddle(p, x, q);
      MultisetMiddle(p, x, q);
      SumSeqPermutation(a', p + q);
    }
  }

  /** Taking a term out of the middle takes it out of the sum and of the multiset. */
  lemma SumSeqMiddle(p: seq<real>, x: real, q: seq<real>)
    ensures SumSeq(p + [x] + q) == SumSeq(p + q) + x
  {
    SumSeqAppend(p + [x], q);
    SumSeqAppend(p, [x]);
    SumSeqAppend(p, q);
    assert SumSeq([x]) == x by {
      assert [x][..0] == [];
    }
  }

  lemma MultisetMiddle<T>(p: seq<T>, x: T, q: seq<T>)
    ensures multiset(p + q) == multiset(p + [x] + q) - multiset{x}
  {
    assert multiset(p + [x] + q) == multiset(p) + multiset{x} + multiset(q);
  }

  /** A strict upper bound on every term bounds the sum of a non-empty sequence. */
  lemma {:induction false} SumSeqBelow(xs: seq<real>, hi: real)
    requires xs != [] && forall i :: 0 <= i < |xs| ==> xs[i] < hi
    ensures SumSeq(xs) < hi * |xs| as real
    decreases |xs|
  {
    var n := |xs| - 1;
    if n > 0 {
      SumSeqBelow(xs[..n], hi);
    } else {
      assert xs[..n] == [];
    }
    RealMulSucc(hi, n);
  }

  lemma RealMulSucc(a: real, n: nat)
    ensures a * (n + 1) as real == a * n as real + a
  {
  }

  /** A lower bound on every term bounds the sum. */
  lemma {:induction false} SumSeqAtLeast(xs: seq<real>, lo: real)
    requires forall i :: 0 <= i < |xs| ==> lo <= xs[i]
    ensures lo * |xs| as real <= SumSeq(xs)
    decreases |xs|
  {
    if xs != [] {
      var n := |xs| - 1;
      SumSeqAtLeast(xs[..n], lo);
      RealMulSucc(lo, n);
    }
  }
}
