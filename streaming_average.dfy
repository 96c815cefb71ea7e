/**
  The incremental mean accumulator of streamingaverage.py.

  `StreamingAvg` consumes values one at a time, keeping only a count `n` and a
  running `average`, and after each value reports the current average. The
  arithmetic is over `real`, so the running average is exact.
*/
module StreamingAverage {

  /** Sum of a sequence, by recursion on its last element. */
  function Sum(vs: seq<real>): real
    decreases |vs|
  {
    if |vs| == 0 then 0.0 else Sum(vs[..|vs| - 1]) + vs[|vs| - 1]
  }

  /** Arithmetic mean of a non-empty sequence. */
  function Mean(vs: seq<real>): real
    requires |vs| > 0
  {
    Sum(vs) / (|vs| as real)
  }

  /** Smallest element of a non-empty sequence. */
  function Min(vs: seq<real>): real
    requires |vs| > 0
    decreases |vs|
  {
    if |vs| == 1 then vs[0]
    else
      var m := Min(vs[..|vs| - 1]);
      if vs[|vs| - 1] < m then vs[|vs| - 1] else m
  }

  /** Largest element of a non-empty sequence. */
  function Max(vs: seq<real>): real
    requires |vs| > 0
    decreases |vs|
  {
    if |vs| == 1 then vs[0]
    else
      var m := Max(vs[..|vs| - 1]);
      if vs[|vs| - 1] > m then vs[|vs| - 1] else m
  }

  /** `Min` is an element of the sequence and no element is smaller. */
  lemma {:induction false} MinIsMin(vs: seq<real>)
    requires |vs| > 0
    ensures Min(vs) in vs && forall x :: x in vs ==> Min(vs) <= x
    decreases |vs|
  {
    if |vs| > 1 {
      var p := vs[..|vs| - 1];
      MinIsMin(p);
      assert vs == p + [vs[|vs| - 1]];
    }
  }

  /** `Max` is an element of the sequence and no element is larger. */
  lemma {:induction false} MaxIsMax(vs: seq<real>)
    requires |vs| > 0
    ensures Max(vs) in vs && forall x :: x in vs ==> x <= Max(vs)
    decreases |vs|
  {
    if |vs| > 1 {
      var p := vs[..|vs| - 1];
      MaxIsMax(p);
      assert vs == p + [vs[|vs| - 1]];
    }
  }

  /**
    The update rule `average*(1-1/n) + newval/n` for a count `n >= 1`. The
    new average lies between the old average and the new value.
  */
  function Update(average: real, newval: real, n: nat): (r: real)
    requires n >= 1
    ensures average <= newval ==> average <= r <= newval
    ensures newval <= average ==> newval <= r <= average
  {
    average * (1.0 - 1.0 / (n as real)) + newval / (n as real)
  }

  /** The update is a convex combination: its two weights lie in [0, 1] and sum to 1. */
  lemma UpdateIsConvex(n: nat)
    requires n >= 1
    ensures 0.0 <= 1.0 - 1.0 / (n as real) <= 1.0
    ensures 0.0 < 1.0 / (n as real) <= 1.0
    ensures (1.0 - 1.0 / (n as real)) + 1.0 / (n as real) == 1.0
  {
  }

  /** A convex combination of two numbers lies between them. */
  lemma UpdateBetween(average: real, newval: real, n: nat, lo: real, hi: real)
    requires n >= 1
    requires lo <= average <= hi && lo <= newval <= hi
    ensures lo <= Update(average, newval, n) <= hi
  {
    var w := 1.0 / (n as real);
    UpdateIsConvex(n);
    assert Update(average, newval, n) == average * (1.0 - w) + newval * w;
    assert average * (1.0 - w) + newval * w >= lo * (1.0 - w) + lo * w;
    assert average * (1.0 - w) + newval * w <= hi * (1.0 - w) + hi * w;
  }

  /** Sum of a sequence extended by one element. */
  lemma SumSnoc(vs: seq<real>, v: real)
    ensures Sum(vs + [v]) == Sum(vs) + v
  {
    assert (vs + [v])[..|vs|] == vs;
  }

  /**
    The key step: updating the mean of `vs` with `v` under the new count
    `|vs| + 1` gives the mean of `vs + [v]`.
  */
  lemma UpdateExtendsMean(vs: seq<real>, v: real)
    requires |vs| > 0
    ensures Update(Mean(vs), v, |vs| + 1) == Mean(vs + [v])
  {
    var m := |vs| as real;
    var n := m + 1.0;
    var s := Sum(vs);
    SumSnoc(vs, v);
    calc {
      Update(Mean(vs), v, |vs| + 1);
      (s / m) * (1.0 - 1.0 / n) + v / n;
      { assert 1.0 - 1.0 / n == m / n; }
      (s / m) * (m / n) + v / n;
      { assert (s / m) * (m / n) == s / n; }
      s / n + v / n;
      (s + v) / n;
      Mean(vs + [v]);
    }
  }

  /** Prefixes grow by one element at a time. */
  lemma PrefixSnoc(vs: seq<real>, k: int)
    requires 0 <= k < |vs|
    ensures vs[..k + 1] == vs[..k] + [vs[k]]
  {
  }

  /**
    The mean lies between the smallest and the largest value, proved along
    the running update: each step is a convex combination of the previous
    mean and the new value.
  */
  lemma {:induction false} MeanWithinRange(vs: seq<real>)
    requires |vs| > 0
    ensures Min(vs) <= Mean(vs) <= Max(vs)
    decreases |vs|
  {
    if |vs| == 1 {
      assert vs[..0] == [];
      assert Sum(vs) == vs[0];
    } else {
      var p := vs[..|vs| - 1];
      var v := vs[|vs| - 1];
      MeanWithinRange(p);
      assert p + [v] == vs;
      UpdateExtendsMean(p, v);
      var lo := if v < Min(p) then v else Min(p);
      var hi := if v > Max(p) then v else Max(p);
      UpdateBetween(Mean(p), v, |p| + 1, lo, hi);
    }
  }

  /** Sum distributes over concatenation. */
  lemma {:induction false} SumConcat(a: seq<real>, b: seq<real>)
    ensures Sum(a + b) == Sum(a) + Sum(b)
    decreases |b|
  {
    if |b| == 0 {
      assert a + b == a;
    } else {
      var b' := b[..|b| - 1];
      SumConcat(a, b');
      assert (a + b)[..|a + b| - 1] == a + b';
    }
  }

  /** The sum does not depend on the order of the values. */
  lemma {:induction false} SumPermutation(a: seq<real>, b: seq<real>)
    requires multiset(a) == multiset(b)
    ensures Sum(a) == Sum(b)
    decreases |a|
  {
    if |a| == 0 {
      assert |b| == |multiset(b)| == 0;
    } else {
      var x := a[|a| - 1];
      var a' := a[..|a| - 1];
      assert a' + [x] == a;
      assert x in multiset(b);
      var j :| 0 <= j < |b| && b[j] == x;
      var b' := b[..j] + b[j + 1..];
      assert b == b[..j] + [x] + b[j + 1..];
      assert multiset(a') == multiset(b') by {
        assert multiset(a) == multiset(a') + multiset{x};
        assert multiset(b) == multiset(b[..j]) + multiset{x} + multiset(b[j + 1..]);
        assert multiset(b') == multiset(b[..j]) + multiset(b[j + 1..]);
        assert multiset(a') == multiset(a) - multiset{x};
        assert multiset(b') == multiset(b) - multiset{x};
      }
      SumPermutation(a', b');
      SumSnoc(a', x);
      SumConcat(b[..j] + [x], b[j + 1..]);
      SumSnoc(b[..j], x);
      SumConcat(b[..j], b[j + 1..]);
    }
  }

  /** Over reals, the mean does not depend on the order of the values. */
  lemma MeanOrderIndependent(a: seq<real>, b: seq<real>)
    requires |a| > 0
    requires multiset(a) == multiset(b)
    ensures |b| == |a| && Mean(a) == Mean(b)
  {
    assert |a| == |multiset(a)| == |multiset(b)| == |b|;
    SumPermutation(a, b);
  }

  /** The mean of the values 1, 2, 3 after each step: 1, 1.5 and 2. */
  lemma MeansOfOneTwoThree()
    ensures Mean([1.0]) == 1.0
    ensures Mean([1.0, 2.0]) == 1.5
    ensures Mean([1.0, 2.0, 3.0]) == 2.0
  {
    assert [1.0, 2.0, 3.0][..2] == [1.0, 2.0];
    assert [1.0, 2.0][..1] == [1.0];
    assert [1.0][..0] == [];
  }

  /** The mean of the values 10, -10 after each step: 10 and 0. */
  lemma MeansOfTenMinusTen()
    ensures Mean([10.0]) == 10.0
    ensures Mean([10.0, -10.0]) == 0.0
  {
    assert [10.0, -10.0][..1] == [10.0];
    assert [10.0][..0] == [];
  }

  /**
    `streaming_avg` of streamingaverage.py applied to `yielder(values)`: the
    generator produces the elements in order, so the loop walks `values` by
    index. Python returns nothing; what it reports is the average printed
    after each value, which is `trace`. `n` and `average` are the final state.
  */
  method StreamingAvg(values: seq<real>) returns (n: nat, average: real, trace: seq<real>)
    ensures n == |values|
    ensures |values| == 0 ==> average == 0.0
    ensures |values| > 0 ==> average == Mean(values)
    ensures |trace| == |values|
    ensures forall k :: 0 <= k < |values| ==> trace[k] == Mean(values[..k + 1])
    ensures forall k :: 0 <= k < |values| ==> Min(values[..k + 1]) <= trace[k] <= Max(values[..k + 1])
    ensures |values| > 0 ==> trace[0] == values[0]
  {
    average := 0.0;
    n := 0;
    trace := [];
    for i := 0 to |values|
      invariant n == i
      invariant |trace| == i
      invariant forall k :: 0 <= k < i ==> trace[k] == Mean(values[..k + 1])
      invariant i == 0 ==> average == 0.0
      invariant i > 0 ==> average == Mean(values[..i])
    {
      var newval := values[i];
      if n == 0 {
        n := n + 1;
        average := newval;
        assert values[..1] == [newval];
        assert values[..1][..0] == [];
        assert Sum(values[..1]) == newval;
      } else {
        n := n + 1;
        PrefixSnoc(values, i);
        UpdateExtendsMean(values[..i], newval);
        average := Update(average, newval, n);
        assert average == Mean(values[..i + 1]);
      }
      trace := trace + [average];
    }
    assert values[..|values|] == values;
    forall k | 0 <= k < |values|
      ensures Min(values[..k + 1]) <= trace[k] <= Max(values[..k + 1])
    {
      MeanWithinRange(values[..k + 1]);
    }
  }
}
