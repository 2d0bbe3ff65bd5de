/** The arithmetic mean that `mean()` computes over the present values of a column
    (nulls are skipped; a column without present values has a null mean). */
module Stats {
  import opened Wrappers

  function Sum(xs: seq<real>): real {
    if xs == [] then 0.0 else xs[0] + Sum(xs[1..])
  }

  /** The mean of the present values; absent when there are none. */
  function Mean(xs: seq<real>): (m: Option<real>)
    ensures m.Some? <==> xs != []
  {
    if xs == [] then None else Some(Sum(xs) / |xs| as real)
  }

  /** The least element. */
  function Least(xs: seq<real>): (m: real)
    requires xs != []
    ensures m in xs
    ensures forall i :: 0 <= i < |xs| ==> m <= xs[i]
  {
    if |xs| == 1 then xs[0]
    else
      var rest := Least(xs[1..]);
      assert forall i :: 1 <= i < |xs| ==> xs[i] == xs[1..][i - 1];
      if xs[0] <= rest then xs[0] else rest
  }

  lemma {:induction false} SumAtLeast(xs: seq<real>, lo: real)
    requires forall i :: 0 <= i < |xs| ==> lo <= xs[i]
    ensures Sum(xs) >= |xs| as real * lo
  {
    if xs != [] {
      assert forall i :: 0 <= i < |xs| - 1 ==> xs[1..][i] == xs[i + 1];
      SumAtLeast(xs[1..], lo);
    }
  }

  lemma {:induction false} SumAtMost(xs: seq<real>, hi: real)
    requires forall i :: 0 <= i < |xs| ==> xs[i] <= hi
    ensures Sum(xs) <= |xs| as real * hi
  {
    if xs != [] {
      assert forall i :: 0 <= i < |xs| - 1 ==> xs[1..][i] == xs[i + 1];
      SumAtMost(xs[1..], hi);
    }
  }

  /** A lower bound on every value bounds the mean. */
  lemma MeanAtLeast(xs: seq<real>, lo: real)
    requires xs != []
    requires forall i :: 0 <= i < |xs| ==> lo <= xs[i]
    ensures Mean(xs).value >= lo
  {
    SumAtLeast(xs, lo);
    var n := |xs| as real;
    assert Sum(xs) / n >= (n * lo) / n;
  }

  /** An upper bound on every value bounds the mean. */
  lemma MeanAtMost(xs: seq<real>, hi: real)
    requires xs != []
    requires forall i :: 0 <= i < |xs| ==> xs[i] <= hi
    ensures Mean(xs).value <= hi
  {
    SumAtMost(xs, hi);
    var n := |xs| as real;
    assert Sum(xs) / n <= (n * hi) / n;
  }

  /** Some value lies at or below the mean. */
  lemma SomeAtMostMean(xs: seq<real>)
    requires xs != []
    ensures exists i :: 0 <= i < |xs| && xs[i] <= Mean(xs).value
  {
    var m := Least(xs);
    MeanAtLeast(xs, m);
    var i :| 0 <= i < |xs| && xs[i] == m;
  }

  /** The mean of equal values is that value. */
  lemma MeanOfConstant(xs: seq<real>, v: real)
    requires xs != []
    requires forall i :: 0 <= i < |xs| ==> xs[i] == v
    ensures Mean(xs) == Some(v)
  {
    MeanAtLeast(xs, v);
    MeanAtMost(xs, v);
  }
}
