/** The exponentially weighted peak predictor (crates/memmux-sched/src/classes.rs), over the reals:
    rounding, NaN and infinities are not part of this model, and the square root is any number
    whose square is the variance. */
module Ewma {
  import opened Prelude

  // ----- closed forms -----

  function Power(b: real, n: nat): real {
    if n == 0 then 1.0 else b * Power(b, n - 1)
  }

  /** The weight of observation `i` of `k`: what is left of its first share after the later
      observations each took `alpha` of it. The first observation starts with everything. */
  function WeightOf(alpha: real, k: nat, i: nat): real
    requires i < k
  {
    (if i == 0 then 1.0 else alpha) * Power(1.0 - alpha, k - 1 - i)
  }

  /** The weighted sum of `f` over the first `n` of `k` observations. */
  function WeightedSum(alpha: real, xs: seq<real>, k: nat, n: nat, f: real -> real): real
    requires n <= k <= |xs|
  {
    if n == 0 then 0.0
    else WeightedSum(alpha, xs, k, n - 1, f) + WeightOf(alpha, k, n - 1) * f(xs[n - 1])
  }

  /** The exponentially weighted mean of `f` over all observations. */
  function MeanOf(alpha: real, xs: seq<real>, f: real -> real): real {
    WeightedSum(alpha, xs, |xs|, |xs|, f)
  }

  function Identity(): real -> real { x => x }
  function Square(): real -> real { x => x * x }
  function One(): real -> real { x => 1.0 }

  function Mean(alpha: real, xs: seq<real>): real { MeanOf(alpha, xs, Identity()) }
  function MeanSquare(alpha: real, xs: seq<real>): real { MeanOf(alpha, xs, Square()) }

  /** One more observation scales every earlier share by `1 - alpha`. */
  lemma {:induction false} SharesShrink(alpha: real, xs: seq<real>, x: real, n: nat, f: real -> real)
    requires 1 <= |xs| && n <= |xs|
    ensures WeightedSum(alpha, xs + [x], |xs| + 1, n, f) == (1.0 - alpha) * WeightedSum(alpha, xs, |xs|, n, f)
  {
    hide WeightedSum, WeightOf, Power;
    if n == 0 {
      SumOfNothing(alpha, xs + [x], |xs| + 1, f);
      SumOfNothing(alpha, xs, |xs|, f);
      assert (1.0 - alpha) * 0.0 == 0.0;
    } else {
      SharesShrink(alpha, xs, x, n - 1, f);
      var i := n - 1;
      assert (xs + [x])[i] == xs[i];
      WeightsShrink(alpha, |xs|, i);
      SumUnfold(alpha, xs + [x], |xs| + 1, n, f);
      SumUnfold(alpha, xs, |xs|, n, f);
      ShrinkOne(1.0 - alpha, WeightOf(alpha, |xs|, i), WeightOf(alpha, |xs| + 1, i),
                WeightedSum(alpha, xs, |xs|, i, f), WeightedSum(alpha, xs + [x], |xs| + 1, i, f), f(xs[i]));
    }
  }

  lemma WeightsShrink(alpha: real, k: nat, i: nat)
    requires i < k
    ensures WeightOf(alpha, k + 1, i) == (1.0 - alpha) * WeightOf(alpha, k, i)
  {
    var first, p := if i == 0 then 1.0 else alpha, Power(1.0 - alpha, k - 1 - i);
    assert WeightOf(alpha, k + 1, i) == first * ((1.0 - alpha) * p);
    assert first * ((1.0 - alpha) * p) == (1.0 - alpha) * (first * p);
  }

  lemma SumOfNothing(alpha: real, xs: seq<real>, k: nat, f: real -> real)
    requires k <= |xs|
    ensures WeightedSum(alpha, xs, k, 0, f) == 0.0
  {
  }

  lemma SumUnfold(alpha: real, xs: seq<real>, k: nat, n: nat, f: real -> real)
    requires 0 < n <= k <= |xs|
    ensures WeightedSum(alpha, xs, k, n, f)
         == WeightedSum(alpha, xs, k, n - 1, f) + WeightOf(alpha, k, n - 1) * f(xs[n - 1])
  {
  }

  lemma ShrinkOne(b: real, w: real, w': real, s: real, s': real, y: real)
    requires w' == b * w && s' == b * s
    ensures s' + w' * y == b * (s + w * y)
  {
    assert (b * w) * y == b * (w * y);
  }

  lemma MeanStep(alpha: real, xs: seq<real>, x: real, f: real -> real)
    requires 1 <= |xs|
    ensures MeanOf(alpha, xs + [x], f) == (1.0 - alpha) * MeanOf(alpha, xs, f) + alpha * f(x)
  {
    SharesShrink(alpha, xs, x, |xs|, f);
    assert WeightOf(alpha, |xs| + 1, |xs|) == alpha;
  }

  lemma MeanOfOne(alpha: real, x: real, f: real -> real)
    ensures MeanOf(alpha, [x], f) == f(x)
  {
    assert WeightedSum(alpha, [x], 1, 0, f) == 0.0;
    assert WeightOf(alpha, 1, 0) == 1.0;
  }

  /** The weights are a distribution. */
  lemma {:induction false} WeightsSumToOne(alpha: real, xs: seq<real>)
    requires xs != []
    ensures MeanOf(alpha, xs, One()) == 1.0
  {
    var n := |xs| - 1;
    assert xs == xs[..n] + [xs[n]];
    if n == 0 {
      MeanOfOne(alpha, xs[0], One());
    } else {
      WeightsSumToOne(alpha, xs[..n]);
      MeanStep(alpha, xs[..n], xs[n], One());
    }
  }

  // ----- the recurrence -----

  /** West's incremental update of mean and variance. */
  function NextMean(alpha: real, mean: real, x: real): real { mean + alpha * (x - mean) }

  function NextVar(alpha: real, mean: real, v: real, x: real): real {
    (1.0 - alpha) * (v + (x - mean) * (alpha * (x - mean)))
  }

  lemma RecurrenceAlgebra(alpha: real, m: real, s: real, x: real, m': real, s': real)
    requires m' == (1.0 - alpha) * m + alpha * x && s' == (1.0 - alpha) * s + alpha * (x * x)
    ensures m' == NextMean(alpha, m, x)
    ensures s' - m' * m' == NextVar(alpha, m, s - m * m, x)
  {
    var d := x - m;
    var b := 1.0 - alpha;
    assert x == m + d;
    assert m' == m + alpha * d;
    assert m' * m' == (m + alpha * d) * (m + alpha * d);
    assert (m + alpha * d) * (m + alpha * d) == m * m + 2.0 * (alpha * (m * d)) + (alpha * d) * (alpha * d);
    assert x * x == m * m + 2.0 * (m * d) + d * d;
    assert (alpha * d) * (alpha * d) == alpha * (alpha * (d * d));
    assert alpha * (x * x) == alpha * (m * m) + 2.0 * (alpha * (m * d)) + alpha * (d * d);
    assert d * (alpha * d) == alpha * (d * d);
    assert b * (s - m * m + alpha * (d * d)) == b * s - b * (m * m) + b * (alpha * (d * d));
    assert b * (alpha * (d * d)) == alpha * (d * d) - alpha * (alpha * (d * d));
    assert b * (m * m) == m * m - alpha * (m * m);
  }

  /** The recurrence computes the closed forms: the variance is exactly the weighted mean of the
      squares minus the square of the weighted mean. */
  lemma RecurrenceIsClosedForm(alpha: real, xs: seq<real>, x: real)
    requires xs != []
    ensures Mean(alpha, xs + [x]) == NextMean(alpha, Mean(alpha, xs), x)
    ensures Variance(alpha, xs + [x]) == NextVar(alpha, Mean(alpha, xs), Variance(alpha, xs), x)
  {
    hide MeanOf, NextMean, NextVar;
    MeanStep(alpha, xs, x, Identity());
    MeanStep(alpha, xs, x, Square());
    assert Identity()(x) == x && Square()(x) == x * x;
    var m, s := Mean(alpha, xs), MeanSquare(alpha, xs);
    var m', s' := Mean(alpha, xs + [x]), MeanSquare(alpha, xs + [x]);
    RecurrenceAlgebra(alpha, m, s, x, m', s');
    assert Variance(alpha, xs) == s - m * m;
    assert Variance(alpha, xs + [x]) == s' - m' * m';
  }

  function Variance(alpha: real, xs: seq<real>): real {
    MeanSquare(alpha, xs) - Mean(alpha, xs) * Mean(alpha, xs)
  }

  lemma OneObservation(alpha: real, x: real)
    ensures Mean(alpha, [x]) == x && Variance(alpha, [x]) == 0.0
  {
    MeanOfOne(alpha, x, Identity());
    MeanOfOne(alpha, x, Square());
  }

  // ----- bounds -----

  predicate Within(xs: seq<real>, lo: real, hi: real) {
    forall i :: 0 <= i < |xs| ==> lo <= xs[i] <= hi
  }

  lemma Mix(alpha: real, a: real, b: real, lo: real, hi: real)
    requires 0.0 <= alpha <= 1.0 && lo <= a <= hi && lo <= b <= hi
    ensures lo <= (1.0 - alpha) * a + alpha * b <= hi
  {
    assert (1.0 - alpha) * (a - lo) >= 0.0 && alpha * (b - lo) >= 0.0;
    assert (1.0 - alpha) * (hi - a) >= 0.0 && alpha * (hi - b) >= 0.0;
    assert (1.0 - alpha) * (a - lo) + alpha * (b - lo) == (1.0 - alpha) * a + alpha * b - lo;
    assert (1.0 - alpha) * (hi - a) + alpha * (hi - b) == hi - ((1.0 - alpha) * a + alpha * b);
  }

  /** The mean lies between the smallest and the largest observation. */
  lemma {:induction false} MeanBounds(alpha: real, xs: seq<real>, lo: real, hi: real)
    requires xs != [] && 0.0 <= alpha <= 1.0 && Within(xs, lo, hi)
    ensures lo <= Mean(alpha, xs) <= hi
  {
    var n := |xs| - 1;
    assert xs == xs[..n] + [xs[n]];
    if n == 0 {
      MeanOfOne(alpha, xs[0], Identity());
    } else {
      MeanBounds(alpha, xs[..n], lo, hi);
      MeanStep(alpha, xs[..n], xs[n], Identity());
      Mix(alpha, Mean(alpha, xs[..n]), xs[n], lo, hi);
    }
  }

  lemma SpreadStep(lo: real, hi: real, x: real)
    requires lo <= x <= hi
    ensures x * x <= (lo + hi) * x - lo * hi
  {
    Product(hi - x, x - lo);
    Expand(lo, hi, x);
  }

  lemma Product(p: real, q: real)
    requires p >= 0.0 && q >= 0.0
    ensures p * q >= 0.0
  {
  }

  lemma Expand(lo: real, hi: real, x: real)
    ensures (hi - x) * (x - lo) == (lo + hi) * x - lo * hi - x * x
  {
    assert (hi - x) * (x - lo) == hi * (x - lo) - x * (x - lo);
    assert hi * (x - lo) == hi * x - hi * lo;
    assert x * (x - lo) == x * x - x * lo;
    assert (lo + hi) * x == lo * x + hi * x;
  }

  lemma BothMeansStep(alpha: real, xs: seq<real>, x: real)
    requires xs != []
    ensures Mean(alpha, xs + [x]) == (1.0 - alpha) * Mean(alpha, xs) + alpha * x
    ensures MeanSquare(alpha, xs + [x]) == (1.0 - alpha) * MeanSquare(alpha, xs) + alpha * (x * x)
  {
    hide MeanOf;
    MeanStep(alpha, xs, x, Identity());
    MeanStep(alpha, xs, x, Square());
    assert Identity()(x) == x && Square()(x) == x * x;
  }

  lemma BothMeansOfOne(alpha: real, x: real)
    ensures Mean(alpha, [x]) == x && MeanSquare(alpha, [x]) == x * x
  {
    hide MeanOf;
    MeanOfOne(alpha, x, Identity());
    MeanOfOne(alpha, x, Square());
    assert Identity()(x) == x && Square()(x) == x * x;
  }

  /** The mean square stays under the chord through the extremes. */
  lemma {:induction false} MeanSquareBound(alpha: real, xs: seq<real>, lo: real, hi: real)
    requires xs != [] && 0.0 <= alpha <= 1.0 && Within(xs, lo, hi)
    ensures MeanSquare(alpha, xs) <= (lo + hi) * Mean(alpha, xs) - lo * hi
  {
    hide Mean, MeanSquare;
    var n := |xs| - 1;
    assert xs == xs[..n] + [xs[n]];
    SpreadStep(lo, hi, xs[n]);
    if n == 0 {
      BothMeansOfOne(alpha, xs[0]);
    } else {
      MeanSquareBound(alpha, xs[..n], lo, hi);
      BothMeansStep(alpha, xs[..n], xs[n]);
      ChordStep(alpha, MeanSquare(alpha, xs[..n]), Mean(alpha, xs[..n]), xs[n], lo, hi);
    }
  }

  lemma ChordStep(alpha: real, s: real, m: real, x: real, lo: real, hi: real)
    requires 0.0 <= alpha <= 1.0 && s <= (lo + hi) * m - lo * hi && x * x <= (lo + hi) * x - lo * hi
    ensures (1.0 - alpha) * s + alpha * (x * x) <= (lo + hi) * ((1.0 - alpha) * m + alpha * x) - lo * hi
  {
    var c, k := lo + hi, lo * hi;
    var p, q := c * m - k - s, c * x - k - x * x;
    assert (1.0 - alpha) * p >= 0.0 && alpha * q >= 0.0;
    assert (1.0 - alpha) * p == (1.0 - alpha) * (c * m) - (1.0 - alpha) * k - (1.0 - alpha) * s;
    assert alpha * q == alpha * (c * x) - alpha * k - alpha * (x * x);
    assert c * ((1.0 - alpha) * m + alpha * x) == (1.0 - alpha) * (c * m) + alpha * (c * x);
  }

  lemma {:induction false} VarianceNonnegative(alpha: real, xs: seq<real>)
    requires xs != [] && 0.0 <= alpha <= 1.0
    ensures Variance(alpha, xs) >= 0.0
  {
    hide MeanOf;
    var n := |xs| - 1;
    assert xs == xs[..n] + [xs[n]];
    if n == 0 {
      MeanOfOne(alpha, xs[0], Identity());
      MeanOfOne(alpha, xs[0], Square());
      assert Identity()(xs[0]) == xs[0] && Square()(xs[0]) == xs[0] * xs[0];
    } else {
      VarianceNonnegative(alpha, xs[..n]);
      RecurrenceIsClosedForm(alpha, xs[..n], xs[n]);
      hide Variance, Mean;
      VarStaysNonnegative(alpha, Mean(alpha, xs[..n]), Variance(alpha, xs[..n]), xs[n]);
    }
  }

  lemma VarStaysNonnegative(alpha: real, mean: real, v: real, x: real)
    requires v >= 0.0 && 0.0 <= alpha <= 1.0
    ensures NextVar(alpha, mean, v, x) >= 0.0
  {
    var d := x - mean;
    assert d * d >= 0.0;
    Product(alpha, d * d);
    assert d * (alpha * d) == alpha * (d * d);
    Product(1.0 - alpha, v + d * (alpha * d));
  }

  /** The variance is at most the product of the distances from the mean to the extremes. */
  lemma VarianceBounds(alpha: real, xs: seq<real>, lo: real, hi: real)
    requires xs != [] && 0.0 <= alpha <= 1.0 && Within(xs, lo, hi)
    ensures 0.0 <= Variance(alpha, xs) <= (hi - Mean(alpha, xs)) * (Mean(alpha, xs) - lo)
  {
    VarianceNonnegative(alpha, xs);
    MeanSquareBound(alpha, xs, lo, hi);
    Expand(lo, hi, Mean(alpha, xs));
  }

  // ----- the object -----

  function MaxReal(a: real, b: real): real { if a >= b then a else b }
  function MinReal(a: real, b: real): real { if a <= b then a else b }

  /** `x as u64` for a nonnegative float: truncated, and saturated at the top. */
  function ToU64(x: real): nat
    requires x >= 0.0
  {
    Min(x.Floor, U64_MAX)
  }

  function AsReals(peaks: seq<nat>): seq<real> {
    seq(|peaks|, i requires 0 <= i < |peaks| => peaks[i] as real)
  }

  ghost predicate IsLeast(peaks: seq<nat>, least: nat) {
    least in peaks && forall i :: 0 <= i < |peaks| ==> least <= peaks[i]
  }

  class EwmaPredictor {
    const alpha: real
    var mean: Option<real>
    var variance: real
    var baselineFloor: Option<nat>
    var samples: nat
    /** Everything observed so far. */
    ghost var peaks: seq<nat>

    /** The fields are the closed forms of the observations. */
    ghost predicate Valid()
      reads this
    {
      && 0.0 < alpha <= 1.0
      && samples == |peaks|
      && mean == (if peaks == [] then None else Some(Mean(alpha, AsReals(peaks))))
      && variance == (if peaks == [] then 0.0 else Variance(alpha, AsReals(peaks)))
      && (baselineFloor.None? <==> peaks == [])
      && (baselineFloor.Some? ==> IsLeast(peaks, baselineFloor.value))
    }

    constructor (alpha: real)
      ensures Valid() && peaks == []
      ensures this.alpha == MinReal(MaxReal(alpha, 0.01), 1.0)
    {
      this.alpha := MinReal(MaxReal(alpha, 0.01), 1.0);
      mean, variance, baselineFloor, samples := None, 0.0, None, 0;
      peaks := [];
    }

    method Observe(peakBytes: nat)
      requires Valid()
      modifies this
      ensures Valid() && peaks == old(peaks) + [peakBytes]
    {
      hide MeanOf, Variance;
      var x := peakBytes as real;
      assert AsReals(peaks + [peakBytes]) == AsReals(peaks) + [x];
      match mean {
        case None =>
          OneObservation(alpha, x);
          assert AsReals(peaks + [peakBytes]) == [x];
          mean := Some(x);
          variance := 0.0;
        case Some(m) =>
          RecurrenceIsClosedForm(alpha, AsReals(peaks), x);
          var diff := x - m;
          var incr := alpha * diff;
          assert m == Mean(alpha, AsReals(peaks));
          assert m + incr == NextMean(alpha, m, x) == Mean(alpha, AsReals(peaks + [peakBytes]));
          assert (1.0 - alpha) * (variance + diff * incr) == NextVar(alpha, m, variance, x);
          mean := Some(m + incr);
          variance := (1.0 - alpha) * (variance + diff * incr);
      }
      baselineFloor := Some(match baselineFloor
        case Some(f) => Min(f, peakBytes)
        case None => peakBytes);
      samples := samples + 1;
      peaks := peaks + [peakBytes];
    }

    method MeanPeakBytes() returns (r: Option<nat>)
      requires Valid()
      ensures r.Some? <==> peaks != []
      ensures r.Some? ==> r.value == ToU64(MaxReal(Mean(alpha, AsReals(peaks)), 0.0))
    {
      r := match mean case None => None case Some(m) => Some(ToU64(MaxReal(m, 0.0)));
    }

    /** `std` is the square root of the variance. */
    method PredictedPeakBytes(z: real, std: real) returns (r: Option<nat>)
      requires Valid() && std >= 0.0 && std * std == MaxReal(variance, 0.0)
      ensures r.Some? <==> peaks != []
      ensures r.Some? ==> r.value == Predicted(alpha, peaks, z, std)
    {
      if mean.None? {
        return None;
      }
      var bound := ToU64(MaxReal(mean.value + MaxReal(z, 0.0) * std, 0.0));
      r := Some(match baselineFloor case Some(f) => Max(bound, f) case None => bound);
      LeastIsUnique(peaks, baselineFloor.value, Least(peaks));
    }
  }

  function Least(peaks: seq<nat>): (least: nat)
    requires peaks != []
    ensures IsLeast(peaks, least)
  {
    if |peaks| == 1 then peaks[0]
    else
      var rest := Least(peaks[1..]);
      assert peaks == [peaks[0]] + peaks[1..];
      Min(peaks[0], rest)
  }

  lemma LeastIsUnique(peaks: seq<nat>, a: nat, b: nat)
    requires IsLeast(peaks, a) && IsLeast(peaks, b)
    ensures a == b
  {
  }

  function Bound(mean: real, z: real, std: real): (b: real)
    ensures b >= 0.0
  {
    MaxReal(mean + MaxReal(z, 0.0) * std, 0.0)
  }

  /** The prediction: the mean plus `z` deviations, but never below the smallest observation. */
  function Predicted(alpha: real, peaks: seq<nat>, z: real, std: real): nat
    requires peaks != []
  {
    Max(ToU64(Bound(Mean(alpha, AsReals(peaks)), z, std)), Least(peaks))
  }

  /** The prediction is never below the smallest observation; it covers the mean, up to the
      truncation to bytes and the top of `u64`; and a wider `z` never lowers it. */
  lemma PredictionIsConservative(alpha: real, peaks: seq<nat>, z: real, wider: real, std: real)
    requires peaks != [] && 0.0 <= alpha <= 1.0 && std >= 0.0 && z <= wider
    ensures Least(peaks) <= Predicted(alpha, peaks, z, std) <= Predicted(alpha, peaks, wider, std)
    ensures Predicted(alpha, peaks, z, std) < U64_MAX ==>
      Mean(alpha, AsReals(peaks)) < Predicted(alpha, peaks, z, std) as real + 1.0
  {
    hide Mean, Least, ToU64, Bound;
    var m := Mean(alpha, AsReals(peaks));
    BoundOrder(m, z, wider, std);
    TruncationOrder(Bound(m, z, std), Bound(m, wider, std));
  }

  lemma BoundOrder(mean: real, z: real, wider: real, std: real)
    requires z <= wider && std >= 0.0
    ensures mean <= Bound(mean, z, std) <= Bound(mean, wider, std)
  {
    var p, q := MaxReal(z, 0.0), MaxReal(wider, 0.0);
    Widen(p, q, std);
    assert Bound(mean, z, std) == MaxReal(mean + p * std, 0.0);
    assert Bound(mean, wider, std) == MaxReal(mean + q * std, 0.0);
  }

  lemma Widen(z: real, wider: real, std: real)
    requires 0.0 <= z <= wider && std >= 0.0
    ensures 0.0 <= z * std <= wider * std
  {
    Product(wider - z, std);
    Product(z, std);
    assert wider * std == (wider - z) * std + z * std;
  }

  lemma TruncationOrder(x: real, y: real)
    requires 0.0 <= x <= y
    ensures ToU64(x) <= ToU64(y)
    ensures ToU64(x) < U64_MAX ==> x < ToU64(x) as real + 1.0
  {
  }

  /** There is only one nonnegative square root, so the prediction does not depend on how it is found. */
  lemma RootIsUnique(v: real, a: real, b: real)
    requires a >= 0.0 && b >= 0.0 && a * a == v && b * b == v
    ensures a == b
  {
    assert (b - a) * (b + a) == b * b - a * a == 0.0;
    assert b - a == 0.0 || b + a == 0.0;
  }

  lemma StrictProduct(p: real, q: real)
    requires p > 0.0 && q > 0.0
    ensures p * q > 0.0
  {
  }

  lemma SquareOrder(a: real, b: real)
    requires a >= 0.0 && b >= 0.0
    ensures a <= b <==> a * a <= b * b
  {
    assert (b - a) * (b + a) == b * b - a * a == -((a - b) * (a + b));
    if a <= b { Product(b - a, b + a); }
    if a > b { StrictProduct(a - b, a + b); }
  }

  lemma SquareOfProduct(a: real, b: real)
    ensures (a * b) * (a * b) == a * a * (b * b)
  {
    assert (a * b) * (a * b) == a * (b * (a * b));
    assert b * (a * b) == a * (b * b);
  }

  /** The bound without a root: a size is within it exactly when it is no more than the mean, or its
      square distance above the mean is at most the square of `z` times the variance. */
  lemma BoundWithoutRoot(mean: real, v: real, z: real, std: real, y: real)
    requires std >= 0.0 && std * std == v && y > 0.0
    ensures y <= Bound(mean, z, std)
       <==> y <= mean || (y - mean) * (y - mean) <= MaxReal(z, 0.0) * MaxReal(z, 0.0) * v
  {
    var w := MaxReal(z, 0.0);
    Product(w, std);
    SquareOfProduct(w, std);
    assert MaxReal(mean + w * std, 0.0) == Bound(mean, z, std);
    if y > mean { SquareOrder(y - mean, w * std); }
  }

  /** Within the observations: with every peak between `lo` and `hi`, a prediction without
      widening lies between them too. */
  lemma PredictionWithoutWidening(alpha: real, peaks: seq<nat>, hi: nat, z: real, std: real)
    requires peaks != [] && 0.0 <= alpha <= 1.0 && z <= 0.0 && std >= 0.0
    requires forall i :: 0 <= i < |peaks| ==> peaks[i] <= hi
    ensures Least(peaks) <= Predicted(alpha, peaks, z, std) <= hi
  {
    var lo := Least(peaks);
    MeanBounds(alpha, AsReals(peaks), lo as real, hi as real);
    assert MaxReal(z, 0.0) * std == 0.0;
    assert lo <= peaks[0] <= hi;
  }

  lemma TruncatedIff(x: real, y: nat)
    requires x >= 0.0
    ensures y <= ToU64(x) <==> y as real <= x && y <= U64_MAX
  {
  }

  /** The prediction without root, truncation or saturation: which sizes are within it. Those that no
      observation undercuts; and, up to the top of `u64`, those that are at most the mean or whose squared
      distance above it is at most the square of `z` times the variance. */
  lemma WithinPredictionIff(alpha: real, peaks: seq<nat>, z: real, std: real, y: nat)
    requires peaks != [] && std >= 0.0 && std * std == MaxReal(Variance(alpha, AsReals(peaks)), 0.0)
    ensures var mean, w := Mean(alpha, AsReals(peaks)), MaxReal(z, 0.0);
      var v := MaxReal(Variance(alpha, AsReals(peaks)), 0.0);
      y <= Predicted(alpha, peaks, z, std) <==>
        (forall i :: 0 <= i < |peaks| ==> y <= peaks[i]) ||
        (y <= U64_MAX && (y as real <= mean || (y as real - mean) * (y as real - mean) <= w * w * v))
  {
    hide Mean, Variance, Bound, ToU64;
    var mean, v := Mean(alpha, AsReals(peaks)), MaxReal(Variance(alpha, AsReals(peaks)), 0.0);
    TruncatedIff(Bound(mean, z, std), y);
    if y > 0 { BoundWithoutRoot(mean, v, z, std, y as real); }
    assert IsLeast(peaks, Least(peaks));
  }

  /** And which sizes are within the mean as it is reported. */
  lemma WithinMeanIff(mean: real, y: nat)
    ensures y <= ToU64(MaxReal(mean, 0.0)) <==> y == 0 || (y as real <= mean && y <= U64_MAX)
  {
    TruncatedIff(MaxReal(mean, 0.0), y);
  }
}
