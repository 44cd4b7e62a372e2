/**
 * The statistics helper of the analysis: average, minimum, maximum and the
 * population spread of a list of TVL values.
 */
module Statistics {

  /** `values.reduce((a, b) => a + b, 0)`: the sum, folded from the left. */
  function Sum(values: seq<real>): real
  {
    if |values| == 0 then 0.0 else Sum(values[..|values| - 1]) + values[|values| - 1]
  }

  /** The sum of squared deviations from `center`. */
  function SquaredDeviations(values: seq<real>, center: real): real
  {
    if |values| == 0 then 0.0
    else
      var d := values[|values| - 1] - center;
      SquaredDeviations(values[..|values| - 1], center) + d * d
  }

  /** `Math.min(...values)` for a non-empty list. */
  function Minimum(values: seq<real>): (m: real)
    requires |values| > 0
    ensures m in values
    ensures forall i :: 0 <= i < |values| ==> m <= values[i]
  {
    if |values| == 1 then values[0]
    else
      var rest := Minimum(values[..|values| - 1]);
      if values[|values| - 1] < rest then values[|values| - 1] else rest
  }

  /** `Math.max(...values)` for a non-empty list. */
  function Maximum(values: seq<real>): (m: real)
    requires |values| > 0
    ensures m in values
    ensures forall i :: 0 <= i < |values| ==> values[i] <= m
  {
    if |values| == 1 then values[0]
    else
      var rest := Maximum(values[..|values| - 1]);
      if values[|values| - 1] > rest then values[|values| - 1] else rest
  }

  /**
   * The four figures of the helper. `variance` is the mean squared deviation
   * (division by the count); the source reports its square root as
   * `volatility`.
   */
  datatype Stats = Stats(avg: real, min: real, max: real, variance: real)

  lemma Square(d: real)
    ensures d * d >= 0.0
  {
  }

  lemma Quotient(s: real, n: real, lo: real, hi: real)
    requires n > 0.0
    requires n * lo <= s <= n * hi
    ensures lo <= s / n <= hi
  {
    var q := s / n;
    assert q * n == s;
  }

  /** Bounds on every value bound the sum by the count times the bounds. */
  lemma {:induction false} SumBetween(values: seq<real>, lo: real, hi: real)
    requires forall i :: 0 <= i < |values| ==> lo <= values[i] <= hi
    ensures |values| as real * lo <= Sum(values) <= |values| as real * hi
  {
    if |values| > 0 {
      SumBetween(values[..|values| - 1], lo, hi);
    }
  }

  /** A sum of squares is never negative. */
  lemma {:induction false} SquaredDeviationsNonNegative(values: seq<real>, center: real)
    ensures SquaredDeviations(values, center) >= 0.0
  {
    if |values| > 0 {
      SquaredDeviationsNonNegative(values[..|values| - 1], center);
      Square(values[|values| - 1] - center);
    }
  }

  /** Values that all equal the center have no deviation from it. */
  lemma {:induction false} SquaredDeviationsOfConstant(values: seq<real>, center: real)
    requires forall i :: 0 <= i < |values| ==> values[i] == center
    ensures SquaredDeviations(values, center) == 0.0
  {
    if |values| > 0 {
      SquaredDeviationsOfConstant(values[..|values| - 1], center);
    }
  }

  /** `avg` of a sequence of `n` values lies between any bounds on the values. */
  lemma MeanBetween(values: seq<real>, lo: real, hi: real)
    requires |values| > 0
    requires forall i :: 0 <= i < |values| ==> lo <= values[i] <= hi
    ensures lo <= Sum(values) / |values| as real <= hi
  {
    SumBetween(values, lo, hi);
    Quotient(Sum(values), |values| as real, lo, hi);
  }

  /** `avg` is the mean of a non-empty list: times the count, it gives the sum. */
  predicate IsMean(avg: real, values: seq<real>) {
    |values| > 0 ==> avg * |values| as real == Sum(values)
  }

  /** Dividing by a positive count and multiplying back gives the total. */
  function Mean(values: seq<real>): (avg: real)
    requires |values| > 0
    ensures avg * |values| as real == Sum(values)
  {
    var n := |values| as real;
    Rescale(Sum(values), n);
    Sum(values) / n
  }

  /** The mean squared deviation from `center`. */
  function Spread(values: seq<real>, center: real): (v: real)
    requires |values| > 0
    ensures v >= 0.0
  {
    SquaredDeviationsNonNegative(values, center);
    SquaredDeviations(values, center) / |values| as real
  }

  lemma Rescale(total: real, n: real)
    requires n > 0.0
    ensures total / n * n == total
  {
  }

  /**
   * `calculateStats`: all four figures are 0 for an empty list; otherwise the
   * minimum and maximum are members bounding every value, the average lies
   * between them and the spread is non-negative.
   */
  function CalculateStats(values: seq<real>): (r: Stats)
    ensures |values| == 0 ==> r == Stats(0.0, 0.0, 0.0, 0.0)
    ensures |values| > 0 ==> r.min in values && r.max in values
    ensures forall i :: 0 <= i < |values| ==> r.min <= values[i] <= r.max
    ensures r.min <= r.avg <= r.max
    ensures r.variance >= 0.0
    ensures IsMean(r.avg, values)
  {
    if |values| == 0 then
      Stats(0.0, 0.0, 0.0, 0.0)
    else
      var avg := Mean(values);
      var lo := Minimum(values);
      var hi := Maximum(values);
      MeanBetween(values, lo, hi);
      Stats(avg, lo, hi, Spread(values, avg))
  }

  /**
   * A list of equal values has that value as average, minimum and maximum and
   * no spread; and the minimum equals the maximum only for such a list.
   */
  lemma NoSpreadForConstant(values: seq<real>)
    requires |values| > 0
    ensures (forall i :: 0 <= i < |values| ==> values[i] == values[0])
              <==> CalculateStats(values).min == CalculateStats(values).max
    ensures (forall i :: 0 <= i < |values| ==> values[i] == values[0])
              ==> CalculateStats(values) == Stats(values[0], values[0], values[0], 0.0)
  {
    var r := CalculateStats(values);
    if forall i :: 0 <= i < |values| ==> values[i] == values[0] {
      assert r.avg == values[0];
      SquaredDeviationsOfConstant(values, values[0]);
    }
  }
}
