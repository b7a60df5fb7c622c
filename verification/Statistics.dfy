/** The running statistics of `statistic_value_t`, in exact real arithmetic. */
module Statistics {
  import opened Integers

  datatype Statistic = Statistic(average: real, deviation: real, min: uint64, max: uint64, current: uint64, count: nat)

  const INITIAL: Statistic := Statistic(0.0, 0.0, UINT64_MAX, 0, 0, 0)

  function NextAverage(s: Statistic, value: uint64): real {
    (s.count as real * s.average + value as real) / (s.count + 1) as real
  }

  /** What `std::sqrt` is applied to. */
  function Radicand(s: Statistic, value: uint64): real {
    var delta := value as real - s.average;
    var delta2 := value as real - NextAverage(s, value);
    (s.deviation * s.deviation * s.count as real + delta * delta2) / (s.count + 1) as real
  }

  ghost predicate IsRoot(root: real, x: real) {
    root >= 0.0 && root * root == x
  }

  /** One call of `set`, the square root given by its defining property. */
  ghost predicate Sets(s: Statistic, value: uint64, t: Statistic) {
    t.count == s.count + 1 && t.current == value && t.average == NextAverage(s, value) &&
    IsRoot(t.deviation, Radicand(s, value)) &&
    t.min == (if value < s.min then value else s.min) && t.max == (if value > s.max then value else s.max)
  }

  class StatisticValue {
    var average: real
    var deviation: real
    var min: uint64
    var max: uint64
    var current: uint64
    var count: nat

    constructor ()
      ensures View() == INITIAL
    {
      average, deviation, min, max, current, count := 0.0, 0.0, UINT64_MAX, 0, 0, 0;
    }

    ghost function View(): Statistic
      reads this
    {
      Statistic(average, deviation, min, max, current, count)
    }

    /** `root` is the result of `std::sqrt`. */
    method Set(value: uint64, root: real)
      requires IsRoot(root, Radicand(View(), value))
      modifies this
      ensures Sets(old(View()), value, View())
      ensures current == value && count == old(count) + 1
    {
      var before := Statistic(average, deviation, min, max, current, count);
      count := count + 1;
      current := value;
      average := NextAverage(before, value);
      deviation := root;
      if value < min { min := value; }
      if value > max { max := value; }
    }
  }

  // ---------- The mean and variance of a sequence, by definition ----------

  function Total(values: seq<uint64>): real {
    if values == [] then 0.0 else Total(values[..|values| - 1]) + values[|values| - 1] as real
  }

  function Squared(x: real): real {
    x * x
  }

  /** The sum of the squared distances from a point. */
  function Spread(values: seq<uint64>, m: real): real {
    if values == [] then 0.0 else Spread(values[..|values| - 1], m) + Squared(values[|values| - 1] as real - m)
  }

  function Mean(values: seq<uint64>): real
    requires values != []
  {
    Total(values) / |values| as real
  }

  /** The population variance about the mean. */
  function Variance(values: seq<uint64>): real
    requires values != []
  {
    Spread(values, Mean(values)) / |values| as real
  }

  // ---------- Running moments ----------

  /** Number, sum and sum of squares. */
  datatype Moments = Moments(n: real, t: real, q: real)

  function AddTo(m: Moments, x: real): Moments {
    Moments(m.n + 1.0, m.t + x, m.q + Squared(x))
  }

  function MomentsOf(values: seq<uint64>): Moments {
    if values == [] then Moments(0.0, 0.0, 0.0)
    else AddTo(MomentsOf(values[..|values| - 1]), values[|values| - 1] as real)
  }

  /** The sum of squared distances from `a`, from the moments. */
  function SpreadAbout(m: Moments, a: real): real {
    m.q - 2.0 * a * m.t + m.n * a * a
  }

  lemma SpreadStep(m: Moments, a: real, x: real)
    ensures SpreadAbout(AddTo(m, x), a) == SpreadAbout(m, a) + Squared(x - a)
  {
  }

  lemma {:induction false} MomentsMeasure(values: seq<uint64>, a: real)
    ensures MomentsOf(values).n == |values| as real && MomentsOf(values).t == Total(values)
    ensures SpreadAbout(MomentsOf(values), a) == Spread(values, a)
  {
    if values != [] {
      var front, x := values[..|values| - 1], values[|values| - 1] as real;
      MomentsMeasure(front, a);
      SpreadStep(MomentsOf(front), a, x);
    }
  }

  /** The average and the deviation, multiplied out. */
  ghost predicate HasSums(s: Statistic, total: real, spread: real, n: real) {
    total == s.average * n && spread == Squared(s.deviation) * n
  }

  /** The statistic has the mean and the deviation of the moments. */
  ghost predicate Describes(s: Statistic, m: Moments) {
    s.count as real == m.n && HasSums(s, m.t, SpreadAbout(m, s.average), m.n)
  }

  /** `set`, with the number of values as a real and the divisions multiplied out. */
  ghost predicate SetsReal(s: Statistic, n: real, x: real, t: Statistic) {
    t.average * (n + 1.0) == n * s.average + x &&
    Squared(t.deviation) * (n + 1.0) == Squared(s.deviation) * n + (x - s.average) * (x - t.average)
  }

  lemma QuotientTimes(z: real, k: real)
    requires k > 0.0
    ensures (z / k) * k == z
  {
  }

  lemma SetsIsReal(s: Statistic, v: uint64, t: Statistic)
    requires Sets(s, v, t)
    ensures SetsReal(s, s.count as real, v as real, t)
  {
    var n, x := s.count as real, v as real;
    assert (s.count + 1) as real == n + 1.0;
    QuotientTimes(n * s.average + x, n + 1.0);
    QuotientTimes(s.deviation * s.deviation * n + (x - s.average) * (x - t.average), n + 1.0);
    assert t.deviation * t.deviation == Squared(t.deviation);
  }

  lemma WelfordPolynomial(q: real, n: real, a: real, b: real)
    ensures var x := b * (n + 1.0) - n * a;
            SpreadAbout(Moments(n + 1.0, b * (n + 1.0), q + Squared(x)), b) ==
            SpreadAbout(Moments(n, a * n, q), a) + (x - a) * (x - b)
  {
  }

  /** Welford's update. */
  lemma NextSpread(m: Moments, a: real, b: real, x: real)
    requires m.t == a * m.n && b * (m.n + 1.0) == m.n * a + x
    ensures AddTo(m, x).t == b * (m.n + 1.0)
    ensures SpreadAbout(AddTo(m, x), b) == SpreadAbout(m, a) + (x - a) * (x - b)
  {
    WelfordPolynomial(m.q, m.n, a, b);
    assert m == Moments(m.n, a * m.n, m.q);
    assert x == b * (m.n + 1.0) - m.n * a;
    assert AddTo(m, x) == Moments(m.n + 1.0, b * (m.n + 1.0), m.q + Squared(x));
  }

  lemma UpdateReals(m: Moments, a: real, d: real, x: real, b: real, e: real)
    requires m.t == a * m.n && SpreadAbout(m, a) == d * m.n
    requires b * (m.n + 1.0) == m.n * a + x && e * (m.n + 1.0) == d * m.n + (x - a) * (x - b)
    ensures m.t + x == b * (m.n + 1.0)
    ensures SpreadAbout(AddTo(m, x), b) == e * (m.n + 1.0)
  {
    NextSpread(m, a, b, x);
  }

  lemma UpdateSums(m: Moments, x: real, s: Statistic, t: Statistic)
    requires HasSums(s, m.t, SpreadAbout(m, s.average), m.n) && SetsReal(s, m.n, x, t)
    ensures HasSums(t, m.t + x, SpreadAbout(AddTo(m, x), t.average), m.n + 1.0)
  {
    UpdateReals(m, s.average, Squared(s.deviation), x, t.average, Squared(t.deviation));
  }

  lemma SetsDescribes(m: Moments, x: real, s: Statistic, t: Statistic)
    requires Describes(s, m) && t.count == s.count + 1 && SetsReal(s, m.n, x, t)
    ensures Describes(t, AddTo(m, x))
  {
    UpdateSums(m, x, s, t);
  }

  // ---------- Folding `set` over a sequence ----------

  /** The states that a statistic goes through as the values come in. */
  ghost predicate IsHistory(values: seq<uint64>, states: seq<Statistic>) {
    |states| == |values| + 1 && states[0] == INITIAL &&
    forall i :: 0 <= i < |values| ==> Sets(states[i], values[i], states[i + 1])
  }

  lemma {:induction false} HistoryDescribes(values: seq<uint64>, states: seq<Statistic>)
    requires IsHistory(values, states)
    ensures Describes(states[|values|], MomentsOf(values))
  {
    if values != [] {
      var k := |values| - 1;
      HistoryDescribes(values[..k], states[..k + 1]);
      SetsIsReal(states[k], values[k], states[k + 1]);
      SetsDescribes(MomentsOf(values[..k]), values[k] as real, states[k], states[k + 1]);
    }
  }

  lemma {:induction false} HistoryKeepsExtremes(values: seq<uint64>, states: seq<Statistic>)
    requires IsHistory(values, states)
    ensures states[|values|].count == |values|
    ensures forall i :: 0 <= i < |values| ==> states[|values|].min <= values[i] <= states[|values|].max
    ensures values != [] ==> states[|values|].min in values && states[|values|].max in values
    ensures values == [] ==> states[|values|] == INITIAL
  {
    if values != [] {
      var k := |values| - 1;
      HistoryKeepsExtremes(values[..k], states[..k + 1]);
      assert values == values[..k] + [values[k]];
      assert Sets(states[k], values[k], states[k + 1]);
    }
  }

  lemma MeanFromMoments(n: real, a: real, t: real, d: real, spread: real)
    requires n > 0.0 && t == a * n && spread == Squared(d) * n
    ensures t / n == a && spread / n == Squared(d)
  {
  }

  lemma MomentsGiveSums(values: seq<uint64>, s: Statistic)
    requires Describes(s, MomentsOf(values))
    ensures HasSums(s, Total(values), Spread(values, s.average), |values| as real)
  {
    MomentsMeasure(values, s.average);
  }

  lemma MeanAndVariance(values: seq<uint64>, s: Statistic)
    requires values != [] && HasSums(s, Total(values), Spread(values, s.average), |values| as real)
    ensures s.average == Mean(values) && Squared(s.deviation) == Variance(values)
  {
    MeanFromMoments(|values| as real, s.average, Total(values), s.deviation, Spread(values, s.average));
  }

  /** After any values, `set` has left their exact mean, population variance, minimum and maximum. */
  lemma StatisticsAreExact(values: seq<uint64>, states: seq<Statistic>)
    requires IsHistory(values, states) && values != []
    ensures states[|values|].count == |values| && states[|values|].current == values[|values| - 1]
    ensures states[|values|].average == Mean(values)
    ensures IsRoot(states[|values|].deviation, Variance(values))
    ensures states[|values|].min in values && states[|values|].max in values
    ensures forall v :: v in values ==> states[|values|].min <= v <= states[|values|].max
  {
    HistoryDescribes(values, states);
    HistoryKeepsExtremes(values, states);
    DeviationIsRoot(values, states);
    MomentsGiveSums(values, states[|values|]);
    MeanAndVariance(values, states[|values|]);
  }

  lemma DeviationIsRoot(values: seq<uint64>, states: seq<Statistic>)
    requires IsHistory(values, states) && values != []
    ensures states[|values|].deviation >= 0.0 && states[|values|].current == values[|values| - 1]
  {
    assert Sets(states[|values| - 1], values[|values| - 1], states[|values|]);
  }

  // ---------- The square root is always defined ----------

  lemma DeltasAgree(n: real, a: real, x: real, b: real)
    requires n >= 0.0 && b == (n * a + x) / (n + 1.0)
    ensures (x - a) * (x - b) >= 0.0
  {
    assert (x - b) * (n + 1.0) == (x - a) * n;
    assert (x - a) * (x - b) * (n + 1.0) == Squared(x - a) * n;
    assert Squared(x - a) >= 0.0;
    assert Squared(x - a) * n >= 0.0;
  }

  /** `std::sqrt` never meets a negative argument. */
  lemma RadicandIsNonNegative(s: Statistic, value: uint64)
    ensures Radicand(s, value) >= 0.0
  {
    var n, x, b := s.count as real, value as real, NextAverage(s, value);
    DeltasAgree(n, s.average, x, b);
    SquaresAreNonNegative(s.deviation, n);
    QuotientIsNonNegative(s.deviation * s.deviation * n + (x - s.average) * (x - b), n + 1.0);
  }

  lemma SquaresAreNonNegative(d: real, n: real)
    requires n >= 0.0
    ensures d * d * n >= 0.0
  {
    assert d * d >= 0.0;
  }

  lemma QuotientIsNonNegative(x: real, y: real)
    requires x >= 0.0 && y > 0.0
    ensures x / y >= 0.0
  {
  }
}
