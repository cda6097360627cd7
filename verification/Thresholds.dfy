/** Scoring windows against a threshold, sweeping it, and choosing one. Ratios are exact reals. */
module Thresholds {
  import opened Common

  datatype Matrix = Matrix(tp: nat, fp: nat, tn: nat, fn: nat)
  {
    function Precision(): real {
      if tp + fp == 0 then 0.0 else tp as real / (tp + fp) as real
    }

    function Recall(): real {
      if tp + fn == 0 then 0.0 else tp as real / (tp + fn) as real
    }

    function F1(): real {
      Harmonic(Precision(), Recall())
    }

    function Fpr(): real {
      if fp + tn == 0 then 0.0 else fp as real / (fp + tn) as real
    }
  }

  function Harmonic(p: real, r: real): real {
    if p + r == 0.0 then 0.0 else 2.0 * p * r / (p + r)
  }

  function ApplyThreshold(scores: seq<real>, threshold: real): (r: seq<bool>)
    ensures |r| == |scores| && forall i | 0 <= i < |r| :: r[i] <==> scores[i] < threshold
  {
    seq(|scores|, i requires 0 <= i < |scores| => scores[i] < threshold)
  }

  /** How many of the first n pairs have these two labels. */
  function Pairs(actual: seq<bool>, predicted: seq<bool>, a: bool, p: bool, n: nat): nat
    requires n <= |actual| && n <= |predicted|
  {
    if n == 0 then 0
    else Pairs(actual, predicted, a, p, n - 1) + if actual[n - 1] == a && predicted[n - 1] == p then 1 else 0
  }

  function MatrixOf(actual: seq<bool>, predicted: seq<bool>): Matrix {
    var n := if |actual| < |predicted| then |actual| else |predicted|;
    Matrix(Pairs(actual, predicted, true, true, n), Pairs(actual, predicted, false, true, n),
           Pairs(actual, predicted, false, false, n), Pairs(actual, predicted, true, false, n))
  }

  lemma {:induction false} PairsAreCounted(actual: seq<bool>, predicted: seq<bool>, a: bool, p: bool, n: nat)
    requires n <= |actual| && n <= |predicted|
    ensures Pairs(actual, predicted, a, p, n) == |set i | 0 <= i < n && actual[i] == a && predicted[i] == p|
  {
    var all := set i | 0 <= i < n && actual[i] == a && predicted[i] == p;
    if n > 0 {
      PairsAreCounted(actual, predicted, a, p, n - 1);
      var before := set i | 0 <= i < n - 1 && actual[i] == a && predicted[i] == p;
      if actual[n - 1] == a && predicted[n - 1] == p {
        assert all == before + {n - 1};
      } else {
        assert all == before;
      }
    } else {
      assert all == {};
    }
  }

  /** The four counts: true and false by whether the labels agree, positive and negative by the
      predicted one. */
  lemma MatrixCounts(actual: seq<bool>, predicted: seq<bool>)
    ensures
      var m, n := MatrixOf(actual, predicted), if |actual| < |predicted| then |actual| else |predicted|;
      && m.tp == |set i | 0 <= i < n && predicted[i] && actual[i]|
      && m.fp == |set i | 0 <= i < n && predicted[i] && !actual[i]|
      && m.tn == |set i | 0 <= i < n && !predicted[i] && !actual[i]|
      && m.fn == |set i | 0 <= i < n && !predicted[i] && actual[i]|
  {
    var n := if |actual| < |predicted| then |actual| else |predicted|;
    PairsAreCounted(actual, predicted, true, true, n);
    PairsAreCounted(actual, predicted, false, true, n);
    PairsAreCounted(actual, predicted, false, false, n);
    PairsAreCounted(actual, predicted, true, false, n);
    assert (set i | 0 <= i < n && actual[i] == true && predicted[i] == true)
        == (set i | 0 <= i < n && predicted[i] && actual[i]);
    assert (set i | 0 <= i < n && actual[i] == false && predicted[i] == true)
        == (set i | 0 <= i < n && predicted[i] && !actual[i]);
    assert (set i | 0 <= i < n && actual[i] == false && predicted[i] == false)
        == (set i | 0 <= i < n && !predicted[i] && !actual[i]);
    assert (set i | 0 <= i < n && actual[i] == true && predicted[i] == false)
        == (set i | 0 <= i < n && !predicted[i] && actual[i]);
  }

  /** Pairs beyond the shorter list are dropped. */
  method ComputeConfusionMatrix(actual: seq<bool>, predicted: seq<bool>) returns (m: Matrix)
    ensures m == MatrixOf(actual, predicted)
  {
    var n := if |actual| < |predicted| then |actual| else |predicted|;
    m := Matrix(0, 0, 0, 0);
    for i := 0 to n
      invariant m == Matrix(Pairs(actual, predicted, true, true, i), Pairs(actual, predicted, false, true, i),
                            Pairs(actual, predicted, false, false, i), Pairs(actual, predicted, true, false, i))
    {
      if actual[i] && predicted[i] {
        m := m.(tp := m.tp + 1);
      } else if !actual[i] && predicted[i] {
        m := m.(fp := m.fp + 1);
      } else if !actual[i] && !predicted[i] {
        m := m.(tn := m.tn + 1);
      } else {
        m := m.(fn := m.fn + 1);
      }
    }
  }

  function MatrixAt(actual: seq<bool>, scores: seq<real>, threshold: real): Matrix {
    MatrixOf(actual, ApplyThreshold(scores, threshold))
  }

  // ---------------------------------------------------------------------------------------
  // Raising the threshold
  // ---------------------------------------------------------------------------------------

  lemma {:induction false} MorePositives(actual: seq<bool>, scores: seq<real>, low: real, high: real, a: bool, n: nat)
    requires low <= high && n <= |actual| && n <= |scores|
    ensures
      var l, h := ApplyThreshold(scores, low), ApplyThreshold(scores, high);
      && Pairs(actual, l, a, true, n) <= Pairs(actual, h, a, true, n)
      && Pairs(actual, l, a, true, n) + Pairs(actual, l, a, false, n)
         == Pairs(actual, h, a, true, n) + Pairs(actual, h, a, false, n)
  {
    if n > 0 {
      MorePositives(actual, scores, low, high, a, n - 1);
    }
  }

  /** Raising the threshold turns negatives into positives only, of either kind. */
  lemma RaisingMovesOneWay(actual: seq<bool>, scores: seq<real>, low: real, high: real)
    requires low <= high
    ensures
      var l, h := MatrixAt(actual, scores, low), MatrixAt(actual, scores, high);
      && l.tp <= h.tp && l.fp <= h.fp && l.fn >= h.fn && l.tn >= h.tn
      && l.tp + l.fn == h.tp + h.fn && l.fp + l.tn == h.fp + h.tn
  {
    var n := if |actual| < |scores| then |actual| else |scores|;
    MorePositives(actual, scores, low, high, true, n);
    MorePositives(actual, scores, low, high, false, n);
  }

  lemma RatioMonotone(a: nat, b: nat, whole: nat)
    requires a <= b && whole > 0
    ensures a as real / whole as real <= b as real / whole as real
  {
  }

  /** So recall and the false-positive rate never fall along a rising sweep. */
  lemma RatesRise(actual: seq<bool>, scores: seq<real>, low: real, high: real)
    requires low <= high
    ensures MatrixAt(actual, scores, low).Recall() <= MatrixAt(actual, scores, high).Recall()
    ensures MatrixAt(actual, scores, low).Fpr() <= MatrixAt(actual, scores, high).Fpr()
  {
    RaisingMovesOneWay(actual, scores, low, high);
    var l, h := MatrixAt(actual, scores, low), MatrixAt(actual, scores, high);
    if l.tp + l.fn > 0 {
      RatioMonotone(l.tp, h.tp, l.tp + l.fn);
    }
    if l.fp + l.tn > 0 {
      RatioMonotone(l.fp, h.fp, l.fp + l.tn);
    }
  }

  // ---------------------------------------------------------------------------------------
  // The F1 score
  // ---------------------------------------------------------------------------------------

  lemma HarmonicMean(p: real, r: real)
    requires 0.0 < p <= r
    ensures p <= 2.0 * p * r / (p + r) <= r
  {
    var s := p + r;
    assert p * s <= 2.0 * p * r <= r * s by {
      assert p * p <= p * r <= r * r;
      assert p * s == p * p + p * r && r * s == p * r + r * r;
    }
    Divide(p, 2.0 * p * r, s);
    DivideUp(2.0 * p * r, r, s);
  }

  lemma QuotientMonotone(a: real, b: real, s: real)
    requires s > 0.0 && a <= b
    ensures a / s <= b / s
  {
  }

  lemma Divide(a: real, b: real, s: real)
    requires s > 0.0 && a * s <= b
    ensures a <= b / s
  {
    QuotientMonotone(a * s, b, s);
    assert a * s / s == a;
  }

  lemma DivideUp(a: real, b: real, s: real)
    requires s > 0.0 && a <= b * s
    ensures a / s <= b
  {
    QuotientMonotone(a, b * s, s);
    assert b * s / s == b;
  }

  /** The F1 score lies between precision and recall, and is 0 exactly without true positives. */
  lemma F1Between(m: Matrix)
    ensures
      var p, r := m.Precision(), m.Recall();
      && (if p <= r then p <= m.F1() <= r else r <= m.F1() <= p)
      && (m.F1() == 0.0 <==> m.tp == 0)
  {
    if m.tp > 0 {
      RatesPositive(m);
      HarmonicBetween(m.Precision(), m.Recall());
    } else {
      assert m.Precision() == 0.0 && m.Recall() == 0.0;
    }
  }

  lemma HarmonicBetween(p: real, r: real)
    requires p > 0.0 && r > 0.0
    ensures if p <= r then p <= Harmonic(p, r) <= r else r <= Harmonic(p, r) <= p
  {
    if p <= r {
      HarmonicMean(p, r);
    } else {
      HarmonicMean(r, p);
      assert 2.0 * p * r == 2.0 * r * p;
    }
  }

  /** Of the counts alone, the F1 score is 2 tp / (2 tp + fp + fn). */
  lemma F1OfCounts(m: Matrix)
    requires m.tp > 0
    ensures m.F1() == (2 * m.tp) as real / (2 * m.tp + m.fp + m.fn) as real
  {
    var t, a, b := m.tp as real, (m.tp + m.fp) as real, (m.tp + m.fn) as real;
    HarmonicOfRatios(t, a, b);
    assert (2 * m.tp + m.fp + m.fn) as real == a + b;
    RatesPositive(m);
  }

  lemma HarmonicOfRatios(t: real, a: real, b: real)
    requires t > 0.0 && a > 0.0 && b > 0.0
    ensures 2.0 * (t / a) * (t / b) / (t / a + t / b) == 2.0 * t / (a + b)
  {
    var p, q := t / a, t / b;
    assert p * a == t && q * b == t;
    assert (p + q) * (a * b) == t * (a + b) by {
      assert p * (a * b) == t * b && q * (a * b) == t * a;
      assert (p + q) * (a * b) == p * (a * b) + q * (a * b);
    }
    assert (p * q) * (a * b) == t * t by {
      assert (p * q) * (a * b) == (p * a) * (q * b);
    }
    CrossMultiplied(2.0 * p * q, p + q, 2.0 * t, a + b, t, a * b);
  }

  /** Two quotients are equal if their numerators and denominators are in proportion. */
  lemma CrossMultiplied(x: real, y: real, u: real, v: real, t: real, c: real)
    requires y > 0.0 && v > 0.0 && t > 0.0 && c > 0.0 && x * c == t * u && y * c == t * v
    ensures x / y == u / v
  {
    var k := t / c;
    assert x == k * u && y == k * v;
    assert x / y == (k * u) / (k * v) == u / v;
  }

  lemma RatesPositive(m: Matrix)
    requires m.tp > 0
    ensures m.Precision() > 0.0 && m.Recall() > 0.0
  {
  }

  // ---------------------------------------------------------------------------------------
  // The sweep
  // ---------------------------------------------------------------------------------------

  datatype Point = Point(threshold: real, cm: Matrix)

  const SLACK: real := 0.000000001

  function ThresholdOf(start: real, step: real, k: nat): real {
    start + k as real * step
  }

  ghost predicate Swept(actual: seq<bool>, scores: seq<real>, start: real, step: real, points: seq<Point>) {
    forall k | 0 <= k < |points| ::
      points[k] == Point(ThresholdOf(start, step, k), MatrixAt(actual, scores, ThresholdOf(start, step, k)))
  }

  /** One point for each threshold below the stop, and no other. */
  method ThresholdSweep(actual: seq<bool>, scores: seq<real>, start: real, stop: real, step: real)
    returns (points: seq<Point>)
    requires step > 0.0
    ensures Swept(actual, scores, start, step, points)
    ensures forall k: nat :: k < |points| <==> ThresholdOf(start, step, k) < stop + SLACK
  {
    hide ThresholdOf, MatrixAt, MatrixOf;
    points := [];
    var threshold := start;
    StartsThere(start, step);
    while threshold < stop + SLACK
      invariant threshold == ThresholdOf(start, step, |points|)
      invariant Swept(actual, scores, start, step, points)
      invariant |points| > 0 ==> ThresholdOf(start, step, |points| - 1) < stop + SLACK
      decreases (stop + SLACK - threshold) / step
    {
      var predicted := ApplyThreshold(scores, threshold);
      var cm := ComputeConfusionMatrix(actual, predicted);
      StepBy(start, step, |points|);
      Shrinks(stop + SLACK - threshold, step);
      assert cm == MatrixAt(actual, scores, threshold) by { IsMatrixAt(actual, scores, threshold); }
      points := points + [Point(threshold, cm)];
      threshold := threshold + step;
    }
    SweepCovers(start, stop + SLACK, step, |points|);
  }

  lemma SweepCovers(start: real, end: real, step: real, n: nat)
    requires step > 0.0 && end <= ThresholdOf(start, step, n)
    requires n > 0 ==> ThresholdOf(start, step, n - 1) < end
    ensures forall k: nat :: k < n <==> ThresholdOf(start, step, k) < end
  {
    hide ThresholdOf;
    forall k: nat ensures k < n <==> ThresholdOf(start, step, k) < end {
      if k < n {
        Rises(start, step, k, n - 1);
      } else {
        Rises(start, step, n, k);
      }
    }
  }

  lemma StartsThere(start: real, step: real)
    ensures ThresholdOf(start, step, 0) == start
  {
  }

  lemma IsMatrixAt(actual: seq<bool>, scores: seq<real>, threshold: real)
    ensures MatrixOf(actual, ApplyThreshold(scores, threshold)) == MatrixAt(actual, scores, threshold)
  {
  }

  lemma StepBy(start: real, step: real, k: nat)
    ensures ThresholdOf(start, step, k + 1) == ThresholdOf(start, step, k) + step
  {
    assert (k + 1) as real == k as real + 1.0;
    assert (k as real + 1.0) * step == k as real * step + step;
  }

  lemma Shrinks(x: real, step: real)
    requires step > 0.0
    ensures (x - step) / step == x / step - 1.0
  {
    var q := x / step;
    var p := q - 1.0;
    assert p * step == x - step;
    assert p * step / step == p;
  }

  lemma {:induction false} Rises(start: real, step: real, j: nat, k: nat)
    requires step > 0.0 && j <= k
    ensures ThresholdOf(start, step, j) <= ThresholdOf(start, step, k)
    ensures j < k ==> ThresholdOf(start, step, j) < ThresholdOf(start, step, k)
    decreases k
  {
    if j < k {
      Rises(start, step, j, k - 1);
      StepBy(start, step, k - 1);
    }
  }

  // ---------------------------------------------------------------------------------------
  // The choice
  // ---------------------------------------------------------------------------------------

  datatype Tier = Strict | Relaxed | Any

  predicate InTier(tier: Tier, maxFpr: real, minRecall: real, p: Point) {
    match tier
    case Strict => p.cm.Fpr() <= maxFpr && p.cm.Recall() >= minRecall
    case Relaxed => p.cm.Recall() >= 0.5
    case Any => true
  }

  /** The first point of the tier with the best F1 score. */
  function BestIn(tier: Tier, maxFpr: real, minRecall: real, points: seq<Point>): Option<Point> {
    if points == [] then None
    else
      var init, last := points[..|points| - 1], points[|points| - 1];
      var best := BestIn(tier, maxFpr, minRecall, init);
      if !InTier(tier, maxFpr, minRecall, last) then best
      else if best.None? || last.cm.F1() > best.value.cm.F1() then Some(last)
      else best
  }

  /** None stands for the error raised on an empty sweep. */
  function FindOptimal(points: seq<Point>, maxFpr: real, minRecall: real): Option<Point> {
    var strict := BestIn(Strict, maxFpr, minRecall, points);
    var relaxed := BestIn(Relaxed, maxFpr, minRecall, points);
    if strict.Some? then strict
    else if relaxed.Some? then relaxed
    else BestIn(Any, maxFpr, minRecall, points)
  }

  ghost predicate TierEmpty(tier: Tier, maxFpr: real, minRecall: real, points: seq<Point>) {
    forall i | 0 <= i < |points| :: !InTier(tier, maxFpr, minRecall, points[i])
  }

  lemma {:induction false} BestIs(tier: Tier, maxFpr: real, minRecall: real, points: seq<Point>) returns (k: nat)
    ensures BestIn(tier, maxFpr, minRecall, points).None? <==> TierEmpty(tier, maxFpr, minRecall, points)
    ensures BestIn(tier, maxFpr, minRecall, points).Some? ==>
              && k < |points| && BestIn(tier, maxFpr, minRecall, points).value == points[k]
              && InTier(tier, maxFpr, minRecall, points[k])
              && (forall i | 0 <= i < |points| && InTier(tier, maxFpr, minRecall, points[i]) ::
                    points[i].cm.F1() <= points[k].cm.F1())
              && (forall i | 0 <= i < k && InTier(tier, maxFpr, minRecall, points[i]) ::
                    points[i].cm.F1() < points[k].cm.F1())
  {
    k := 0;
    if points != [] {
      var init, last := points[..|points| - 1], points[|points| - 1];
      k := BestIs(tier, maxFpr, minRecall, init);
      assert forall i | 0 <= i < |init| :: points[i] == init[i];
      var best := BestIn(tier, maxFpr, minRecall, init);
      if InTier(tier, maxFpr, minRecall, last) && (best.None? || last.cm.F1() > best.value.cm.F1()) {
        k := |points| - 1;
      }
    }
  }

  /** The chosen point has the best F1 score of the strictest tier that is not empty, the earliest
      such point; there is one exactly when the sweep is not empty. */
  lemma OptimalIsBest(points: seq<Point>, maxFpr: real, minRecall: real) returns (tier: Tier, k: nat)
    ensures FindOptimal(points, maxFpr, minRecall).None? <==> points == []
    ensures points != [] ==>
              && k < |points| && FindOptimal(points, maxFpr, minRecall) == Some(points[k])
              && InTier(tier, maxFpr, minRecall, points[k])
              && (tier != Strict ==> TierEmpty(Strict, maxFpr, minRecall, points))
              && (tier == Any ==> TierEmpty(Relaxed, maxFpr, minRecall, points))
              && (forall i | 0 <= i < |points| && InTier(tier, maxFpr, minRecall, points[i]) ::
                    points[i].cm.F1() <= points[k].cm.F1())
              && (forall i | 0 <= i < k && InTier(tier, maxFpr, minRecall, points[i]) ::
                    points[i].cm.F1() < points[k].cm.F1())
  {
    tier := Strict;
    k := BestIs(Strict, maxFpr, minRecall, points);
    if BestIn(Strict, maxFpr, minRecall, points).None? {
      tier := Relaxed;
      k := BestIs(Relaxed, maxFpr, minRecall, points);
      if BestIn(Relaxed, maxFpr, minRecall, points).None? {
        tier := Any;
        k := BestIs(Any, maxFpr, minRecall, points);
        if points != [] {
          assert InTier(Any, maxFpr, minRecall, points[0]);
        }
      }
    }
  }

  /** Along a sweep the strict tier is one stretch of neighbouring thresholds. */
  lemma {:induction false} StrictTierIsInterval(actual: seq<bool>, scores: seq<real>, start: real, step: real,
                                                points: seq<Point>, maxFpr: real, minRecall: real,
                                                i: nat, j: nat, k: nat)
    requires step > 0.0 && Swept(actual, scores, start, step, points) && i <= j <= k < |points|
    requires InTier(Strict, maxFpr, minRecall, points[i]) && InTier(Strict, maxFpr, minRecall, points[k])
    ensures InTier(Strict, maxFpr, minRecall, points[j])
  {
    Rises(start, step, i, j);
    Rises(start, step, j, k);
    RatesRise(actual, scores, ThresholdOf(start, step, i), ThresholdOf(start, step, j));
    RatesRise(actual, scores, ThresholdOf(start, step, j), ThresholdOf(start, step, k));
  }
}
