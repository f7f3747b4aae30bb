/**
 Anomaly detection on a metric series by an expanding-window z-score. The mean and the sample
 deviation at a bucket include the bucket itself, while the module's own description speaks of
 the preceding buckets. Scores are compared through their squares: |z| >= k for k > 0 is
 (x - mean)^2 >= k^2 * variance with a positive variance.
 */
module Anomaly {
  import opened Prelude
  import opened ScoreAlgebra

  const MIN_HISTORY := 3

  function Sum(xs: seq<real>): real {
    if xs == [] then 0.0 else Sum(xs[..|xs| - 1]) + xs[|xs| - 1]
  }

  function Mean(xs: seq<real>): real
    requires xs != []
  {
    Sum(xs) / |xs| as real
  }

  /** The sum of squared distances from `a`. */
  function Squares(xs: seq<real>, a: real): real {
    if xs == [] then 0.0 else Squares(xs[..|xs| - 1], a) + Square(xs[|xs| - 1] - a)
  }

  /** The sum of squared deviations; the sample variance is this over |xs| - 1. */
  function Deviation(xs: seq<real>): real
    requires xs != []
  {
    Squares(xs, Mean(xs))
  }

  /** `std(ddof=1) ** 2`. */
  function Variance(xs: seq<real>): real
    requires |xs| >= 2
  {
    Deviation(xs) / (|xs| - 1) as real
  }

  /** The score of the last value of `xs` as the code computes it: how far it is from the mean, and the variance. */
  datatype Score = Zero | Score(distance: real, variance: real)

  function LastScore(xs: seq<real>): (r: Score) {
    if |xs| < MIN_HISTORY then Zero
    else if Variance(xs) == 0.0 then Zero
    else Score(xs[|xs| - 1] - Mean(xs), Variance(xs))
  }

  /** abs(z) >= k. */
  predicate AtLeast(z: Score, k: real) {
    k <= 0.0 || (z.Score? && Reaches(z.distance, z.variance, k))
  }

  datatype Severity = High | Low

  datatype Thresholds = Thresholds(high: real, low: real)

  const DEFAULT := Thresholds(3.0, 2.0)

  function Classify(z: Score, t: Thresholds): (r: Option<Severity>) {
    if AtLeast(z, t.high) then Some(High)
    else if AtLeast(z, t.low) then Some(Low)
    else None
  }

  // ----- One more value -----

  /** The last term of a sum and of a sum of squares. */
  lemma LastTerm(xs: seq<real>, c: real)
    requires xs != []
    ensures Sum(xs) == Sum(xs[..|xs| - 1]) + xs[|xs| - 1]
    ensures Squares(xs, c) == Squares(xs[..|xs| - 1], c) + Square(xs[|xs| - 1] - c)
  {
  }

  lemma {:induction false} SquaresShift(xs: seq<real>, a: real, b: real)
    ensures Squares(xs, b) == Squares(xs, a) + Shift(|xs| as real, Sum(xs), a, b)
  {
    if xs != [] {
      hide *;
      var init, x := xs[..|xs| - 1], xs[|xs| - 1];
      LastTerm(xs, a);
      LastTerm(xs, b);
      SquaresShift(init, a, b);
      ShiftStep(|init| as real, Sum(init), a, b, x);
      assert |xs| as real == |init| as real + 1.0;
    }
  }

  lemma {:induction false} SquaresNonNegative(xs: seq<real>, a: real)
    ensures Squares(xs, a) >= 0.0
  {
    if xs != [] {
      SquaresNonNegative(xs[..|xs| - 1], a);
      SquarePositive(xs[|xs| - 1] - a);
    }
  }

  lemma MeanTimesCount(xs: seq<real>)
    requires xs != []
    ensures |xs| as real * Mean(xs) == Sum(xs)
  {
  }

  /** How centre and squared deviations move when `x` arrives after `ys`; `mu` and `nu` are the means. */
  lemma CentreMoves(ys: seq<real>, x: real, mu: real, nu: real)
    requires |ys| as real * mu == Sum(ys)
    requires (|ys| as real + 1.0) * nu == Sum(ys) + x
    ensures var m, n := |ys| as real, |ys| as real + 1.0;
            && n * (x - nu) == m * (x - mu)
            && n * Squares(ys + [x], nu) == n * Squares(ys, mu) + m * Square(x - mu)
  {
    hide *;
    OneMore(ys, x, nu);
    SquaresShift(ys, mu, nu);
    MeanUpdate(|ys| as real, |ys| as real + 1.0, Sum(ys), x, mu, nu, Squares(ys, mu), Squares(ys, nu), Squares(ys + [x], nu));
  }

  lemma OneMore(ys: seq<real>, x: real, c: real)
    ensures Sum(ys + [x]) == Sum(ys) + x
    ensures Squares(ys + [x], c) == Squares(ys, c) + Square(x - c)
  {
    var all := ys + [x];
    assert all[..|all| - 1] == ys;
  }

  /** The same for mean and deviation themselves. */
  lemma OneMoreValue(ys: seq<real>, x: real)
    requires ys != []
    ensures var m, n, d := |ys| as real, |ys| as real + 1.0, x - Mean(ys);
            && n * (x - Mean(ys + [x])) == m * d
            && n * Deviation(ys + [x]) == n * Deviation(ys) + m * Square(d)
            && Deviation(ys) >= 0.0
  {
    hide Square, Mean;
    var all := ys + [x];
    assert all[..|all| - 1] == ys;
    MeanTimesCount(ys);
    MeanTimesCount(all);
    SquaresNonNegative(ys, Mean(ys));
    CentreMoves(ys, x, Mean(ys), Mean(all));
  }

  // ----- When a bucket is flagged -----

  /**
   The exact criterion. With m values `ys` before it, n = m + 1, a value x scores at least k
   exactly when it differs from their mean and
   m * (m^2 - k^2 * n) * (x - mean(ys))^2 >= k^2 * n^2 * deviation(ys).
   */
  ghost predicate Exceeds(ys: seq<real>, x: real, k: real)
    requires ys != []
  {
    Criterion(|ys| as real, |ys| as real + 1.0, x - Mean(ys), k, Deviation(ys))
  }

  lemma FlaggedExactly(ys: seq<real>, x: real, k: real)
    requires |ys| >= 2 && k > 0.0
    ensures AtLeast(LastScore(ys + [x]), k) <==> Exceeds(ys, x, k)
  {
    hide Mean, Variance, Deviation, Square, Criterion;
    var all := ys + [x];
    OneMoreValue(ys, x);
    VarianceTimesCount(all);
    assert (|all| - 1) as real == |ys| as real;
    ReachesIsCriterion(|ys| as real, |ys| as real + 1.0, x - Mean(ys), k, x - Mean(all), Variance(all), Deviation(all), Deviation(ys));
  }

  lemma VarianceTimesCount(xs: seq<real>)
    requires |xs| >= 2
    ensures Variance(xs) * (|xs| - 1) as real == Deviation(xs)
  {
  }

  /** The bucket `x` after `ys` reaches level k: any bucket does for a level of 0 or less, none without two before it otherwise. */
  ghost predicate Beyond(ys: seq<real>, x: real, k: real) {
    k <= 0.0 || (|ys| >= 2 && Exceeds(ys, x, k))
  }

  lemma BeyondExactly(ys: seq<real>, x: real, k: real)
    ensures AtLeast(LastScore(ys + [x]), k) <==> Beyond(ys, x, k)
  {
    hide Exceeds, Mean, Variance, Reaches;
    if k > 0.0 && |ys| >= 2 {
      hide AtLeast, LastScore;
      FlaggedExactly(ys, x, k);
    }
  }

  /** Severities in terms of the values before the bucket, for any thresholds and any length of history. */
  lemma ClassifiedExactly(ys: seq<real>, x: real, t: Thresholds)
    ensures var r := Classify(LastScore(ys + [x]), t);
            && (r == Some(High) <==> Beyond(ys, x, t.high))
            && (r == Some(Low) <==> !Beyond(ys, x, t.high) && Beyond(ys, x, t.low))
            && (r == None <==> !Beyond(ys, x, t.high) && !Beyond(ys, x, t.low))
  {
    hide AtLeast, LastScore, Beyond;
    BeyondExactly(ys, x, t.high);
    BeyondExactly(ys, x, t.low);
  }

  /** A score of at least k at the n-th bucket needs (n - 1)^2 >= k^2 * n, whatever the values. */
  lemma ScoreNeedsHistory(xs: seq<real>, k: real)
    requires k > 0.0 && AtLeast(LastScore(xs), k)
    ensures |xs| >= MIN_HISTORY
    ensures (|xs| - 1) as real * (|xs| - 1) as real >= Square(k) * |xs| as real
  {
    var ys, x := xs[..|xs| - 1], xs[|xs| - 1];
    assert xs == ys + [x];
    FlaggedExactly(ys, x, k);
    OneMoreValue(ys, x);
    CriterionNeedsHistory(|ys| as real, |ys| as real + 1.0, x - Mean(ys), k, Deviation(ys));
  }

  /** The bound is sharp: after equal values any jump, however small or large, is flagged exactly when it allows. */
  lemma JumpAfterEqualValues(ys: seq<real>, c: real, x: real, k: real)
    requires |ys| >= 2 && k > 0.0 && x != c
    requires forall i :: 0 <= i < |ys| ==> ys[i] == c
    ensures AtLeast(LastScore(ys + [x]), k)
       <==> |ys| as real * |ys| as real >= Square(k) * (|ys| as real + 1.0)
  {
    hide Mean, Deviation, AtLeast, LastScore, Criterion, Square;
    EqualMean(ys, c);
    FlaggedExactly(ys, x, k);
    CriterionWithoutPrior(|ys| as real, |ys| as real + 1.0, x - c, k);
  }

  lemma EqualMean(ys: seq<real>, c: real)
    requires ys != []
    requires forall i :: 0 <= i < |ys| ==> ys[i] == c
    ensures Mean(ys) == c && Deviation(ys) == 0.0
  {
    EqualValues(ys, c);
    MeanTimesCount(ys);
    SameFactor(|ys| as real, Mean(ys), c);
  }

  lemma {:induction false} EqualValues(ys: seq<real>, c: real)
    requires forall i :: 0 <= i < |ys| ==> ys[i] == c
    ensures Sum(ys) == |ys| as real * c
    ensures Squares(ys, c) == 0.0
  {
    if ys != [] {
      EqualValues(ys[..|ys| - 1], c);
    }
  }

  /**
   The score described in the module's documentation, with mean and deviation of the preceding
   buckets only; like the code's it is undefined, so no flag, where the deviation is zero.
   */
  predicate DocumentedFlag(ys: seq<real>, x: real, k: real)
    requires |ys| >= 2
  {
    Reaches(x - Mean(ys), Variance(ys), k)
  }

  /** A flag of the code is a flag of the documentation unless the preceding buckets are all alike. */
  lemma FlagImpliesDocumentedFlag(ys: seq<real>, x: real, k: real)
    requires |ys| >= 2 && k > 0.0 && AtLeast(LastScore(ys + [x]), k)
    ensures DocumentedFlag(ys, x, k) || Variance(ys) == 0.0
  {
    hide Mean, Variance, Deviation, Square, Criterion, LastScore, AtLeast;
    FlaggedExactly(ys, x, k);
    VarianceTimesCount(ys);
    assert (|ys| - 1) as real == |ys| as real - 1.0;
    CriterionImpliesPriorScore(|ys| as real, |ys| as real + 1.0, x - Mean(ys), k, Variance(ys), Deviation(ys));
  }

  /** Flagged by the code alone: any jump after equal values, once the history is long enough. */
  ghost predicate CodeAlone(ys: seq<real>, x: real, k: real)
    requires |ys| >= 2
  {
    && Variance(ys) == 0.0 && x != Mean(ys)
    && |ys| as real * |ys| as real >= Square(k) * (|ys| as real + 1.0)
  }

  /** Flagged by the documentation alone: far enough from the earlier values, but not from a mean that it moves itself. */
  ghost predicate DocumentationAlone(ys: seq<real>, x: real, k: real)
    requires |ys| >= 2
  {
    && Variance(ys) != 0.0
    && Square(x - Mean(ys)) >= Square(k) * Variance(ys)
    && Falls(|ys| as real, |ys| as real + 1.0, x - Mean(ys), k, Variance(ys))
  }

  /** Code and documentation agree on a bucket exactly when neither flags it alone. */
  lemma AgreeWithDocumentationExactly(ys: seq<real>, x: real, k: real)
    requires |ys| >= 2 && k > 0.0
    ensures AtLeast(LastScore(ys + [x]), k) && !DocumentedFlag(ys, x, k) <==> CodeAlone(ys, x, k)
    ensures DocumentedFlag(ys, x, k) && !AtLeast(LastScore(ys + [x]), k) <==> DocumentationAlone(ys, x, k)
    ensures (AtLeast(LastScore(ys + [x]), k) <==> DocumentedFlag(ys, x, k))
       <==> !CodeAlone(ys, x, k) && !DocumentationAlone(ys, x, k)
  {
    hide Mean, Variance, Deviation, Square, Criterion, LastScore, AtLeast, Falls;
    var m, n, d := |ys| as real, |ys| as real + 1.0, x - Mean(ys);
    FlaggedExactly(ys, x, k);
    OneMoreValue(ys, x);
    VarianceTimesCount(ys);
    assert (|ys| - 1) as real == m - 1.0;
    if Variance(ys) == 0.0 {
      assert Deviation(ys) == 0.0;
      if d != 0.0 {
        CriterionWithoutPrior(m, n, d, k);
      } else {
        NoDistanceNoCriterion(m, n, k, 0.0);
      }
    } else {
      if AtLeast(LastScore(ys + [x]), k) {
        FlagImpliesDocumentedFlag(ys, x, k);
      }
      FallsExactly(m, n, d, k, Variance(ys), Deviation(ys));
    }
  }

  /** With a short history the documented score never has its say: all its flags are missed. */
  lemma ShortHistoryMissesFlags(ys: seq<real>, x: real, k: real)
    requires |ys| >= 2 && k > 0.0 && DocumentedFlag(ys, x, k)
    requires |ys| as real * |ys| as real < Square(k) * (|ys| as real + 1.0)
    ensures DocumentationAlone(ys, x, k)
  {
    hide Mean, Variance, Square, Falls, LastScore;
    if AtLeast(LastScore(ys + [x]), k) {
      ScoreNeedsHistory(ys + [x], k);
    }
    AgreeWithDocumentationExactly(ys, x, k);
  }

  lemma PairSums(ys: seq<real>, a: real, b: real, c: real)
    requires ys == [a, b]
    ensures Sum(ys) == a + b && Squares(ys, c) == Square(a - c) + Square(b - c)
  {
    hide Square;
    assert ys == [a] + [b] && [a] == [] + [a];
    OneMore([], a, c);
    OneMore([a], b, c);
  }

  lemma PairVariance(ys: seq<real>)
    requires ys == [0.0, 2.0]
    ensures Mean(ys) == 1.0 && Variance(ys) == 2.0
  {
    hide Sum, Squares;
    PairSums(ys, 0.0, 2.0, 1.0);
  }

  /** One such bucket: after 0 and 2 a value of 100 is 70 documented deviations away and not flagged at level 2. */
  lemma MissedFlag(ys: seq<real>, x: real)
    requires ys == [0.0, 2.0] && x == 100.0
    ensures DocumentedFlag(ys, x, 2.0) && !AtLeast(LastScore(ys + [x]), 2.0)
  {
    hide Mean, Variance, LastScore, AtLeast;
    PairVariance(ys);
    if AtLeast(LastScore(ys + [x]), 2.0) {
      ScoreNeedsHistory(ys + [x], 2.0);
    }
  }

  // ----- Units and offsets do not matter -----

  function Affine(xs: seq<real>, a: real, b: real): (r: seq<real>)
    ensures |r| == |xs|
  {
    if xs == [] then [] else Affine(xs[..|xs| - 1], a, b) + [Image(xs[|xs| - 1], a, b)]
  }

  lemma AffineLast(xs: seq<real>, a: real, b: real)
    requires xs != []
    ensures var ys, n := Affine(xs, a, b), |xs| - 1;
            ys[..n] == Affine(xs[..n], a, b) && ys[n] == Image(xs[n], a, b)
  {
  }

  lemma {:induction false} AffineSums(xs: seq<real>, a: real, b: real, c: real, c': real)
    requires c' == Image(c, a, b)
    ensures Sum(Affine(xs, a, b)) == AffineSum(|xs| as real, Sum(xs), a, b)
    ensures Squares(Affine(xs, a, b), c') == AffineSquares(Squares(xs, c), a)
  {
    if xs != [] {
      hide *;
      var n := |xs| - 1;
      var init, ys := xs[..n], Affine(xs, a, b);
      AffineSums(init, a, b, c, c');
      AffineLast(xs, a, b);
      LastTerm(xs, c);
      LastTerm(ys, c');
      AffineStep(a, b, c, c', xs[n], |init| as real, Sum(init), Squares(init, c));
      assert |xs| as real == |init| as real + 1.0;
    }
  }

  function AffineScore(z: Score, a: real): Score {
    if z.Zero? then Zero else Score(Stretch(z.distance, a), AffineSquares(z.variance, a))
  }

  lemma ScoreIsAffine(xs: seq<real>, a: real, b: real)
    requires a != 0.0
    ensures LastScore(Affine(xs, a, b)) == AffineScore(LastScore(xs), a)
  {
    if |xs| >= MIN_HISTORY {
      hide Mean, Variance, Affine, Image, Stretch, AffineSquares;
      var n := |xs| - 1;
      AffineMoments(xs, a, b);
      AffineLast(xs, a, b);
      AffineDistance(a, b, xs[n], Mean(xs));
      SquaresVanish(Variance(xs), a);
    }
  }

  lemma AtLeastIsAffine(z: Score, a: real, k: real)
    requires a != 0.0
    ensures AtLeast(AffineScore(z, a), k) <==> AtLeast(z, k)
  {
    if z.Score? {
      hide Reaches, Stretch, AffineSquares;
      ReachesScaled(a, z.distance, z.variance, k);
    }
  }

  /** Changing unit (any nonzero factor, negative ones too) and offset changes no severity. */
  lemma AffineSeverity(xs: seq<real>, a: real, b: real, t: Thresholds)
    requires a != 0.0
    ensures Classify(LastScore(Affine(xs, a, b)), t) == Classify(LastScore(xs), t)
  {
    hide LastScore, AtLeast, AffineScore;
    ScoreIsAffine(xs, a, b);
    AtLeastIsAffine(LastScore(xs), a, t.high);
    AtLeastIsAffine(LastScore(xs), a, t.low);
  }

  lemma AffineMoments(xs: seq<real>, a: real, b: real)
    requires |xs| >= 2
    ensures Mean(Affine(xs, a, b)) == Image(Mean(xs), a, b)
    ensures Variance(Affine(xs, a, b)) == AffineSquares(Variance(xs), a)
  {
    hide Mean, Variance, Square, Squares, Sum, AffineSum, AffineSquares, Image;
    var ys := Affine(xs, a, b);
    AffineSums(xs, a, b, Mean(xs), Image(Mean(xs), a, b));
    MeanTimesCount(xs);
    MeanTimesCount(ys);
    AffineMean(|xs| as real, a, b, Mean(xs), Sum(xs), Mean(ys));
    AffineSums(xs, a, b, Mean(xs), Mean(ys));
    VarianceTimesCount(xs);
    VarianceTimesCount(ys);
    AffineVariance((|xs| - 1) as real, a, Variance(xs), Deviation(xs), Variance(ys));
  }

  // ----- The detector -----

  datatype Metric = FailRate | HitlRate | PassRate | Volume

  const METRICS := [FailRate, HitlRate, PassRate, Volume]

  datatype Frame = Frame(labels: seq<string>, columns: map<Metric, seq<real>>) {
    predicate Valid() {
      forall m :: m in columns ==> |columns[m]| == |labels|
    }
  }

  datatype AnomalyEvent = AnomalyEvent(
    metric: Metric,
    severity: Severity,
    brokerId: Option<string>,
    bucket: nat,
    periodLabel: string,
    observed: real,
    baselineMean: real,
    spike: bool)

  /** The event for one bucket of one metric, if its score is flagged. */
  function BucketEvents(df: Frame, brokerId: Option<string>, t: Thresholds, metric: Metric, i: nat): (r: seq<AnomalyEvent>)
    requires df.Valid() && metric in df.columns && i < |df.labels|
  {
    var history := df.columns[metric][..i + 1];
    var z := LastScore(history);
    match Classify(z, t)
    case None => []
    case Some(severity) =>
      [AnomalyEvent(metric, severity, brokerId, i, df.labels[i], history[i],
                    if i > 0 then Mean(history[..i]) else 0.0, z.Score? && z.distance > 0.0)]
  }

  function MetricEvents(df: Frame, brokerId: Option<string>, t: Thresholds, metric: Metric, n: nat): (r: seq<AnomalyEvent>)
    requires df.Valid() && n <= |df.labels|
  {
    if n == 0 || metric !in df.columns then []
    else MetricEvents(df, brokerId, t, metric, n - 1) + BucketEvents(df, brokerId, t, metric, n - 1)
  }

  function EventsOf(df: Frame, brokerId: Option<string>, t: Thresholds, metrics: seq<Metric>): (r: seq<AnomalyEvent>)
    requires df.Valid()
  {
    if metrics == [] then []
    else EventsOf(df, brokerId, t, metrics[..|metrics| - 1])
         + MetricEvents(df, brokerId, t, metrics[|metrics| - 1], |df.labels|)
  }

  method DetectInSeries(df: Frame, brokerId: Option<string>, t: Thresholds) returns (events: seq<AnomalyEvent>)
    requires df.Valid()
    ensures events == if |df.labels| < MIN_HISTORY then [] else EventsOf(df, brokerId, t, METRICS)
  {
    hide BucketEvents;
    events := [];
    if |df.labels| < MIN_HISTORY {
      return;
    }
    for k := 0 to |METRICS|
      invariant events == EventsOf(df, brokerId, t, METRICS[..k])
    {
      var metric := METRICS[k];
      ghost var before := events;
      assert METRICS[..k + 1][..k] == METRICS[..k];
      if metric !in df.columns {
        continue;
      }
      var series := df.columns[metric];
      for i := 0 to |series|
        invariant events == before + MetricEvents(df, brokerId, t, metric, i)
      {
        var found := DetectBucket(df, brokerId, t, metric, i);
        events := events + found;
      }
    }
    assert METRICS[..|METRICS|] == METRICS;
  }

  method DetectBucket(df: Frame, brokerId: Option<string>, t: Thresholds, metric: Metric, i: nat)
    returns (events: seq<AnomalyEvent>)
    requires df.Valid() && metric in df.columns && i < |df.labels|
    ensures events == BucketEvents(df, brokerId, t, metric, i)
  {
    var history := df.columns[metric][..i + 1];
    var z := LastScore(history);
    var severity := Classify(z, t);
    if severity.None? {
      return [];
    }
    var baselineMean := if |history| > 1 then Mean(history[..i]) else 0.0;
    return [AnomalyEvent(metric, severity.value, brokerId, i, df.labels[i], history[i], baselineMean,
                         z.Score? && z.distance > 0.0)];
  }

  /** Bucket `i` of a metric reaches level k against the buckets before it. */
  ghost predicate BucketBeyond(df: Frame, metric: Metric, i: nat, k: real)
    requires df.Valid() && metric in df.columns && i < |df.labels|
  {
    Beyond(df.columns[metric][..i], df.columns[metric][i], k)
  }

  /** An event speaks of a bucket of its own metric and carries that bucket's severity, label, value, baseline and direction. */
  ghost predicate Genuine(df: Frame, brokerId: Option<string>, t: Thresholds, e: AnomalyEvent)
    requires df.Valid()
  {
    && e.brokerId == brokerId
    && e.metric in df.columns && e.bucket < |df.labels|
    && e.periodLabel == df.labels[e.bucket] && e.observed == df.columns[e.metric][e.bucket]
    && (e.severity == High <==> BucketBeyond(df, e.metric, e.bucket, t.high))
    && (e.severity == Low ==> BucketBeyond(df, e.metric, e.bucket, t.low))
    && e.baselineMean == (if e.bucket > 0 then Mean(df.columns[e.metric][..e.bucket]) else 0.0)
    && (e.spike <==> LastScore(df.columns[e.metric][..e.bucket + 1]).Score?
                     && e.observed > Mean(df.columns[e.metric][..e.bucket + 1]))
  }

  /** Some event of `events` is for this bucket of this metric. */
  ghost predicate Reported(events: seq<AnomalyEvent>, metric: Metric, i: nat) {
    exists j :: 0 <= j < |events| && events[j].metric == metric && events[j].bucket == i
  }

  /** The events at hand are genuine, and report those buckets of the metric below `n` that are flagged. */
  ghost predicate Exact(df: Frame, brokerId: Option<string>, t: Thresholds, events: seq<AnomalyEvent>, metric: Metric, n: nat)
    requires df.Valid() && n <= |df.labels|
  {
    && (forall j :: 0 <= j < |events| ==> Genuine(df, brokerId, t, events[j]))
    && (metric in df.columns ==> forall i :: 0 <= i < n ==> (Reported(events, metric, i) <==> Flagged(df, t, metric, i)))
  }

  /** The bucket reaches one of the two levels. */
  ghost predicate Flagged(df: Frame, t: Thresholds, metric: Metric, i: nat)
    requires df.Valid() && metric in df.columns && i < |df.labels|
  {
    BucketBeyond(df, metric, i, t.high) || BucketBeyond(df, metric, i, t.low)
  }

  lemma BucketEventsExact(df: Frame, brokerId: Option<string>, t: Thresholds, metric: Metric, i: nat)
    requires df.Valid() && metric in df.columns && i < |df.labels|
    ensures var events := BucketEvents(df, brokerId, t, metric, i);
            && (forall j :: 0 <= j < |events| ==> Genuine(df, brokerId, t, events[j]))
            && (forall k :: 0 <= k < |df.labels| ==>
                  (Reported(events, metric, k) <==> k == i && Flagged(df, t, metric, i)))
  {
    hide Classify, Mean, Variance, Beyond;
    var events := BucketEvents(df, brokerId, t, metric, i);
    var column := df.columns[metric];
    assert column[..i + 1] == column[..i] + [column[i]];
    ClassifiedExactly(column[..i], column[i], t);
    if Flagged(df, t, metric, i) {
      assert events[0].metric == metric && events[0].bucket == i;
      assert column[..i + 1][..i] == column[..i] && column[..i + 1][i] == column[i];
      assert Genuine(df, brokerId, t, events[0]);
    }
  }

  lemma GenuineAppend(df: Frame, brokerId: Option<string>, t: Thresholds, a: seq<AnomalyEvent>, b: seq<AnomalyEvent>)
    requires df.Valid()
    requires forall j :: 0 <= j < |a| ==> Genuine(df, brokerId, t, a[j])
    requires forall j :: 0 <= j < |b| ==> Genuine(df, brokerId, t, b[j])
    ensures forall j :: 0 <= j < |a + b| ==> Genuine(df, brokerId, t, (a + b)[j])
  {
    hide Genuine;
  }

  lemma {:induction false} MetricEventsExact(df: Frame, brokerId: Option<string>, t: Thresholds, metric: Metric, n: nat)
    requires df.Valid() && n <= |df.labels|
    ensures Exact(df, brokerId, t, MetricEvents(df, brokerId, t, metric, n), metric, n)
  {
    if n > 0 && metric in df.columns {
      MetricEventsExact(df, brokerId, t, metric, n - 1);
      BucketEventsExact(df, brokerId, t, metric, n - 1);
      var before, last := MetricEvents(df, brokerId, t, metric, n - 1), BucketEvents(df, brokerId, t, metric, n - 1);
      GenuineAppend(df, brokerId, t, before, last);
      hide Genuine, Reported, Flagged, BucketEvents;
      forall i | 0 <= i < n
        ensures Reported(before + last, metric, i) <==> Flagged(df, t, metric, i)
      {
        ReportedAppend(before, last, metric, i);
        GenuineReports(df, brokerId, t, before, metric, i);
      }
    }
  }

  lemma ReportedAppend(a: seq<AnomalyEvent>, b: seq<AnomalyEvent>, metric: Metric, i: nat)
    ensures Reported(a + b, metric, i) <==> Reported(a, metric, i) || Reported(b, metric, i)
  {
    var c := a + b;
    assert forall j :: 0 <= j < |a| ==> c[j] == a[j];
    assert forall j :: 0 <= j < |b| ==> c[|a| + j] == b[j];
    if Reported(b, metric, i) {
      var j :| 0 <= j < |b| && b[j].metric == metric && b[j].bucket == i;
      assert c[|a| + j].metric == metric;
    }
  }

  lemma {:induction false} EventsAreGenuine(df: Frame, brokerId: Option<string>, t: Thresholds, metrics: seq<Metric>, j: nat)
    requires df.Valid() && j < |EventsOf(df, brokerId, t, metrics)|
    ensures Genuine(df, brokerId, t, EventsOf(df, brokerId, t, metrics)[j])
  {
    hide Genuine, Reported, Flagged, MetricEvents;
    var init, metric := metrics[..|metrics| - 1], metrics[|metrics| - 1];
    if j < |EventsOf(df, brokerId, t, init)| {
      EventsAreGenuine(df, brokerId, t, init, j);
    } else {
      MetricEventsExact(df, brokerId, t, metric, |df.labels|);
    }
  }

  lemma {:induction false} DetectedAmong(df: Frame, brokerId: Option<string>, t: Thresholds, metrics: seq<Metric>, m: Metric)
    requires df.Valid() && m in metrics
    ensures Exact(df, brokerId, t, EventsOf(df, brokerId, t, metrics), m, |df.labels|)
  {
    hide Genuine, Reported, Flagged, MetricEvents;
    var init, metric := metrics[..|metrics| - 1], metrics[|metrics| - 1];
    var before, last := EventsOf(df, brokerId, t, init), MetricEvents(df, brokerId, t, metric, |df.labels|);
    var events := EventsOf(df, brokerId, t, metrics);
    MetricEventsExact(df, brokerId, t, metric, |df.labels|);
    if m in init {
      DetectedAmong(df, brokerId, t, init, m);
    }
    forall j | 0 <= j < |events|
      ensures Genuine(df, brokerId, t, events[j])
    {
      EventsAreGenuine(df, brokerId, t, metrics, j);
    }
    forall i | m in df.columns && 0 <= i < |df.labels|
      ensures Reported(events, m, i) <==> Flagged(df, t, m, i)
    {
      ReportedAppend(before, last, m, i);
      GenuineReports(df, brokerId, t, events, m, i);
    }
  }

  /** The place of a metric in a list of metrics, or its end. */
  function PlaceOf(metric: Metric, metrics: seq<Metric>): nat {
    if metrics == [] then 0 else if metrics[0] == metric then 0 else 1 + PlaceOf(metric, metrics[1..])
  }

  /** Metric by metric and, within a metric, bucket by bucket; no bucket twice. */
  ghost predicate InOrder(events: seq<AnomalyEvent>, metrics: seq<Metric>) {
    forall i, j :: 0 <= i < j < |events| ==>
      || PlaceOf(events[i].metric, metrics) < PlaceOf(events[j].metric, metrics)
      || (events[i].metric == events[j].metric && events[i].bucket < events[j].bucket)
  }

  /** All for one metric, below bucket `n` and bucket by bucket. */
  ghost predicate OfMetric(events: seq<AnomalyEvent>, metric: Metric, n: nat) {
    && (forall j :: 0 <= j < |events| ==> events[j].metric == metric && events[j].bucket < n)
    && (forall i, j :: 0 <= i < j < |events| ==> events[i].bucket < events[j].bucket)
  }

  lemma OfMetricAppend(before: seq<AnomalyEvent>, last: seq<AnomalyEvent>, metric: Metric, n: nat)
    requires OfMetric(before, metric, n) && |last| <= 1
    requires forall j :: 0 <= j < |last| ==> last[j].metric == metric && last[j].bucket == n
    ensures OfMetric(before + last, metric, n + 1)
  {
  }

  lemma BucketEventsOne(df: Frame, brokerId: Option<string>, t: Thresholds, metric: Metric, i: nat)
    requires df.Valid() && metric in df.columns && i < |df.labels|
    ensures var events := BucketEvents(df, brokerId, t, metric, i);
            |events| <= 1 && forall j :: 0 <= j < |events| ==> events[j].metric == metric && events[j].bucket == i
  {
    hide Classify, LastScore, Mean;
  }

  lemma {:induction false} MetricEventsInOrder(df: Frame, brokerId: Option<string>, t: Thresholds, metric: Metric, n: nat)
    requires df.Valid() && n <= |df.labels|
    ensures OfMetric(MetricEvents(df, brokerId, t, metric, n), metric, n)
  {
    if n > 0 && metric in df.columns {
      var before, last := MetricEvents(df, brokerId, t, metric, n - 1), BucketEvents(df, brokerId, t, metric, n - 1);
      assert MetricEvents(df, brokerId, t, metric, n) == before + last;
      BucketEventsOne(df, brokerId, t, metric, n - 1);
      hide BucketEvents, OfMetric, MetricEvents;
      MetricEventsInOrder(df, brokerId, t, metric, n - 1);
      OfMetricAppend(before, last, metric, n - 1);
    }
  }

  /** Events of earlier metrics followed by those of one metric. */
  lemma OrderAppend(before: seq<AnomalyEvent>, last: seq<AnomalyEvent>, metrics: seq<Metric>, metric: Metric, n: nat)
    requires InOrder(before, metrics) && OfMetric(last, metric, n)
    requires forall j :: 0 <= j < |before| ==> PlaceOf(before[j].metric, metrics) < PlaceOf(metric, metrics)
    ensures InOrder(before + last, metrics)
    ensures forall j :: 0 <= j < |before + last| ==> PlaceOf((before + last)[j].metric, metrics) <= PlaceOf(metric, metrics)
  {
    hide PlaceOf;
    var all := before + last;
    forall i, j | 0 <= i < j < |all|
      ensures || PlaceOf(all[i].metric, metrics) < PlaceOf(all[j].metric, metrics)
              || (all[i].metric == all[j].metric && all[i].bucket < all[j].bucket)
    {
      if j < |before| {
        assert all[i] == before[i] && all[j] == before[j];
      } else if i < |before| {
        assert all[i] == before[i] && all[j] == last[j - |before|];
      } else {
        assert all[i] == last[i - |before|] && all[j] == last[j - |before|];
      }
    }
  }

  lemma {:induction false} PlaceIsIndex(metrics: seq<Metric>, i: nat)
    requires i < |metrics| && forall i, j :: 0 <= i < j < |metrics| ==> metrics[i] != metrics[j]
    ensures PlaceOf(metrics[i], metrics) == i
  {
    if i > 0 {
      PlaceIsIndex(metrics[1..], i - 1);
    }
  }

  lemma {:induction false} EventsInOrder(df: Frame, brokerId: Option<string>, t: Thresholds, metrics: seq<Metric>, k: nat)
    requires df.Valid() && k <= |metrics| && forall i, j :: 0 <= i < j < |metrics| ==> metrics[i] != metrics[j]
    ensures var events := EventsOf(df, brokerId, t, metrics[..k]);
            InOrder(events, metrics) && forall j :: 0 <= j < |events| ==> PlaceOf(events[j].metric, metrics) < k
  {
    if k > 0 {
      EventsInOrder(df, brokerId, t, metrics, k - 1);
      MetricEventsInOrder(df, brokerId, t, metrics[k - 1], |df.labels|);
      PlaceIsIndex(metrics, k - 1);
      assert metrics[..k][..k - 1] == metrics[..k - 1];
      hide MetricEvents, PlaceOf, InOrder, OfMetric;
      var before, last := EventsOf(df, brokerId, t, metrics[..k - 1]), MetricEvents(df, brokerId, t, metrics[k - 1], |df.labels|);
      assert EventsOf(df, brokerId, t, metrics[..k]) == before + last;
      hide EventsOf;
      OrderAppend(before, last, metrics, metrics[k - 1], |df.labels|);
    }
  }

  /** Exactly the buckets of the four metrics that reach a level are reported, each truthfully, once and in order. */
  lemma DetectedExactly(df: Frame, brokerId: Option<string>, t: Thresholds)
    requires df.Valid()
    ensures forall m :: m in METRICS ==> Exact(df, brokerId, t, EventsOf(df, brokerId, t, METRICS), m, |df.labels|)
    ensures InOrder(EventsOf(df, brokerId, t, METRICS), METRICS)
  {
    hide Exact, EventsOf, InOrder;
    forall m | m in METRICS
      ensures Exact(df, brokerId, t, EventsOf(df, brokerId, t, METRICS), m, |df.labels|)
    {
      DetectedAmong(df, brokerId, t, METRICS, m);
    }
    assert METRICS[..4] == METRICS;
    EventsInOrder(df, brokerId, t, METRICS, 4);
  }

  lemma GenuineReports(df: Frame, brokerId: Option<string>, t: Thresholds, events: seq<AnomalyEvent>, metric: Metric, i: nat)
    requires df.Valid() && metric in df.columns && i < |df.labels|
    requires forall j :: 0 <= j < |events| ==> Genuine(df, brokerId, t, events[j])
    ensures Reported(events, metric, i) ==> Flagged(df, t, metric, i)
  {
    hide LastScore, BucketBeyond;
  }

  /** For a bucket that reaches a positive level, to be above the mean including it is to be above the mean before it. */
  lemma SameDirection(ys: seq<real>, x: real, k: real)
    requires k > 0.0 && Beyond(ys, x, k)
    ensures |ys| >= 2 && LastScore(ys + [x]).Score?
    ensures x > Mean(ys + [x]) <==> x > Mean(ys)
  {
    BeyondExactly(ys, x, k);
    hide Mean, Variance, Deviation, Square, Reaches, Exceeds;
    OneMoreValue(ys, x);
    SameSign(|ys| as real, |ys| as real + 1.0, x - Mean(ys), x - Mean(ys + [x]));
  }

  /**
   The direction an event reports agrees with the baseline it reports, although the score is
   taken against another mean: a flagged bucket is a spike exactly when it is above the mean of
   the buckets before it.
   */
  lemma SpikeIsAboveBaseline(df: Frame, brokerId: Option<string>, t: Thresholds, metrics: seq<Metric>, j: nat)
    requires df.Valid() && t.high > 0.0 && t.low > 0.0 && j < |EventsOf(df, brokerId, t, metrics)|
    ensures var e := EventsOf(df, brokerId, t, metrics)[j];
            e.bucket > 0 && (e.spike <==> e.observed > e.baselineMean)
  {
    hide LastScore, Mean, Beyond, EventsOf;
    var e := EventsOf(df, brokerId, t, metrics)[j];
    EventsAreGenuine(df, brokerId, t, metrics, j);
    var column := df.columns[e.metric];
    assert column[..e.bucket + 1] == column[..e.bucket] + [column[e.bucket]];
    SameDirection(column[..e.bucket], column[e.bucket], if e.severity == High then t.high else t.low);
  }

  /** With the default thresholds nothing is reported in the first 5 buckets and nothing HIGH in the first 10. */
  lemma NothingEarly(df: Frame, brokerId: Option<string>, metrics: seq<Metric>, j: nat)
    requires df.Valid() && j < |EventsOf(df, brokerId, DEFAULT, metrics)|
    ensures var e := EventsOf(df, brokerId, DEFAULT, metrics)[j];
            e.bucket >= 5 && (e.severity == High ==> e.bucket >= 10)
  {
    hide LastScore, AtLeast, Square, EventsOf, Beyond;
    var e := EventsOf(df, brokerId, DEFAULT, metrics)[j];
    EventsAreGenuine(df, brokerId, DEFAULT, metrics, j);
    var column := df.columns[e.metric];
    var k := if e.severity == High then 3.0 else 2.0;
    assert column[..e.bucket + 1] == column[..e.bucket] + [column[e.bucket]];
    BeyondExactly(column[..e.bucket], column[e.bucket], k);
    ScoreNeedsHistory(column[..e.bucket + 1], k);
    SmallSquares(e.bucket);
  }

  lemma SmallSquares(m: nat)
    ensures m as real * m as real >= Square(2.0) * (m + 1) as real ==> m >= 5
    ensures m as real * m as real >= Square(3.0) * (m + 1) as real ==> m >= 10
  {
    if m < 10 {
      assert (m * m) as real == m as real * m as real;
    }
  }
}
