/** The least-squares pressure forecast of the autonomy loop, over exact reals (times in seconds). */
module Forecast {

  datatype Observation = Observation(
    at: real,
    queuePressure: real,
    errorRate: real,
    meanLatencyMS: real,
    retryRate: real,
    completed: nat)

  datatype Confidence = Insufficient | Low | Medium | High

  datatype Forecast = Forecast(
    horizon: real,
    samples: nat,
    currentPressure: real,
    predictedPressure: real,
    slopePerSecond: real,
    confidence: Confidence)

  function Clamp(value: real, low: real, high: real): real {
    if value < low then low else if value > high then high else value
  }

  // ---------------------------------------------------------------- sums over the window

  /** A sample as the regression sees it: seconds since the first one, and pressure clipped to [0, 1]. */
  datatype Point = Point(x: real, y: real)

  function Points(history: seq<Observation>): (ps: seq<Point>)
    ensures |ps| == |history|
    ensures forall i :: 0 <= i < |ps| ==> ps[i] == Point(history[i].at - history[0].at, Clamp(history[i].queuePressure, 0.0, 1.0))
  {
    seq(|history|, i requires 0 <= i < |history| =>
      Point(history[i].at - history[0].at, Clamp(history[i].queuePressure, 0.0, 1.0)))
  }

  datatype Moments = Moments(n: real, x: real, y: real, xy: real, xx: real)

  function Add(m: Moments, p: Point): Moments {
    Moments(m.n + 1.0, m.x + p.x, m.y + p.y, m.xy + p.x * p.y, m.xx + p.x * p.x)
  }

  /** The running sums after the first `k` samples. */
  function MomentsTo(ps: seq<Point>, k: nat): (m: Moments)
    requires k <= |ps|
    ensures m.n == k as real
  {
    if k == 0 then Moments(0.0, 0.0, 0.0, 0.0, 0.0)
    else Add(MomentsTo(ps, k - 1), ps[k - 1])
  }

  function MomentsOf(ps: seq<Point>): Moments { MomentsTo(ps, |ps|) }

  function Numerator(m: Moments): real { m.n * m.xy - m.x * m.y }

  function Denominator(m: Moments): real { m.n * m.xx - m.x * m.x }

  function Gap(p: Point, q: Point): real { (p.x - q.x) * (p.y - q.y) }

  /** The sum of the gaps between `q` and the first `k` samples. */
  ghost function Against(ps: seq<Point>, k: nat, q: Point): real
    requires k <= |ps|
  {
    if k == 0 then 0.0 else Against(ps, k - 1, q) + Gap(ps[k - 1], q)
  }

  /** The sum of the gaps over all pairs of the first `k` samples. */
  ghost function PairSum(ps: seq<Point>, k: nat): real
    requires k <= |ps|
  {
    if k == 0 then 0.0 else PairSum(ps, k - 1) + Against(ps, k - 1, ps[k - 1])
  }

  ghost function AgainstMoments(m: Moments, q: Point): real {
    m.xy + m.n * (q.x * q.y) - q.x * m.y - q.y * m.x
  }

  lemma AgainstStep(m: Moments, p: Point, q: Point)
    ensures AgainstMoments(Add(m, p), q) == AgainstMoments(m, q) + Gap(p, q)
  {
  }

  lemma {:induction false} AgainstFromMoments(ps: seq<Point>, k: nat, q: Point)
    requires k <= |ps|
    ensures Against(ps, k, q) == AgainstMoments(MomentsTo(ps, k), q)
  {
    if k > 0 {
      AgainstFromMoments(ps, k - 1, q);
      AgainstStep(MomentsTo(ps, k - 1), ps[k - 1], q);
    }
  }

  lemma NumeratorStep(m: Moments, q: Point)
    ensures Numerator(Add(m, q)) == Numerator(m) + AgainstMoments(m, q)
  {
  }

  /** The regression numerator counts every pair of samples once. */
  lemma {:induction false} NumeratorIsPairSum(ps: seq<Point>, k: nat)
    requires k <= |ps|
    ensures Numerator(MomentsTo(ps, k)) == PairSum(ps, k)
  {
    if k > 0 {
      NumeratorIsPairSum(ps, k - 1);
      AgainstFromMoments(ps, k - 1, ps[k - 1]);
      NumeratorStep(MomentsTo(ps, k - 1), ps[k - 1]);
    }
  }

  ghost predicate TimesOrdered(ps: seq<Point>) {
    forall i, j :: 0 <= i < j < |ps| ==> ps[i].x <= ps[j].x
  }

  ghost predicate Rising(ps: seq<Point>) {
    forall i, j :: 0 <= i < j < |ps| ==> ps[i].y <= ps[j].y
  }

  ghost predicate Falling(ps: seq<Point>) {
    forall i, j :: 0 <= i < j < |ps| ==> ps[i].y >= ps[j].y
  }

  lemma GapSign(p: Point, q: Point)
    requires p.x <= q.x
    ensures p.y <= q.y ==> Gap(p, q) >= 0.0
    ensures p.y >= q.y ==> Gap(p, q) <= 0.0
  {
  }

  lemma {:induction false} AgainstSign(ps: seq<Point>, k: nat, q: Point)
    requires k <= |ps| && forall i :: 0 <= i < k ==> ps[i].x <= q.x
    ensures (forall i :: 0 <= i < k ==> ps[i].y <= q.y) ==> Against(ps, k, q) >= 0.0
    ensures (forall i :: 0 <= i < k ==> ps[i].y >= q.y) ==> Against(ps, k, q) <= 0.0
  {
    if k > 0 {
      AgainstSign(ps, k - 1, q);
      GapSign(ps[k - 1], q);
    }
  }

  lemma {:induction false} PairSumSign(ps: seq<Point>, k: nat)
    requires k <= |ps| && TimesOrdered(ps)
    ensures Rising(ps) ==> PairSum(ps, k) >= 0.0
    ensures Falling(ps) ==> PairSum(ps, k) <= 0.0
  {
    if k > 0 {
      PairSumSign(ps, k - 1);
      AgainstSign(ps, k - 1, ps[k - 1]);
    }
  }

  /** The denominator is the numerator of the times against themselves, so it is never negative. */
  lemma DenominatorNonNegative(ps: seq<Point>)
    ensures Denominator(MomentsOf(ps)) >= 0.0
  {
    var squares := seq(|ps|, i requires 0 <= i < |ps| => Point(ps[i].x, ps[i].x));
    NumeratorIsPairSum(squares, |ps|);
    SquaresMoments(ps, squares, |ps|);
    SquaresPairSum(squares, |ps|);
    SameProducts(MomentsOf(ps), MomentsOf(squares));
  }

  predicate SquaredTimes(m: Moments, s: Moments) {
    s.n == m.n && s.x == m.x && s.y == m.x && s.xy == m.xx
  }

  lemma SameProducts(m: Moments, s: Moments)
    requires SquaredTimes(m, s)
    ensures Denominator(m) == Numerator(s)
  {
  }

  lemma {:induction false} SquaresMoments(ps: seq<Point>, squares: seq<Point>, k: nat)
    requires k <= |squares| == |ps| && forall i :: 0 <= i < |ps| ==> squares[i] == Point(ps[i].x, ps[i].x)
    ensures SquaredTimes(MomentsTo(ps, k), MomentsTo(squares, k))
  {
    if k > 0 {
      SquaresMoments(ps, squares, k - 1);
      SquaresStep(MomentsTo(ps, k - 1), MomentsTo(squares, k - 1), ps[k - 1]);
    }
  }

  lemma SquaresStep(m: Moments, s: Moments, p: Point)
    requires SquaredTimes(m, s)
    ensures SquaredTimes(Add(m, p), Add(s, Point(p.x, p.x)))
  {
  }

  lemma SquareGap(p: Point, q: Point)
    requires p.x == p.y && q.x == q.y
    ensures Gap(p, q) >= 0.0
  {
  }

  lemma {:induction false} SquaresPairSum(squares: seq<Point>, k: nat)
    requires k <= |squares| && forall i :: 0 <= i < |squares| ==> squares[i].x == squares[i].y
    ensures PairSum(squares, k) >= 0.0
  {
    if k > 0 {
      SquaresPairSum(squares, k - 1);
      SquaresAgainst(squares, k - 1, squares[k - 1]);
    }
  }

  lemma {:induction false} SquaresAgainst(squares: seq<Point>, k: nat, q: Point)
    requires k <= |squares| && q.x == q.y && forall i :: 0 <= i < |squares| ==> squares[i].x == squares[i].y
    ensures Against(squares, k, q) >= 0.0
  {
    if k > 0 {
      SquaresAgainst(squares, k - 1, q);
      SquareGap(squares[k - 1], q);
    }
  }

  // ---------------------------------------------------------------- the forecast

  function ConfidenceFor(samples: nat): Confidence {
    if samples >= 8 then High else if samples >= 4 then Medium else Low
  }

  /** Without two samples, or with all of them at one instant, there is no trend to project. */
  predicate HasTrend(history: seq<Observation>) {
    |history| >= 2 && !(-0.000000000001 < Denominator(MomentsOf(Points(history))) < 0.000000000001)
  }

  function Slope(history: seq<Observation>): real
    requires HasTrend(history)
  {
    Numerator(MomentsOf(Points(history))) / Denominator(MomentsOf(Points(history)))
  }

  function Current(history: seq<Observation>): real
    requires history != []
  {
    Clamp(history[|history| - 1].queuePressure, 0.0, 1.0)
  }

  function Predict(history: seq<Observation>, horizon: real): (f: Forecast) {
    if history == [] then Forecast(horizon, 0, 0.0, 0.0, 0.0, Insufficient)
    else if !HasTrend(history) then Forecast(horizon, |history|, Current(history), Current(history), 0.0, Insufficient)
    else
      Forecast(horizon, |history|, Current(history),
               Clamp(Current(history) + Slope(history) * horizon, 0.0, 1.0),
               Slope(history), ConfidenceFor(|history|))
  }

  /** The accumulation loop: one pass over the window. */
  method Accumulate(history: seq<Observation>) returns (m: Moments)
    requires history != []
    ensures m == MomentsOf(Points(history))
  {
    var origin := history[0].at;
    m := Moments(0.0, 0.0, 0.0, 0.0, 0.0);
    ghost var ps := Points(history);
    for i := 0 to |history|
      invariant m == MomentsTo(ps, i)
    {
      m := Add(m, Point(history[i].at - origin, Clamp(history[i].queuePressure, 0.0, 1.0)));
    }
  }

  method ForecastPressure(history: seq<Observation>, horizon: real) returns (result: Forecast)
    ensures result == Predict(history, horizon)
    ensures result.horizon == horizon && result.samples == |history|
    ensures result.confidence.High? <==> HasTrend(history) && |history| >= 8
    ensures result.confidence.Medium? <==> HasTrend(history) && 4 <= |history| < 8
    ensures result.confidence.Insufficient? <==> !HasTrend(history)
  {
    result := Forecast(horizon, |history|, 0.0, 0.0, 0.0, Insufficient);
    if |history| == 0 { return; }
    var current := Clamp(history[|history| - 1].queuePressure, 0.0, 1.0);
    result := result.(currentPressure := current, predictedPressure := current);
    if |history| < 2 { return; }
    var m := Accumulate(history);
    if -0.000000000001 < Denominator(m) < 0.000000000001 { return; }
    var slope := Numerator(m) / Denominator(m);
    result := result.(slopePerSecond := slope,
                      predictedPressure := Clamp(current + slope * horizon, 0.0, 1.0),
                      confidence := ConfidenceFor(|history|));
  }

  lemma Quotient(a: real, b: real)
    requires b > 0.0
    ensures a >= 0.0 ==> a / b >= 0.0
    ensures a <= 0.0 ==> a / b <= 0.0
    ensures (a / b) * b == a
  {
  }

  lemma Scaled(slope: real, horizon: real)
    requires horizon >= 0.0
    ensures slope >= 0.0 ==> slope * horizon >= 0.0
    ensures slope <= 0.0 ==> slope * horizon <= 0.0
  {
  }

  /** The forecast follows the window: a rising one is never predicted to fall, and the other way round. */
  lemma ForecastFollowsTrend(history: seq<Observation>, horizon: real)
    requires horizon >= 0.0
    requires TimesOrdered(Points(history))
    ensures 0.0 <= Predict(history, horizon).predictedPressure <= 1.0
    ensures Rising(Points(history)) ==>
              Predict(history, horizon).predictedPressure >= Predict(history, horizon).currentPressure
    ensures Falling(Points(history)) ==>
              Predict(history, horizon).predictedPressure <= Predict(history, horizon).currentPressure
  {
    if HasTrend(history) {
      var ps := Points(history);
      NumeratorIsPairSum(ps, |ps|);
      PairSumSign(ps, |ps|);
      DenominatorNonNegative(ps);
      Quotient(Numerator(MomentsOf(ps)), Denominator(MomentsOf(ps)));
      Scaled(Slope(history), horizon);
    }
  }

  // ---------------------------------------------------------------- least squares

  function Square(v: real): (r: real)
    ensures r >= 0.0
  {
    v * v
  }

  ghost function Miss(p: Point, a: real, b: real): real { Square(p.y - a * p.x - b) }

  /** The squared error of the line `y = a * x + b` over the first `k` samples. */
  ghost function SquaredError(ps: seq<Point>, k: nat, a: real, b: real): real
    requires k <= |ps|
  {
    if k == 0 then 0.0 else SquaredError(ps, k - 1, a, b) + Miss(ps[k - 1], a, b)
  }

  ghost function SumYY(ps: seq<Point>, k: nat): real
    requires k <= |ps|
  {
    if k == 0 then 0.0 else SumYY(ps, k - 1) + Square(ps[k - 1].y)
  }

  ghost function Quadratic(m: Moments, yy: real, a: real, b: real): real {
    yy - 2.0 * (a * m.xy) - 2.0 * (b * m.y) + (a * a) * m.xx + 2.0 * ((a * b) * m.x) + m.n * (b * b)
  }

  lemma {:induction false} ErrorIsQuadratic(ps: seq<Point>, k: nat, a: real, b: real)
    requires k <= |ps|
    ensures SquaredError(ps, k, a, b) == Quadratic(MomentsTo(ps, k), SumYY(ps, k), a, b)
  {
    if k > 0 {
      ErrorIsQuadratic(ps, k - 1, a, b);
      QuadraticStep(MomentsTo(ps, k - 1), SumYY(ps, k - 1), ps[k - 1], a, b);
    }
  }

  lemma QuadraticStep(m: Moments, yy: real, p: Point, a: real, b: real)
    ensures Quadratic(Add(m, p), yy + Square(p.y), a, b) == Quadratic(m, yy, a, b) + Miss(p, a, b)
  {
  }

  /** The excess error of another line over one that satisfies the normal equations. */
  lemma ExcessError(m: Moments, yy: real, a: real, b: real, da: real, db: real)
    requires a * m.xx + b * m.x == m.xy
    requires a * m.x + b * m.n == m.y
    ensures m.n * (Quadratic(m, yy, a + da, b + db) - Quadratic(m, yy, a, b))
         == Square(m.n * db + da * m.x) + Square(da) * Denominator(m)
  {
  }

  /** Slope and intercept of the window satisfy the normal equations. */
  lemma NormalEquations(m: Moments, slope: real, intercept: real)
    requires m.n > 0.0 && slope * Denominator(m) == Numerator(m) && intercept * m.n == m.y - slope * m.x
    ensures slope * m.x + intercept * m.n == m.y
    ensures slope * m.xx + intercept * m.x == m.xy
  {
    var lhs := slope * m.xx + intercept * m.x;
    assert m.n * lhs == slope * (m.n * m.xx) + (intercept * m.n) * m.x;
    assert m.n * lhs == slope * (m.n * m.xx) + (m.y - slope * m.x) * m.x;
    assert m.n * lhs == slope * Denominator(m) + m.y * m.x;
    assert m.n * lhs == m.n * m.xy;
  }

  lemma NoBetter(m: Moments, yy: real, slope: real, intercept: real, a: real, b: real)
    requires m.n > 0.0 && Denominator(m) >= 0.0
    requires slope * Denominator(m) == Numerator(m) && intercept * m.n == m.y - slope * m.x
    ensures Quadratic(m, yy, slope, intercept) <= Quadratic(m, yy, a, b)
  {
    NormalEquations(m, slope, intercept);
    var da, db := a - slope, b - intercept;
    ExcessError(m, yy, slope, intercept, da, db);
    var excess := Quadratic(m, yy, slope + da, intercept + db) - Quadratic(m, yy, slope, intercept);
    NonNegativeProduct(Square(da), Denominator(m));
    assert m.n * excess >= 0.0;
    if excess < 0.0 { NegativeProduct(m.n, excess); }
  }

  lemma NonNegativeProduct(a: real, b: real)
    requires a >= 0.0 && b >= 0.0
    ensures a * b >= 0.0
  {
  }

  lemma NegativeProduct(a: real, b: real)
    requires a > 0.0 && b < 0.0
    ensures a * b < 0.0
  {
  }

  /** The height at which the fitted line starts. */
  ghost function Intercept(history: seq<Observation>): (b: real)
    requires HasTrend(history)
    ensures var m := MomentsOf(Points(history)); b * m.n == m.y - Slope(history) * m.x
  {
    var m := MomentsOf(Points(history));
    Quotient(m.y - Slope(history) * m.x, m.n);
    (m.y - Slope(history) * m.x) / m.n
  }

  lemma FittedLineIsBest(ps: seq<Point>, slope: real, intercept: real, a: real, b: real)
    requires var m := MomentsOf(ps);
             && m.n > 0.0 && Denominator(m) >= 0.0
             && slope * Denominator(m) == Numerator(m) && intercept * m.n == m.y - slope * m.x
    ensures SquaredError(ps, |ps|, slope, intercept) <= SquaredError(ps, |ps|, a, b)
  {
    NoBetter(MomentsOf(ps), SumYY(ps, |ps|), slope, intercept, a, b);
    CompareErrors(ps, slope, intercept, a, b);
  }

  lemma CompareErrors(ps: seq<Point>, slope: real, intercept: real, a: real, b: real)
    requires Quadratic(MomentsOf(ps), SumYY(ps, |ps|), slope, intercept) <= Quadratic(MomentsOf(ps), SumYY(ps, |ps|), a, b)
    ensures SquaredError(ps, |ps|, slope, intercept) <= SquaredError(ps, |ps|, a, b)
  {
    ErrorIsQuadratic(ps, |ps|, slope, intercept);
    ErrorIsQuadratic(ps, |ps|, a, b);
  }

  /** The slope is the least-squares slope: no line fits the window better. */
  lemma SlopeIsLeastSquares(history: seq<Observation>, a: real, b: real)
    requires HasTrend(history)
    ensures var ps := Points(history);
            SquaredError(ps, |ps|, Slope(history), Intercept(history)) <= SquaredError(ps, |ps|, a, b)
  {
    var ps := Points(history);
    DenominatorNonNegative(ps);
    Quotient(Numerator(MomentsOf(ps)), Denominator(MomentsOf(ps)));
    FittedLineIsBest(ps, Slope(history), Intercept(history), a, b);
  }

  // ---------------------------------------------------------------- what is predicted

  /** No line has a smaller squared error over the window. */
  ghost predicate BestLine(ps: seq<Point>, a: real, b: real) {
    forall a', b' :: SquaredError(ps, |ps|, a, b) <= SquaredError(ps, |ps|, a', b')
  }

  lemma NoExcess(m: Moments, yy: real, slope: real, intercept: real, a: real, b: real)
    requires m.n > 0.0 && Denominator(m) > 0.0
    requires slope * Denominator(m) == Numerator(m) && intercept * m.n == m.y - slope * m.x
    requires Quadratic(m, yy, a, b) <= Quadratic(m, yy, slope, intercept)
    ensures a == slope
  {
    NormalEquations(m, slope, intercept);
    var da, db := a - slope, b - intercept;
    ExcessError(m, yy, slope, intercept, da, db);
    ExcessVanishes(m.n, Quadratic(m, yy, slope + da, intercept + db) - Quadratic(m, yy, slope, intercept),
                   m.n * db + da * m.x, da, Denominator(m));
  }

  lemma ExcessVanishes(n: real, excess: real, s: real, da: real, d: real)
    requires n > 0.0 && d > 0.0 && excess <= 0.0 && n * excess == Square(s) + Square(da) * d
    ensures da == 0.0
  {
    if excess < 0.0 { NegativeProduct(n, excess); }
    NonNegativeProduct(Square(da), d);
    assert Square(da) * d <= 0.0;
    if da != 0.0 {
      PositiveSquare(da);
      PositiveProduct(Square(da), d);
    }
  }

  lemma PositiveSquare(v: real)
    requires v != 0.0
    ensures Square(v) > 0.0
  {
    var s := if v > 0.0 then ProductOf(v, v) else ProductOf(-v, -v);
    assert Square(v) == s;
  }

  /** The product by name, so that its sign does not depend on its shape. */
  function ProductOf(a: real, b: real): (product: real)
    ensures product == a * b
    ensures a > 0.0 && b > 0.0 ==> product > 0.0
  {
    a * b
  }

  lemma PositiveProduct(a: real, b: real)
    requires a > 0.0 && b > 0.0
    ensures a * b > 0.0
  {
  }

  /** Only one slope is best. */
  lemma BestSlopeIsUnique(history: seq<Observation>, a: real, b: real)
    requires HasTrend(history) && BestLine(Points(history), a, b)
    ensures a == Slope(history)
  {
    var ps := Points(history);
    DenominatorNonNegative(ps);
    Quotient(Numerator(MomentsOf(ps)), Denominator(MomentsOf(ps)));
    QuadraticOfBest(ps, a, b, Slope(history), Intercept(history));
    NoExcess(MomentsOf(ps), SumYY(ps, |ps|), Slope(history), Intercept(history), a, b);
  }

  lemma QuadraticOfBest(ps: seq<Point>, a: real, b: real, slope: real, intercept: real)
    requires BestLine(ps, a, b)
    ensures Quadratic(MomentsOf(ps), SumYY(ps, |ps|), a, b) <= Quadratic(MomentsOf(ps), SumYY(ps, |ps|), slope, intercept)
  {
    assert SquaredError(ps, |ps|, a, b) <= SquaredError(ps, |ps|, slope, intercept);
    ErrorIsQuadratic(ps, |ps|, a, b);
    ErrorIsQuadratic(ps, |ps|, slope, intercept);
  }

  /** The prediction leaves the last pressure along the best line for the length of the horizon, clipped to [0, 1]. */
  lemma PredictionFollowsBestLine(history: seq<Observation>, horizon: real, a: real, b: real)
    requires HasTrend(history) && BestLine(Points(history), a, b)
    ensures var last := history[|history| - 1].queuePressure;
            var current := if last < 0.0 then 0.0 else if last > 1.0 then 1.0 else last;
            var reached := current + a * horizon;
            && Predict(history, horizon).currentPressure == current && Predict(history, horizon).slopePerSecond == a
            && Predict(history, horizon).predictedPressure == if reached < 0.0 then 0.0 else if reached > 1.0 then 1.0 else reached
  {
    BestSlopeIsUnique(history, a, b);
  }

  ghost predicate Linear(ps: seq<Point>, a: real, b: real) {
    forall i :: 0 <= i < |ps| ==> ps[i].y == a * ps[i].x + b
  }

  ghost predicate LinearSums(m: Moments, a: real, b: real) {
    m.y == a * m.x + b * m.n && m.xy == a * m.xx + b * m.x
  }

  lemma LinearStep(m: Moments, p: Point, a: real, b: real)
    requires LinearSums(m, a, b) && p.y == a * p.x + b
    ensures LinearSums(Add(m, p), a, b)
  {
  }

  lemma {:induction false} LinearMoments(ps: seq<Point>, k: nat, a: real, b: real)
    requires k <= |ps| && Linear(ps, a, b)
    ensures LinearSums(MomentsTo(ps, k), a, b)
  {
    if k > 0 {
      LinearMoments(ps, k - 1, a, b);
      LinearStep(MomentsTo(ps, k - 1), ps[k - 1], a, b);
    }
  }

  lemma LinearNumerator(m: Moments, a: real, b: real)
    requires LinearSums(m, a, b)
    ensures Numerator(m) == a * Denominator(m)
  {
    assert m.n * m.xy == m.n * (a * m.xx) + m.n * (b * m.x);
    assert m.x * m.y == m.x * (a * m.x) + m.x * (b * m.n);
  }

  lemma Cancel(a: real, d: real)
    requires d != 0.0
    ensures (a * d) / d == a
  {
  }

  lemma SlopeOfLine(history: seq<Observation>, a: real, b: real)
    requires HasTrend(history) && Linear(Points(history), a, b)
    ensures Slope(history) == a
  {
    var m := MomentsOf(Points(history));
    LinearMoments(Points(history), |history|, a, b);
    LinearNumerator(m, a, b);
    Cancel(a, Denominator(m));
  }

  /** A pressure that moves along a line is predicted to stay on it. */
  lemma LineIsContinued(history: seq<Observation>, horizon: real, a: real, b: real)
    requires HasTrend(history) && Linear(Points(history), a, b)
    ensures Slope(history) == a
    ensures Predict(history, horizon).predictedPressure == Clamp(Current(history) + a * horizon, 0.0, 1.0)
  {
    SlopeOfLine(history, a, b);
  }

  /** A steady pressure is predicted to stay where it is. */
  lemma SteadyStays(history: seq<Observation>, horizon: real, pressure: real)
    requires history != [] && 0.0 <= pressure <= 1.0
    requires forall i :: 0 <= i < |history| ==> history[i].queuePressure == pressure
    ensures Predict(history, horizon).predictedPressure == pressure
  {
    if HasTrend(history) {
      assert Linear(Points(history), 0.0, pressure);
      LineIsContinued(history, horizon, 0.0, pressure);
    }
  }
}
