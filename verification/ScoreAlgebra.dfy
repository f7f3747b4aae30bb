/** Facts about real numbers behind the z-score, free of sums over series. */
module ScoreAlgebra {

  function Square(x: real): real {
    x * x
  }

  /** A distance and a variance whose score is at least k > 0 in magnitude. */
  predicate Reaches(dist: real, v: real, k: real) {
    v != 0.0 && Square(dist) >= Square(k) * v
  }

  /**
   The same in terms of the values before the last: m of them, n = m + 1, at distance d from
   their mean, with `prior` as the sum of their squared deviations.
   */
  predicate Criterion(m: real, n: real, d: real, k: real, prior: real) {
    d != 0.0 && m * (m * m - Square(k) * n) * Square(d) >= Square(k) * n * n * prior
  }

  // ----- Signs and factors -----

  lemma Positive(a: real, b: real, p: real)
    requires a > 0.0 && b > 0.0 && p == a * b
    ensures p > 0.0
  {
  }

  lemma SquarePositive(d: real)
    ensures Square(d) >= 0.0
    ensures d != 0.0 ==> Square(d) > 0.0
  {
    if d > 0.0 {
      Positive(d, d, Square(d));
    } else if d < 0.0 {
      Positive(-d, -d, Square(d));
    }
  }

  lemma Scaled(c: real, a: real, b: real)
    requires c > 0.0
    ensures a >= b <==> c * a >= c * b
  {
    if a > b {
      Positive(c, a - b, c * (a - b));
    } else if a < b {
      Positive(c, b - a, c * (b - a));
    }
  }

  lemma SameFactor(n: real, a: real, b: real)
    requires n > 0.0 && n * a == n * b
    ensures a == b
  {
    Scaled(n, a, b);
    Scaled(n, b, a);
  }

  lemma Monotone(c: real, l: real, q: real)
    requires c >= l && q >= 0.0
    ensures c * q >= l * q
  {
    assert (c - l) * q >= 0.0;
  }

  lemma SameSign(m: real, n: real, d: real, e: real)
    requires m > 0.0 && n > 0.0 && n * e == m * d
    ensures d > 0.0 <==> e > 0.0
  {
    if d > 0.0 {
      Positive(m, d, m * d);
      Scaled(n, 0.0, e);
    } else if e > 0.0 {
      Positive(n, e, n * e);
      Scaled(m, 0.0, d);
    }
  }

  // ----- One more value -----

  /** `g` is the step of the mean when a value arrives at distance `d` from it. */
  lemma UpdateIdentity(m: real, n: real, d: real, g: real)
    requires n == m + 1.0 && n * g == -d
    ensures n * (d + g) == m * d
    ensures n * (m * g * g + (d + g) * (d + g)) == m * d * d
  {
    var h := d + g;
    assert n * h == n * d + n * g;
    assert m * g == -h;
    assert m * g * g == -h * g;
    assert m * g * g + h * h == h * d;
    assert n * (h * d) == (n * h) * d;
  }

  /** How mean and squared deviations move from `mu`, `prior` to `nu`, `dev` when `x` arrives. */
  lemma UpdateSquares(m: real, n: real, x: real, mu: real, nu: real, prior: real, dev: real)
    requires n == m + 1.0 && n * nu == m * mu + x
    requires dev == prior + m * Square(mu - nu) + Square(x - nu)
    ensures n * (x - nu) == m * (x - mu)
    ensures n * dev == n * prior + m * Square(x - mu)
  {
    var d, g := x - mu, mu - nu;
    assert n * g == n * mu - n * nu;
    assert n * mu == m * mu + mu;
    UpdateIdentity(m, n, d, g);
    assert x - nu == d + g;
    assert n * (m * Square(g) + Square(d + g)) == m * Square(d);
    assert n * dev == n * prior + n * (m * Square(g) + Square(d + g));
  }

  /** The same from a sum `s` and from the squares `a` around `mu`, `b` around `nu`, `c` including `x`. */
  lemma MeanUpdate(m: real, n: real, s: real, x: real, mu: real, nu: real, a: real, b: real, c: real)
    requires n == m + 1.0 && m * mu == s && n * nu == s + x
    requires b == a + Shift(m, s, mu, nu)
    requires c == b + Square(x - nu)
    ensures n * (x - nu) == m * (x - mu)
    ensures n * c == n * a + m * Square(x - mu)
  {
    var zero := s - m * mu;
    assert 2.0 * (mu - nu) * zero == 0.0;
    UpdateSquares(m, n, x, mu, nu, a, c);
  }

  /** What n values with sum s add to a sum of squares when its centre moves from a to b. */
  function Shift(n: real, s: real, a: real, b: real): real {
    2.0 * (a - b) * (s - n * a) + n * Square(a - b)
  }

  lemma ShiftStep(n: real, s: real, a: real, b: real, x: real)
    ensures Shift(n, s, a, b) + Square(x - b) == Square(x - a) + Shift(n + 1.0, s + x, a, b)
  {
    var d := a - b;
    assert x - b == (x - a) + d;
    assert Square(x - b) == Square(x - a) + 2.0 * d * (x - a) + Square(d);
    assert 2.0 * d * (s - n * a) + 2.0 * d * (x - a) == 2.0 * d * (s + x - (n + 1.0) * a);
    assert n * Square(d) + Square(d) == (n + 1.0) * Square(d);
  }

  // ----- The criterion -----

  /** A squared score against a squared threshold, cleared of denominators. */
  lemma CrossMultiplied(m: real, n: real, q: real, k2: real, a: real, v: real, prior: real)
    requires n * n * a == m * m * q
    requires n * (v * m) == n * prior + m * q
    ensures n * n * m * a - n * n * m * (k2 * v) == m * (m * m - k2 * n) * q - k2 * n * n * prior
  {
    assert n * n * m * a == m * (m * m * q);
    calc {
      n * n * m * (k2 * v);
      (k2 * n) * (n * (v * m));
      (k2 * n) * (n * prior + m * q);
      k2 * n * n * prior + k2 * n * m * q;
    }
    assert m * (m * m - k2 * n) * q == m * (m * m * q) - k2 * n * m * q;
  }

  lemma ScoreCriterion(m: real, n: real, q: real, k2: real, a: real, v: real, prior: real)
    requires m >= 2.0 && n == m + 1.0
    requires n * n * a == m * m * q
    requires n * (v * m) == n * prior + m * q
    ensures a >= k2 * v <==> m * (m * m - k2 * n) * q >= k2 * n * n * prior
  {
    CrossMultiplied(m, n, q, k2, a, v, prior);
    Positive(n, n, n * n);
    Positive(n * n, m, n * n * m);
    Scaled(n * n * m, a, k2 * v);
  }

  lemma VarianceGrows(m: real, n: real, v: real, prior: real, q: real)
    requires m > 0.0 && n > 0.0 && prior >= 0.0 && q > 0.0
    requires n * (v * m) == n * prior + m * q
    ensures v != 0.0
  {
    Positive(m, q, m * q);
  }

  lemma VarianceStays(m: real, n: real, v: real, prior: real, k2: real)
    requires m > 0.0 && n > 0.0 && prior >= 0.0 && v != 0.0 && k2 > 0.0
    requires n * (v * m) == n * prior
    ensures k2 * n * n * prior > 0.0
  {
    SameFactor(n, v * m, prior);
    assert v * m != 0.0;
    Positive(k2, n, k2 * n);
    Positive(k2 * n, n, k2 * n * n);
    Positive(k2 * n * n, prior, k2 * n * n * prior);
  }

  /** The score that includes the last value reaches k exactly when the criterion on the earlier ones holds. */
  lemma ReachesIsCriterion(m: real, n: real, d: real, k: real, dist: real, v: real, dev: real, prior: real)
    requires m >= 2.0 && n == m + 1.0 && k > 0.0 && prior >= 0.0
    requires n * dist == m * d
    requires v * m == dev && n * dev == n * prior + m * Square(d)
    ensures Reaches(dist, v, k) <==> Criterion(m, n, d, k, prior)
  {
    SquarePositive(d);
    SquarePositive(k);
    SquaredEquation(n, dist, m, d);
    assert n * (v * m) == n * dev;
    hide Square;
    ScoreCriterion(m, n, Square(d), Square(k), Square(dist), v, prior);
    if d != 0.0 {
      VarianceGrows(m, n, v, prior, Square(d));
    } else if v != 0.0 {
      VarianceStays(m, n, v, prior, Square(k));
    }
  }

  lemma SquaredEquation(n: real, x: real, m: real, y: real)
    requires n * x == m * y
    ensures n * n * Square(x) == m * m * Square(y)
  {
    assert (n * x) * (n * x) == (m * y) * (m * y);
  }

  lemma NeedsHistory(m: real, n: real, k2: real, q: real, prior: real)
    requires m > 0.0 && n > 0.0 && k2 > 0.0 && q > 0.0 && prior >= 0.0
    requires m * (m * m - k2 * n) * q >= k2 * n * n * prior
    ensures m * m >= k2 * n
  {
    var g := k2 * n - m * m;
    Positive(k2, n, k2 * n);
    Positive(k2 * n, n, k2 * n * n);
    Monotone(k2 * n * n, 0.0, prior);
    assert m * (m * m - k2 * n) * q == -(m * g * q);
    if g > 0.0 {
      Positive(m, g, m * g);
      Positive(m * g, q, m * g * q);
    }
  }

  /** The criterion fails when the factor in front of the distance is negative. */
  lemma CriterionNeedsHistory(m: real, n: real, d: real, k: real, prior: real)
    requires m > 0.0 && n > 0.0 && k > 0.0 && prior >= 0.0
    requires Criterion(m, n, d, k, prior)
    ensures m * m >= Square(k) * n
  {
    SquarePositive(k);
    SquarePositive(d);
    NeedsHistory(m, n, Square(k), Square(d), prior);
  }

  lemma Jump(m: real, n: real, k2: real, q: real)
    requires m > 0.0 && n > 0.0 && k2 > 0.0 && q > 0.0
    ensures m * (m * m - k2 * n) * q >= 0.0 <==> m * m >= k2 * n
  {
    Positive(m, q, m * q);
    Scaled(m * q, m * m, k2 * n);
    assert m * (m * m - k2 * n) * q == (m * q) * (m * m) - (m * q) * (k2 * n);
  }

  /** Without prior deviation only the sign of that factor counts. */
  lemma CriterionWithoutPrior(m: real, n: real, d: real, k: real)
    requires m > 0.0 && n > 0.0 && k > 0.0 && d != 0.0
    ensures Criterion(m, n, d, k, 0.0) <==> m * m >= Square(k) * n
  {
    SquarePositive(k);
    SquarePositive(d);
    Jump(m, n, Square(k), Square(d));
  }

  lemma FactorGap(m: real, n: real, k2: real)
    requires m >= 2.0 && n == m + 1.0 && k2 > 0.0
    ensures n * n * (m - 1.0) >= m * (m * m - k2 * n)
    ensures n * n * (m - 1.0) > 0.0
  {
    Positive(n, n, n * n);
    Positive(n * n, m - 1.0, n * n * (m - 1.0));
    Positive(k2, n, k2 * n);
    Positive(k2 * n, m, k2 * n * m);
    assert n * n * (m - 1.0) == m * m * m + m * m - m - 1.0;
    assert m * (m * m - k2 * n) == m * m * m - k2 * n * m;
    Monotone(m, 2.0, m - 1.0);
    assert m * m - m == m * (m - 1.0);
  }

  /** The criterion is stronger than comparing the distance with the prior variance `v`. */
  lemma CriterionImpliesPriorScore(m: real, n: real, d: real, k: real, v: real, prior: real)
    requires m >= 2.0 && n == m + 1.0 && k > 0.0
    requires prior == v * (m - 1.0) && Criterion(m, n, d, k, prior)
    ensures Square(d) >= Square(k) * v
  {
    SquarePositive(k);
    SquarePositive(d);
    PriorScore(m, n, Square(d), Square(k), v);
  }

  lemma PriorScore(m: real, n: real, q: real, k2: real, v: real)
    requires m >= 2.0 && n == m + 1.0 && k2 > 0.0 && q >= 0.0
    requires m * (m * m - k2 * n) * q >= k2 * n * n * (v * (m - 1.0))
    ensures q >= k2 * v
  {
    var c, l := n * n * (m - 1.0), m * (m * m - k2 * n);
    FactorGap(m, n, k2);
    Monotone(c, l, q);
    assert c * (k2 * v) == k2 * n * n * (v * (m - 1.0));
    Scaled(c, q, k2 * v);
  }

  /** Against a prior variance `v` the criterion is missed. */
  predicate Falls(m: real, n: real, d: real, k: real, v: real) {
    m * (m * m - Square(k) * n) * Square(d) < Square(k) * n * n * ((m - 1.0) * v)
  }

  lemma FallsExactly(m: real, n: real, d: real, k: real, v: real, prior: real)
    requires m >= 2.0 && n > 0.0 && k > 0.0 && v != 0.0 && prior == v * (m - 1.0) && prior >= 0.0
    ensures Criterion(m, n, d, k, prior) <==> !Falls(m, n, d, k, v)
  {
    assert prior == (m - 1.0) * v;
    if d == 0.0 {
      assert prior != 0.0;
      SquarePositive(k);
      Positive(Square(k), n, Square(k) * n);
      Positive(Square(k) * n, n, Square(k) * n * n);
      Positive(Square(k) * n * n, prior, Square(k) * n * n * prior);
    }
  }

  lemma NoDistanceNoCriterion(m: real, n: real, k: real, prior: real)
    ensures !Criterion(m, n, 0.0, k, prior)
  {
  }

  // ----- Change of unit and offset -----

  /** Stretching distance and deviation alike leaves the score as it is. */
  lemma ReachesScaled(a: real, dist: real, v: real, k: real)
    requires a != 0.0
    ensures Reaches(Stretch(dist, a), AffineSquares(v, a), k) <==> Reaches(dist, v, k)
  {
    var q := Square(a);
    SquarePositive(a);
    assert Square(a * dist) == q * Square(dist);
    assert Square(k) * (q * v) == q * (Square(k) * v);
    Scaled(q, Square(dist), Square(k) * v);
    assert q * v == 0.0 <==> v == 0.0;
  }

  /** A value in another unit, by factor a and offset b. */
  function Image(x: real, a: real, b: real): real {
    a * x + b
  }

  /** A distance in another unit. */
  function Stretch(d: real, a: real): real {
    a * d
  }

  /** The image of a sum s of n values. */
  function AffineSum(n: real, s: real, a: real, b: real): real {
    a * s + n * b
  }

  /** The image of a sum t of squares. */
  function AffineSquares(t: real, a: real): real {
    Square(a) * t
  }

  lemma AffineStep(a: real, b: real, c: real, c': real, x: real, n: real, s: real, t: real)
    requires c' == Image(c, a, b)
    ensures AffineSum(n, s, a, b) + Image(x, a, b) == AffineSum(n + 1.0, s + x, a, b)
    ensures AffineSquares(t, a) + Square(Image(x, a, b) - c') == AffineSquares(t + Square(x - c), a)
  {
    var d := x - c;
    assert Image(x, a, b) - c' == a * d;
    assert Square(a * d) == Square(a) * Square(d);
  }

  lemma AffineDistance(a: real, b: real, x: real, mean: real)
    ensures Image(x, a, b) - Image(mean, a, b) == Stretch(x - mean, a)
  {
  }

  lemma SquaresVanish(v: real, a: real)
    requires a != 0.0
    ensures AffineSquares(v, a) == 0.0 <==> v == 0.0
  {
    SquarePositive(a);
  }

  lemma AffineMean(n: real, a: real, b: real, mean: real, sum: real, mean': real)
    requires n > 0.0 && n * mean == sum && n * mean' == AffineSum(n, sum, a, b)
    ensures mean' == Image(mean, a, b)
  {
    assert n * (a * mean + b) == a * (n * mean) + n * b;
    SameFactor(n, mean', a * mean + b);
  }

  lemma AffineVariance(m: real, a: real, v: real, dev: real, v': real)
    requires m > 0.0 && v * m == dev && v' * m == AffineSquares(dev, a)
    ensures v' == AffineSquares(v, a)
  {
    var q := Square(a);
    assert m * (q * v) == q * (v * m);
    SameFactor(m, v', q * v);
  }
}
