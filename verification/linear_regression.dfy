/**
 * Closed-form least-squares fit of a line y = m*x + b to the first N points
 * of a list, with the optional sum of squared vertical errors.
 */
module LinearRegression {
  import opened Wrappers

  /** A point (x, y) in the plane: one row of the point matrix. */
  datatype Point = Point(x: real, y: real)

  /** The line y = m*x + b. */
  datatype Line = Line(m: real, b: real) {
    /** The line's y-value at `x`. */
    function Apply(x: real): real
    {
      m * x + b
    }
  }

  /** A line rises by its slope for every unit step in x, and meets the y-axis at its intercept. */
  lemma LineIsAffine(line: Line, x0: real, x1: real)
    ensures line.Apply(x1) - line.Apply(x0) == line.m * (x1 - x0)
    ensures line.Apply(0.0) == line.b
  {
  }

  /** The default line, slope 1 and intercept 0: the identity. */
  function DefaultLine(): (line: Line)
    ensures forall x: real :: line.Apply(x) == x
  {
    Line(1.0, 0.0)
  }

  /** The square of `d`. */
  function Sq(d: real): real
  {
    d * d
  }

  /** A square is never negative, and positive unless its root is 0. */
  lemma SqSign(d: real)
    ensures Sq(d) >= 0.0
    ensures d != 0.0 ==> Sq(d) > 0.0
  {
    if d != 0.0 {
      calc {
        Sq(d);
        d * d;
      >
        0.0;
      }
    }
  }

  // ---------------------------------------------------------------------------
  // Sums over the first n points
  // ---------------------------------------------------------------------------

  /** The per-point quantities that the fit and its error add up. */
  datatype Term =
    | X                      // x
    | Y                      // y
    | XY                     // x*y
    | XX                     // x*x
    | SqDistTo(c: real)      // (x - c)²
    | SqError(line: Line)    // (y - line(x))²
    | Error(line: Line)      // y - line(x)
    | XError(line: Line)     // x * (y - line(x))
    | One                    // 1
    | Plus(t1: Term, t2: Term)
    | Scaled(k: real, t: Term)

  function TermAt(p: Point, t: Term): real
  {
    match t
    case X => p.x
    case Y => p.y
    case XY => p.x * p.y
    case XX => p.x * p.x
    case SqDistTo(c) => Sq(p.x - c)
    case SqError(line) => Sq(p.y - line.Apply(p.x))
    case Error(line) => p.y - (line.m * p.x + line.b)
    case XError(line) => p.x * (p.y - (line.m * p.x + line.b))
    case One => 1.0
    case Plus(t1, t2) => TermAt(p, t1) + TermAt(p, t2)
    case Scaled(k, t) => k * TermAt(p, t)
  }

  /** The sum of term `t` over points 0..n-1. */
  function PrefixSum(pts: seq<Point>, n: nat, t: Term): real
    requires n <= |pts|
  {
    if n == 0 then 0.0 else PrefixSum(pts, n - 1, t) + TermAt(pts[n - 1], t)
  }

  function SumX(pts: seq<Point>, n: nat): real
    requires n <= |pts|
  {
    PrefixSum(pts, n, X)
  }

  function SumY(pts: seq<Point>, n: nat): real
    requires n <= |pts|
  {
    PrefixSum(pts, n, Y)
  }

  function SumXY(pts: seq<Point>, n: nat): real
    requires n <= |pts|
  {
    PrefixSum(pts, n, XY)
  }

  function SumXX(pts: seq<Point>, n: nat): real
    requires n <= |pts|
  {
    PrefixSum(pts, n, XX)
  }

  /** Σ (x_i − c)² over the first n points. */
  function SqDist(pts: seq<Point>, n: nat, c: real): real
    requires n <= |pts|
  {
    PrefixSum(pts, n, SqDistTo(c))
  }

  /** Σ (y_i − line(x_i))² over the first n points: the residual of `line`. */
  function Residual(pts: seq<Point>, n: nat, line: Line): real
    requires n <= |pts|
  {
    PrefixSum(pts, n, SqError(line))
  }

  /** Σ (y_i − line(x_i)): the signed errors of `line`. */
  function ErrSum(pts: seq<Point>, n: nat, line: Line): real
    requires n <= |pts|
  {
    PrefixSum(pts, n, Error(line))
  }

  /** Σ x_i·(y_i − line(x_i)): the errors of `line` weighted by x. */
  function XErrSum(pts: seq<Point>, n: nat, line: Line): real
    requires n <= |pts|
  {
    PrefixSum(pts, n, XError(line))
  }

  /** A sum over the first n points reads only those points. */
  lemma {:induction false} PrefixSumReadsPrefix(p: seq<Point>, q: seq<Point>, n: nat, t: Term)
    requires n <= |p| && n <= |q| && p[..n] == q[..n]
    ensures PrefixSum(p, n, t) == PrefixSum(q, n, t)
  {
    if n > 0 {
      assert p[..n - 1] == q[..n - 1] by {
        assert p[..n - 1] == p[..n][..n - 1];
        assert q[..n - 1] == q[..n][..n - 1];
      }
      assert p[n - 1] == p[..n][n - 1] == q[..n][n - 1] == q[n - 1];
      PrefixSumReadsPrefix(p, q, n - 1, t);
    }
  }

  /** Summing is additive in the term. */
  lemma {:induction false} PrefixSumPlus(pts: seq<Point>, n: nat, t1: Term, t2: Term)
    requires n <= |pts|
    ensures PrefixSum(pts, n, Plus(t1, t2)) == PrefixSum(pts, n, t1) + PrefixSum(pts, n, t2)
  {
    if n > 0 {
      PrefixSumPlus(pts, n - 1, t1, t2);
    }
  }

  /** Summing commutes with scaling the term. */
  lemma {:induction false} PrefixSumScaled(pts: seq<Point>, n: nat, k: real, t: Term)
    requires n <= |pts|
    ensures PrefixSum(pts, n, Scaled(k, t)) == k * PrefixSum(pts, n, t)
  {
    if n > 0 {
      PrefixSumScaled(pts, n - 1, k, t);
      assert k * PrefixSum(pts, n, t) == k * PrefixSum(pts, n - 1, t) + k * TermAt(pts[n - 1], t);
    }
  }

  /** A term that is pointwise no larger has no larger sum. */
  lemma {:induction false} PrefixSumMonotone(pts: seq<Point>, n: nat, t1: Term, t2: Term)
    requires n <= |pts|
    requires forall i :: 0 <= i < n ==> TermAt(pts[i], t1) <= TermAt(pts[i], t2)
    ensures PrefixSum(pts, n, t1) <= PrefixSum(pts, n, t2)
  {
    if n > 0 {
      PrefixSumMonotone(pts, n - 1, t1, t2);
    }
  }

  /** Terms equal at every point have equal sums. */
  lemma PrefixSumCongruent(pts: seq<Point>, n: nat, t1: Term, t2: Term)
    requires n <= |pts|
    requires forall i :: 0 <= i < n ==> TermAt(pts[i], t1) == TermAt(pts[i], t2)
    ensures PrefixSum(pts, n, t1) == PrefixSum(pts, n, t2)
  {
    PrefixSumMonotone(pts, n, t1, t2);
    PrefixSumMonotone(pts, n, t2, t1);
  }

  /** Summing 1 over n points counts them. */
  lemma {:induction false} PrefixSumOne(pts: seq<Point>, n: nat)
    requires n <= |pts|
    ensures PrefixSum(pts, n, One) == n as real
  {
    if n > 0 {
      PrefixSumOne(pts, n - 1);
    }
  }

  /** A sum of terms that are never negative is never negative. */
  lemma {:induction false} PrefixSumNonNegative(pts: seq<Point>, n: nat, t: Term)
    requires n <= |pts|
    requires forall i :: 0 <= i < n ==> TermAt(pts[i], t) >= 0.0
    ensures PrefixSum(pts, n, t) >= 0.0
  {
    if n > 0 {
      PrefixSumNonNegative(pts, n - 1, t);
    }
  }

  // ---------------------------------------------------------------------------
  // The slope's divisor N*Σx² − (Σx)²
  // ---------------------------------------------------------------------------

  /** Every one of the first n points has the same x as the first. */
  ghost predicate AllSameX(pts: seq<Point>, n: nat)
    requires n <= |pts|
  {
    forall i :: 0 <= i < n ==> pts[i].x == pts[0].x
  }

  /** The divisor of the slope: N*Σx² − (Σx)². */
  function Spread(pts: seq<Point>, n: nat): real
    requires n <= |pts|
  {
    n as real * SumXX(pts, n) - SumX(pts, n) * SumX(pts, n)
  }

  /** Σ (x_i − c)² == Σx² − 2c·Σx + N·c². */
  lemma {:induction false} SqDistExpanded(pts: seq<Point>, n: nat, c: real)
    requires n <= |pts|
    ensures SqDist(pts, n, c) == SumXX(pts, n) - 2.0 * c * SumX(pts, n) + n as real * c * c
  {
    if n == 0 {
      assert SqDist(pts, 0, c) == 0.0 && SumXX(pts, 0) == 0.0 && SumX(pts, 0) == 0.0;
    } else {
      SqDistExpanded(pts, n - 1, c);
      SqDistExpandedStep(pts, n, c);
    }
  }

  lemma SqDistExpandedStep(pts: seq<Point>, n: nat, c: real)
    requires 0 < n <= |pts|
    requires SqDist(pts, n - 1, c) == SumXX(pts, n - 1) - 2.0 * c * SumX(pts, n - 1) + (n - 1) as real * c * c
    ensures SqDist(pts, n, c) == SumXX(pts, n) - 2.0 * c * SumX(pts, n) + n as real * c * c
  {
    var k := n - 1;
    assert SqDist(pts, n, c) == SqDist(pts, k, c) + Sq(pts[k].x - c);
    assert SumXX(pts, n) == SumXX(pts, k) + pts[k].x * pts[k].x;
    assert SumX(pts, n) == SumX(pts, k) + pts[k].x;
    ExpandStep(SqDist(pts, n, c), SumXX(pts, n), SumX(pts, n), n as real,
               SqDist(pts, k, c), SumXX(pts, k), SumX(pts, k), k as real, pts[k].x, c);
  }

  lemma ExpandStep(q': real, sxx': real, sx': real, n': real,
                   q: real, sxx: real, sx: real, n: real, x: real, c: real)
    requires q' == q + Sq(x - c) && sxx' == sxx + x * x && sx' == sx + x && n' == n + 1.0
    requires q == sxx - 2.0 * c * sx + n * c * c
    ensures q' == sxx' - 2.0 * c * sx' + n' * c * c
  {
  }

  /** A sum of squared distances is never negative, and positive once one x differs from c. */
  lemma {:induction false} SqDistNonNegative(pts: seq<Point>, n: nat, c: real)
    requires n <= |pts|
    ensures SqDist(pts, n, c) >= 0.0
    ensures (exists i :: 0 <= i < n && pts[i].x != c) ==> SqDist(pts, n, c) > 0.0
  {
    if n == 0 {
      assert SqDist(pts, 0, c) == 0.0;
    } else {
      var d := pts[n - 1].x - c;
      SqDistNonNegative(pts, n - 1, c);
      SqSign(d);
      assert SqDist(pts, n, c) == SqDist(pts, n - 1, c) + Sq(d);
      if exists i :: 0 <= i < n && pts[i].x != c {
        var i :| 0 <= i < n && pts[i].x != c;
        if i == n - 1 {
          PositiveTerm(SqDist(pts, n, c), SqDist(pts, n - 1, c), Sq(d));
        } else {
          assert exists j :: 0 <= j < n - 1 && pts[j].x != c;
          PositiveTerm(SqDist(pts, n, c), Sq(d), SqDist(pts, n - 1, c));
        }
      }
    }
  }

  lemma PositiveTerm(total: real, a: real, b: real)
    requires total == a + b && a >= 0.0 && b > 0.0
    ensures total > 0.0
  {
  }

  /** Points that all share x == c are at distance 0 from c. */
  lemma {:induction false} SqDistZeroWhenSame(pts: seq<Point>, n: nat, c: real)
    requires n <= |pts|
    requires forall i :: 0 <= i < n ==> pts[i].x == c
    ensures SqDist(pts, n, c) == 0.0
  {
    if n == 0 {
      assert SqDist(pts, 0, c) == 0.0;
    } else {
      SqDistZeroWhenSame(pts, n - 1, c);
      assert SqDist(pts, n, c) == SqDist(pts, n - 1, c) + Sq(pts[n - 1].x - c);
    }
  }

  /** Adding one point grows the spread by that point's squared distances to the earlier ones. */
  lemma SpreadStep(pts: seq<Point>, n: nat)
    requires n < |pts|
    ensures Spread(pts, n + 1) == Spread(pts, n) + SqDist(pts, n, pts[n].x)
  {
    SqDistExpanded(pts, n, pts[n].x);
    assert SumX(pts, n + 1) == SumX(pts, n) + pts[n].x;
    assert SumXX(pts, n + 1) == SumXX(pts, n) + pts[n].x * pts[n].x;
    SpreadGrowth(Spread(pts, n + 1), Spread(pts, n), SqDist(pts, n, pts[n].x),
                 SumXX(pts, n + 1), SumX(pts, n + 1), (n + 1) as real,
                 SumXX(pts, n), SumX(pts, n), n as real, pts[n].x);
  }

  lemma SpreadGrowth(spread': real, spread: real, dist: real,
                     q': real, s': real, n': real, q: real, s: real, n: real, x: real)
    requires q' == q + x * x && s' == s + x && n' == n + 1.0
    requires spread' == n' * q' - s' * s' && spread == n * q - s * s
    requires dist == q - 2.0 * x * s + n * x * x
    ensures spread' == spread + dist
  {
    calc {
      spread';
      (n + 1.0) * (q + x * x) - (s + x) * (s + x);
      (n * q - s * s) + (q - 2.0 * x * s + n * x * x);
    }
  }

  /** The slope's divisor is never negative, and is zero exactly when all x are equal. */
  lemma {:induction false} SpreadPositiveIffDistinct(pts: seq<Point>, n: nat)
    requires n <= |pts|
    ensures Spread(pts, n) >= 0.0
    ensures Spread(pts, n) > 0.0 <==> !AllSameX(pts, n)
  {
    if n == 0 {
      assert SumX(pts, 0) == 0.0 && SumXX(pts, 0) == 0.0;
    } else {
      SpreadPositiveIffDistinct(pts, n - 1);
      SpreadStep(pts, n - 1);
      SqDistNonNegative(pts, n - 1, pts[n - 1].x);
      if AllSameX(pts, n) {
        assert AllSameX(pts, n - 1);
        SqDistZeroWhenSame(pts, n - 1, pts[n - 1].x);
      } else if AllSameX(pts, n - 1) {
        assert pts[n - 1].x != pts[0].x;
        assert n - 1 > 0;
        assert exists i :: 0 <= i < n - 1 && pts[i].x != pts[n - 1].x;
      } else {
        assert Spread(pts, n - 1) > 0.0;
      }
    }
  }

  // ---------------------------------------------------------------------------
  // The fit
  // ---------------------------------------------------------------------------

  /**
   * The line the normal equations give for N points with sums Σx, Σy, Σxy
   * and Σx²: slope (N·Σxy − Σx·Σy) / (N·Σx² − (Σx)²), intercept (1/N)·(Σy − slope·Σx).
   */
  function LineFromSums(nr: real, sx: real, sy: real, sxy: real, sxx: real): Line
    requires nr > 0.0 && nr * sxx - sx * sx != 0.0
  {
    var m := (nr * sxy - sx * sy) / (nr * sxx - sx * sx);
    Line(m, (1.0 / nr) * (sy - m * sx))
  }

  /** The least-squares line through the first n points. */
  function Fit(pts: seq<Point>, n: nat): Line
    requires 2 <= n <= |pts|
    requires !AllSameX(pts, n)
  {
    SpreadPositiveIffDistinct(pts, n);
    LineFromSums(n as real, SumX(pts, n), SumY(pts, n), SumXY(pts, n), SumXX(pts, n))
  }

  /**
   * The fit solves the normal equations: its errors sum to 0, and so do
   * its errors weighted by x.
   */
  lemma NormalEquations(pts: seq<Point>, n: nat)
    requires 2 <= n <= |pts|
    requires !AllSameX(pts, n)
    ensures SumY(pts, n) - Fit(pts, n).m * SumX(pts, n) - n as real * Fit(pts, n).b == 0.0
    ensures SumXY(pts, n) - Fit(pts, n).m * SumXX(pts, n) - Fit(pts, n).b * SumX(pts, n) == 0.0
  {
    assert Spread(pts, n) > 0.0 by {
      SpreadPositiveIffDistinct(pts, n);
    }
    LineFromSumsSolves(n as real, SumX(pts, n), SumY(pts, n), SumXY(pts, n), SumXX(pts, n));
  }

  lemma LineFromSumsSolves(nr: real, sx: real, sy: real, sxy: real, sxx: real)
    requires nr > 0.0 && nr * sxx - sx * sx != 0.0
    ensures sy - LineFromSums(nr, sx, sy, sxy, sxx).m * sx - nr * LineFromSums(nr, sx, sy, sxy, sxx).b == 0.0
    ensures sxy - LineFromSums(nr, sx, sy, sxy, sxx).m * sxx - LineFromSums(nr, sx, sy, sxy, sxx).b * sx == 0.0
  {
    var d := nr * sxx - sx * sx;
    var m := (nr * sxy - sx * sy) / d;
    var b := (1.0 / nr) * (sy - m * sx);
    assert LineFromSums(nr, sx, sy, sxy, sxx) == Line(m, b);
    assert nr * b == sy - m * sx;
    assert m * d == nr * sxy - sx * sy;
    calc {
      nr * (sxy - m * sxx - b * sx);
      nr * sxy - m * nr * sxx - (nr * b) * sx;
      nr * sxy - m * nr * sxx - (sy - m * sx) * sx;
      nr * sxy - sx * sy - m * d;
      0.0;
    }
  }

  /** The fitted line passes through the mean point (x̄, ȳ). */
  lemma FitThroughMean(pts: seq<Point>, n: nat)
    requires 2 <= n <= |pts|
    requires !AllSameX(pts, n)
    ensures Fit(pts, n).Apply(SumX(pts, n) / n as real) == SumY(pts, n) / n as real
  {
    assert Spread(pts, n) > 0.0 by {
      SpreadPositiveIffDistinct(pts, n);
    }
    LineFromSumsThroughMean(n as real, SumX(pts, n), SumY(pts, n), SumXY(pts, n), SumXX(pts, n));
  }

  lemma LineFromSumsThroughMean(nr: real, sx: real, sy: real, sxy: real, sxx: real)
    requires nr > 0.0 && nr * sxx - sx * sx != 0.0
    ensures LineFromSums(nr, sx, sy, sxy, sxx).Apply(sx / nr) == sy / nr
  {
    var line := LineFromSums(nr, sx, sy, sxy, sxx);
    var m := line.m;
    assert line.b == (1.0 / nr) * (sy - m * sx);
    calc {
      line.Apply(sx / nr);
      m * (sx / nr) + (1.0 / nr) * (sy - m * sx);
      m * sx / nr + sy / nr - m * sx / nr;
      sy / nr;
    }
  }

  // ---------------------------------------------------------------------------
  // The errors of a line
  // ---------------------------------------------------------------------------

  /** A sum of terms that are all 0 is 0. */
  lemma {:induction false} PrefixSumZero(pts: seq<Point>, n: nat, t: Term)
    requires n <= |pts|
    requires forall i :: 0 <= i < n ==> TermAt(pts[i], t) == 0.0
    ensures PrefixSum(pts, n, t) == 0.0
  {
    if n > 0 {
      PrefixSumZero(pts, n - 1, t);
    }
  }

  /** Σ e_i == Σy − m·Σx − N·b, where e_i = y_i − line(x_i). */
  lemma ErrSumExpanded(pts: seq<Point>, n: nat, line: Line)
    requires n <= |pts|
    ensures ErrSum(pts, n, line) == SumY(pts, n) - line.m * SumX(pts, n) - n as real * line.b
  {
    var rest := Plus(Scaled(-line.m, X), Scaled(-line.b, One));
    var lin := Plus(Y, rest);
    assert ErrSum(pts, n, line) == PrefixSum(pts, n, lin) by {
      forall i | 0 <= i < n
        ensures TermAt(pts[i], Error(line)) == TermAt(pts[i], lin)
      {
        assert TermAt(pts[i], Scaled(-line.m, X)) == -line.m * pts[i].x;
        assert TermAt(pts[i], Scaled(-line.b, One)) == -line.b * 1.0;
        assert TermAt(pts[i], rest) == -line.m * pts[i].x + -line.b * 1.0;
      }
      PrefixSumCongruent(pts, n, Error(line), lin);
    }
    assert PrefixSum(pts, n, lin) == SumY(pts, n) + -line.m * SumX(pts, n) + -line.b * n as real by {
      PrefixSumPlus(pts, n, Y, rest);
      PrefixSumPlus(pts, n, Scaled(-line.m, X), Scaled(-line.b, One));
      PrefixSumScaled(pts, n, -line.m, X);
      PrefixSumScaled(pts, n, -line.b, One);
      PrefixSumOne(pts, n);
    }
  }

  /** Σ x_i·e_i == Σxy − m·Σx² − b·Σx. */
  lemma XErrSumExpanded(pts: seq<Point>, n: nat, line: Line)
    requires n <= |pts|
    ensures XErrSum(pts, n, line) == SumXY(pts, n) - line.m * SumXX(pts, n) - line.b * SumX(pts, n)
  {
    var rest := Plus(Scaled(-line.m, XX), Scaled(-line.b, X));
    var lin := Plus(XY, rest);
    assert XErrSum(pts, n, line) == PrefixSum(pts, n, lin) by {
      forall i | 0 <= i < n
        ensures TermAt(pts[i], XError(line)) == TermAt(pts[i], lin)
      {
        var x, y := pts[i].x, pts[i].y;
        assert TermAt(pts[i], Scaled(-line.m, XX)) == -line.m * (x * x);
        assert TermAt(pts[i], Scaled(-line.b, X)) == -line.b * x;
        assert TermAt(pts[i], rest) == -line.m * (x * x) + -line.b * x;
        assert x * (y - (line.m * x + line.b)) == x * y + -line.m * (x * x) + -line.b * x;
      }
      PrefixSumCongruent(pts, n, XError(line), lin);
    }
    assert PrefixSum(pts, n, lin) == SumXY(pts, n) + -line.m * SumXX(pts, n) + -line.b * SumX(pts, n) by {
      PrefixSumPlus(pts, n, XY, rest);
      PrefixSumPlus(pts, n, Scaled(-line.m, XX), Scaled(-line.b, X));
      PrefixSumScaled(pts, n, -line.m, XX);
      PrefixSumScaled(pts, n, -line.b, X);
    }
  }

  // ---------------------------------------------------------------------------
  // The fit of collinear points
  // ---------------------------------------------------------------------------

  /** Points that all lie on y = m0*x + b0 have sums fixed by m0 and b0. */
  lemma CollinearSums(pts: seq<Point>, n: nat, m0: real, b0: real)
    requires n <= |pts|
    requires forall i :: 0 <= i < n ==> pts[i].y == m0 * pts[i].x + b0
    ensures SumY(pts, n) == m0 * SumX(pts, n) + n as real * b0
    ensures SumXY(pts, n) == m0 * SumXX(pts, n) + b0 * SumX(pts, n)
  {
    var line := Line(m0, b0);
    forall i | 0 <= i < n
      ensures TermAt(pts[i], Error(line)) == 0.0 && TermAt(pts[i], XError(line)) == 0.0
    {
    }
    assert ErrSum(pts, n, line) == 0.0 by {
      PrefixSumZero(pts, n, Error(line));
    }
    assert XErrSum(pts, n, line) == 0.0 by {
      PrefixSumZero(pts, n, XError(line));
    }
    ErrSumExpanded(pts, n, line);
    XErrSumExpanded(pts, n, line);
  }

  /** Points on a line with not all x equal: the fit recovers that line exactly. */
  lemma FitRecoversLine(pts: seq<Point>, n: nat, m0: real, b0: real)
    requires 2 <= n <= |pts|
    requires !AllSameX(pts, n)
    requires forall i :: 0 <= i < n ==> pts[i].y == m0 * pts[i].x + b0
    ensures Fit(pts, n) == Line(m0, b0)
  {
    assert SumY(pts, n) == m0 * SumX(pts, n) + n as real * b0
      && SumXY(pts, n) == m0 * SumXX(pts, n) + b0 * SumX(pts, n) by {
      CollinearSums(pts, n, m0, b0);
    }
    assert Spread(pts, n) > 0.0 by {
      SpreadPositiveIffDistinct(pts, n);
    }
    LineFromCollinearSums(n as real, SumX(pts, n), SumY(pts, n), SumXY(pts, n), SumXX(pts, n), m0, b0);
  }

  lemma LineFromCollinearSums(nr: real, sx: real, sy: real, sxy: real, sxx: real, m0: real, b0: real)
    requires nr > 0.0 && nr * sxx - sx * sx != 0.0
    requires sy == m0 * sx + nr * b0
    requires sxy == m0 * sxx + b0 * sx
    ensures LineFromSums(nr, sx, sy, sxy, sxx) == Line(m0, b0)
  {
    var d := nr * sxx - sx * sx;
    var num := nr * sxy - sx * sy;
    assert num == m0 * d;
    var m := num / d;
    assert m == m0 by {
      assert m * d == num;
    }
    assert (1.0 / nr) * (sy - m * sx) == (1.0 / nr) * (nr * b0) == b0;
  }

  // ---------------------------------------------------------------------------
  // The residual
  // ---------------------------------------------------------------------------

  /** A residual is a sum of squares, so never negative. */
  lemma ResidualNonNegative(pts: seq<Point>, n: nat, line: Line)
    requires n <= |pts|
    ensures Residual(pts, n, line) >= 0.0
  {
    forall i | 0 <= i < n
      ensures TermAt(pts[i], SqError(line)) >= 0.0
    {
      SqSign(pts[i].y - line.Apply(pts[i].x));
    }
    PrefixSumNonNegative(pts, n, SqError(line));
  }

  /** Points on a line leave no residual against that line. */
  lemma ResidualZeroOnLine(pts: seq<Point>, n: nat, line: Line)
    requires n <= |pts|
    requires forall i :: 0 <= i < n ==> pts[i].y == line.Apply(pts[i].x)
    ensures Residual(pts, n, line) == 0.0
  {
    forall i | 0 <= i < n
      ensures TermAt(pts[i], SqError(line)) == 0.0
    {
      assert pts[i].y - line.Apply(pts[i].x) == 0.0;
    }
    PrefixSumZero(pts, n, SqError(line));
  }

  /** Collinear input is fitted with a residual of exactly 0. */
  lemma CollinearFitHasNoResidual(pts: seq<Point>, n: nat, m0: real, b0: real)
    requires 2 <= n <= |pts|
    requires !AllSameX(pts, n)
    requires forall i :: 0 <= i < n ==> pts[i].y == m0 * pts[i].x + b0
    ensures Residual(pts, n, Fit(pts, n)) == 0.0
  {
    FitRecoversLine(pts, n, m0, b0);
    ResidualZeroOnLine(pts, n, Line(m0, b0));
  }

  /**
   * Moving from `line` to `other` changes the residual by at least the
   * cross terms −2·Δm·Σ x·e − 2·Δb·Σ e, where e are the errors of `line`.
   */
  lemma ResidualShift(pts: seq<Point>, n: nat, line: Line, other: Line)
    requires n <= |pts|
    ensures Residual(pts, n, other) >= Residual(pts, n, line)
      - 2.0 * (other.m - line.m) * XErrSum(pts, n, line) - 2.0 * (other.b - line.b) * ErrSum(pts, n, line)
  {
    forall i | 0 <= i < n
      ensures TermAt(pts[i], ShiftBound(line, other)) <= TermAt(pts[i], SqError(other))
    {
      PointShift(pts[i], line, other);
    }
    PrefixSumMonotone(pts, n, ShiftBound(line, other), SqError(other));
    ShiftBoundSum(pts, n, line, other);
  }

  /** Per point: the squared error of `line` minus the cross terms of moving to `other`. */
  function ShiftBound(line: Line, other: Line): Term
  {
    Plus(SqError(line), Plus(Scaled(-2.0 * (other.m - line.m), XError(line)),
                             Scaled(-2.0 * (other.b - line.b), Error(line))))
  }

  lemma ShiftBoundSum(pts: seq<Point>, n: nat, line: Line, other: Line)
    requires n <= |pts|
    ensures PrefixSum(pts, n, ShiftBound(line, other)) == Residual(pts, n, line)
      - 2.0 * (other.m - line.m) * XErrSum(pts, n, line) - 2.0 * (other.b - line.b) * ErrSum(pts, n, line)
  {
    var cross := Plus(Scaled(-2.0 * (other.m - line.m), XError(line)), Scaled(-2.0 * (other.b - line.b), Error(line)));
    PrefixSumPlus(pts, n, SqError(line), cross);
    PrefixSumPlus(pts, n, Scaled(-2.0 * (other.m - line.m), XError(line)), Scaled(-2.0 * (other.b - line.b), Error(line)));
    PrefixSumScaled(pts, n, -2.0 * (other.m - line.m), XError(line));
    PrefixSumScaled(pts, n, -2.0 * (other.b - line.b), Error(line));
  }

  /** At one point, the squared error of `other` is at least that of `line` plus the cross terms. */
  lemma PointShift(p: Point, line: Line, other: Line)
    ensures TermAt(p, SqError(other)) >= TermAt(p, ShiftBound(line, other))
  {
    var x, y := p.x, p.y;
    var e := y - (line.m * x + line.b);
    var u := (other.m - line.m) * x + (other.b - line.b);
    assert y - other.Apply(x) == e - u;
    assert y - line.Apply(x) == e;
    SquareShift(e, u, other.m - line.m, other.b - line.b, x);
    var dm, db := other.m - line.m, other.b - line.b;
    assert TermAt(p, Scaled(-2.0 * dm, XError(line))) == -2.0 * dm * (x * e);
    assert TermAt(p, Scaled(-2.0 * db, Error(line))) == -2.0 * db * e;
    assert TermAt(p, Plus(Scaled(-2.0 * dm, XError(line)), Scaled(-2.0 * db, Error(line))))
        == -2.0 * dm * (x * e) + -2.0 * db * e;
  }

  /** (e − u)² ≥ e² − 2·u·e, with u·e split as dm·(x·e) + db·e. */
  lemma SquareShift(e: real, u: real, dm: real, db: real, x: real)
    requires u == dm * x + db
    ensures Sq(e - u) >= Sq(e) - 2.0 * dm * (x * e) - 2.0 * db * e
  {
    SqSign(u);
    assert u * e == dm * (x * e) + db * e;
    calc {
      Sq(e - u);
      (e - u) * (e - u);
      e * e - 2.0 * (u * e) + u * u;
      Sq(e) - 2.0 * dm * (x * e) - 2.0 * db * e + Sq(u);
    }
  }

  /** The fitted line has the least residual of all lines: it is the least-squares line. */
  lemma FitMinimizesResidual(pts: seq<Point>, n: nat, other: Line)
    requires 2 <= n <= |pts|
    requires !AllSameX(pts, n)
    ensures Residual(pts, n, Fit(pts, n)) <= Residual(pts, n, other)
  {
    var fit := Fit(pts, n);
    NormalEquations(pts, n);
    ErrorsCancel(pts, n, fit);
    ResidualShift(pts, n, fit, other);
    VanishingCrossTerms(Residual(pts, n, other), Residual(pts, n, fit),
                        other.m - fit.m, XErrSum(pts, n, fit), other.b - fit.b, ErrSum(pts, n, fit));
  }

  /** A line that solves the normal equations has errors summing to 0, plain and weighted by x. */
  lemma ErrorsCancel(pts: seq<Point>, n: nat, line: Line)
    requires n <= |pts|
    requires SumY(pts, n) - line.m * SumX(pts, n) - n as real * line.b == 0.0
    requires SumXY(pts, n) - line.m * SumXX(pts, n) - line.b * SumX(pts, n) == 0.0
    ensures ErrSum(pts, n, line) == 0.0 && XErrSum(pts, n, line) == 0.0
  {
    ErrSumExpanded(pts, n, line);
    XErrSumExpanded(pts, n, line);
  }

  lemma VanishingCrossTerms(r2: real, r: real, dm: real, a: real, db: real, c: real)
    requires a == 0.0 && c == 0.0
    requires r2 >= r - 2.0 * dm * a - 2.0 * db * c
    ensures r2 >= r
  {
  }

  // ---------------------------------------------------------------------------
  // Both results read only rows 0..n-1
  // ---------------------------------------------------------------------------

  /** The fit and its residual read only rows 0..n-1 of the point matrix. */
  lemma FitReadsPrefix(p: seq<Point>, q: seq<Point>, n: nat)
    requires 2 <= n <= |p| && n <= |q| && p[..n] == q[..n]
    requires !AllSameX(p, n)
    ensures !AllSameX(q, n)
    ensures Fit(p, n) == Fit(q, n)
    ensures Residual(p, n, Fit(p, n)) == Residual(q, n, Fit(q, n))
  {
    assert forall i :: 0 <= i < n ==> p[i] == p[..n][i] == q[..n][i] == q[i];
    PrefixSumReadsPrefix(p, q, n, X);
    PrefixSumReadsPrefix(p, q, n, Y);
    PrefixSumReadsPrefix(p, q, n, XY);
    PrefixSumReadsPrefix(p, q, n, XX);
    PrefixSumReadsPrefix(p, q, n, SqError(Fit(p, n)));
  }

  // ---------------------------------------------------------------------------
  // The procedure
  // ---------------------------------------------------------------------------

  /** Running sums equal to the spec sums determine the fit, or its absence. */
  lemma SumsDetermineFit(pts: seq<Point>, n: nat, nf: real, sx: real, sy: real, sxy: real, sxx: real)
    requires 2 <= n <= |pts|
    requires nf == n as real
    requires sx == SumX(pts, n) && sy == SumY(pts, n) && sxy == SumXY(pts, n) && sxx == SumXX(pts, n)
    ensures nf > 0.0
    ensures nf * sxx - sx * sx == 0.0 <==> AllSameX(pts, n)
    ensures !AllSameX(pts, n) ==> Fit(pts, n) == LineFromSums(nf, sx, sy, sxy, sxx)
  {
    assert nf * sxx - sx * sx == Spread(pts, n);
    SpreadPositiveIffDistinct(pts, n);
  }

  /** The four running sums of one pass over points 0..n-1. */
  method RunningSums(n: nat, pts: seq<Point>) returns (xSum: real, ySum: real, xySum: real, xSqSum: real)
    requires n <= |pts|
    ensures xSum == SumX(pts, n) && ySum == SumY(pts, n)
    ensures xySum == SumXY(pts, n) && xSqSum == SumXX(pts, n)
  {
    xSum, ySum, xySum, xSqSum := 0.0, 0.0, 0.0, 0.0;
    for i := 0 to n
      invariant xSum == SumX(pts, i) && ySum == SumY(pts, i)
      invariant xySum == SumXY(pts, i) && xSqSum == SumXX(pts, i)
    {
      var x, y := pts[i].x, pts[i].y;
      xSum := xSum + x;
      ySum := ySum + y;
      xySum := xySum + x * y;
      xSqSum := xSqSum + x * x;
    }
  }

  /** The second pass: the sum of squared vertical errors against `line`. */
  method SquaredError(n: nat, pts: seq<Point>, line: Line) returns (r: real)
    requires n <= |pts|
    ensures r == Residual(pts, n, line)
  {
    r := 0.0;
    for i := 0 to n
      invariant r == Residual(pts, i, line)
    {
      var lineVal := line.Apply(pts[i].x);
      var goalVal := pts[i].y;
      r := r + (goalVal - lineVal) * (goalVal - lineVal);
    }
  }

  /**
   * Fits a line to points 0..n-1 of `pts` by one pass of running sums and,
   * only when asked, a second pass for the residual. When all x are equal
   * the slope's divisor is 0 and there is no line (None).
   */
  method LinearRegression(n: nat, pts: seq<Point>, wantResidual: bool) returns (line: Option<Line>, residual: Option<real>)
    requires 2 <= n <= |pts|
    ensures line.None? <==> AllSameX(pts, n)
    ensures line.Some? ==> line.value == Fit(pts, n)
    ensures residual == if wantResidual && line.Some? then Some(Residual(pts, n, line.value)) else None
  {
    var xSum, ySum, xySum, xSqSum := RunningSums(n, pts);
    var nf := n as real;
    SumsDetermineFit(pts, n, nf, xSum, ySum, xySum, xSqSum);
    residual := None;
    var divisor := nf * xSqSum - xSum * xSum;
    if divisor == 0.0 {
      return None, None;
    }
    var m := (nf * xySum - xSum * ySum) / divisor;
    var b := (1.0 / nf) * (ySum - m * xSum);
    LineFromSumsIs(nf, xSum, ySum, xySum, xSqSum, m, b);
    line := Some(Line(m, b));
    if wantResidual {
      var r := SquaredError(n, pts, Line(m, b));
      residual := Some(r);
    }
  }

  /** The method's slope and intercept are those of the normal equations. */
  lemma LineFromSumsIs(nf: real, xSum: real, ySum: real, xySum: real, xSqSum: real, m: real, b: real)
    requires nf > 0.0 && nf * xSqSum - xSum * xSum != 0.0
    requires m == (nf * xySum - xSum * ySum) / (nf * xSqSum - xSum * xSum)
    requires b == (1.0 / nf) * (ySum - m * xSum)
    ensures LineFromSums(nf, xSum, ySum, xySum, xSqSum) == Line(m, b)
  {
  }
}
