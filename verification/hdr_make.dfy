/**
 * Fusion of an exposure stack into one radiance map (Debevec and Malik 1997).
 * `MakeHDR` returns exp of the weighted mean of ctf(z) − ln t per listed pixel:
 * their equation 6 when the curve holds log exposures g(z), as the linear
 * curve does, though a curve made by `CTFSolver` holds exp g(z). `MakeHDRLinear`
 * keeps the slope of a line fit through the (exposure time, sample value) pairs
 * of the valid samples. Decoded images, exp and ln are parameters of the model.
 */
module HdrMake {
  import opened Images
  import opened WeightingFunctions
  import opened Ctf
  import opened CtfSolver
  import LinearRegression

  // ---------------------------------------------------------------------------
  // Samples of one pixel
  // ---------------------------------------------------------------------------

  /** Every decoded image of the stack is a width-by-height grid. */
  ghost predicate StackIs(planes: seq<Plane>, width: nat, height: nat)
  {
    forall j :: 0 <= j < |planes| ==> IsPlane(planes[j], width, height)
  }

  /** `plane` has a sample at `p`. */
  predicate HasPixel(plane: Plane, p: PixelCoord)
  {
    0 <= p.x < |plane| && 0 <= p.y < |plane[p.x]|
  }

  /** Every image of the stack has a sample at `p`. */
  ghost predicate Covers(planes: seq<Plane>, p: PixelCoord)
  {
    forall j :: 0 <= j < |planes| ==> HasPixel(planes[j], p)
  }

  /** Every listed pixel lies inside a width-by-height image. */
  predicate AllInBounds(pixels: seq<PixelCoord>, width: nat, height: nat)
  {
    forall i :: 0 <= i < |pixels| ==> InBounds(pixels[i], width, height)
  }

  /** zs[j]: the value of pixel p in image j. */
  function PixelSamples(planes: seq<Plane>, p: PixelCoord): (zs: seq<byte>)
    requires Covers(planes, p)
    ensures |zs| == |planes|
    ensures forall j :: 0 <= j < |planes| ==> HasPixel(planes[j], p) && zs[j] == planes[j][p.x][p.y]
  {
    seq(|planes|, (j: int) requires 0 <= j < |planes| && HasPixel(planes[j], p) => planes[j][p.x][p.y])
  }

  /** ln of the exposure time of every image. */
  function LogTimes(images: seq<ImageExposurePair>, ln: real -> real): (lt: seq<real>)
    ensures |lt| == |images| && forall j :: 0 <= j < |images| ==> lt[j] == ln(images[j].GetTime())
  {
    seq(|images|, (j: int) requires 0 <= j < |images| => ln(images[j].GetTime()))
  }

  /** No weight is negative. */
  predicate NonNegative(lut: seq<real>)
  {
    forall z :: 0 <= z < |lut| ==> lut[z] >= 0.0
  }

  // ---------------------------------------------------------------------------
  // Equation 6 of Debevec and Malik
  // ---------------------------------------------------------------------------

  /** Σ_{j<n} w(z_j)·(g(z_j) − ln t_j). */
  function Numerator(zs: seq<byte>, logTimes: seq<real>, curve: seq<real>, lut: seq<real>, n: nat): real
    requires n <= |zs| == |logTimes| && |curve| == NumValues && |lut| == NumValues
  {
    if n == 0 then 0.0
    else Numerator(zs, logTimes, curve, lut, n - 1) + lut[zs[n - 1]] * (curve[zs[n - 1]] - logTimes[n - 1])
  }

  /** Σ_{j<n} w(z_j). */
  function Denominator(zs: seq<byte>, lut: seq<real>, n: nat): real
    requires n <= |zs| && |lut| == NumValues
  {
    if n == 0 then 0.0 else Denominator(zs, lut, n - 1) + lut[zs[n - 1]]
  }

  /** P: how many of the first n samples have a positive weight. */
  function WeightedCount(zs: seq<byte>, lut: seq<real>, n: nat): nat
    requires n <= |zs| && |lut| == NumValues
  {
    if n == 0 then 0 else WeightedCount(zs, lut, n - 1) + (if lut[zs[n - 1]] > 0.0 then 1 else 0)
  }

  /** With non-negative weights, P > 0 exactly when the denominator is positive. */
  lemma {:induction false} CountPositiveIffWeightPositive(zs: seq<byte>, lut: seq<real>, n: nat)
    requires n <= |zs| && |lut| == NumValues && NonNegative(lut)
    ensures Denominator(zs, lut, n) >= 0.0
    ensures WeightedCount(zs, lut, n) > 0 <==> Denominator(zs, lut, n) > 0.0
  {
    if n > 0 {
      CountPositiveIffWeightPositive(zs, lut, n - 1);
    }
  }

  /**
   * The fused value of one pixel: exp of the weighted mean of the
   * per-exposure estimates g(z_j) − ln t_j when some sample has a positive
   * weight, and 0 otherwise.
   */
  function Radiance(zs: seq<byte>, logTimes: seq<real>, curve: seq<real>, lut: seq<real>, exp: real -> real): real
    requires |zs| == |logTimes| && |curve| == NumValues && |lut| == NumValues && NonNegative(lut)
  {
    CountPositiveIffWeightPositive(zs, lut, |zs|);
    if WeightedCount(zs, lut, |zs|) != 0 then
      exp(Numerator(zs, logTimes, curve, lut, |zs|) / Denominator(zs, lut, |zs|))
    else 0.0
  }

  /** a·w ≤ b·w for a ≤ b and w ≥ 0. */
  lemma ScaleByWeight(a: real, b: real, w: real)
    requires a <= b && w >= 0.0
    ensures a * w <= b * w && w * a <= w * b
  {
  }

  /**
   * When every weighted estimate g(z_j) − ln t_j lies in [lo, hi], so does
   * the numerator, relative to the denominator.
   */
  lemma {:induction false} NumeratorBounds(zs: seq<byte>, logTimes: seq<real>, curve: seq<real>, lut: seq<real>,
                                           n: nat, lo: real, hi: real)
    requires n <= |zs| == |logTimes| && |curve| == NumValues && |lut| == NumValues && NonNegative(lut)
    requires forall j :: 0 <= j < n && lut[zs[j]] > 0.0 ==> lo <= curve[zs[j]] - logTimes[j] <= hi
    ensures lo * Denominator(zs, lut, n) <= Numerator(zs, logTimes, curve, lut, n)
    ensures Numerator(zs, logTimes, curve, lut, n) <= hi * Denominator(zs, lut, n)
  {
    if n > 0 {
      NumeratorBounds(zs, logTimes, curve, lut, n - 1, lo, hi);
      var w, e := lut[zs[n - 1]], curve[zs[n - 1]] - logTimes[n - 1];
      assert w >= 0.0;
      WeightedTermBounds(Numerator(zs, logTimes, curve, lut, n - 1), Denominator(zs, lut, n - 1), w, e, lo, hi);
    }
  }

  /** Adding a term w·e with w ≥ 0, and e in [lo, hi] when w > 0, keeps the bounds of a weighted sum. */
  lemma WeightedTermBounds(num: real, den: real, w: real, e: real, lo: real, hi: real)
    requires lo * den <= num <= hi * den && w >= 0.0 && (w > 0.0 ==> lo <= e <= hi)
    ensures lo * (den + w) <= num + w * e <= hi * (den + w)
  {
    assert lo * (den + w) == lo * den + lo * w;
    assert hi * (den + w) == hi * den + hi * w;
    assert lo * w <= w * e by {
      if w > 0.0 { ScaleByWeight(lo, e, w); }
    }
    assert w * e <= hi * w by {
      if w > 0.0 { ScaleByWeight(e, hi, w); }
    }
  }

  /** A quotient by a positive divisor keeps the bounds its dividend has relative to the divisor. */
  lemma QuotientBounds(a: real, d: real, lo: real, hi: real)
    requires d > 0.0 && lo * d <= a <= hi * d
    ensures lo <= a / d <= hi
  {
    assert a / d * d == a;
    if a / d < lo {
      ScaleByWeight(a / d, lo, d);
    }
    if a / d > hi {
      ScaleByWeight(hi, a / d, d);
    }
  }

  /**
   * The exponent of a fused value is a weighted mean: it lies between the
   * smallest and the largest estimate g(z_j) − ln t_j of the samples that
   * carry weight.
   */
  lemma RadianceIsWeightedMean(zs: seq<byte>, logTimes: seq<real>, curve: seq<real>, lut: seq<real>,
                               lo: real, hi: real)
    requires |zs| == |logTimes| && |curve| == NumValues && |lut| == NumValues && NonNegative(lut)
    requires WeightedCount(zs, lut, |zs|) != 0
    requires forall j :: 0 <= j < |zs| && lut[zs[j]] > 0.0 ==> lo <= curve[zs[j]] - logTimes[j] <= hi
    ensures Denominator(zs, lut, |zs|) > 0.0
    ensures lo <= Numerator(zs, logTimes, curve, lut, |zs|) / Denominator(zs, lut, |zs|) <= hi
  {
    CountPositiveIffWeightPositive(zs, lut, |zs|);
    NumeratorBounds(zs, logTimes, curve, lut, |zs|, lo, hi);
    QuotientBounds(Numerator(zs, logTimes, curve, lut, |zs|), Denominator(zs, lut, |zs|), lo, hi);
  }

  /**
   * When every weighted sample agrees that the log irradiance is e, the
   * fused value is exp(e); when no sample carries weight it is 0.
   */
  lemma ConsistentStackFusesExactly(zs: seq<byte>, logTimes: seq<real>, curve: seq<real>, lut: seq<real>,
                                    exp: real -> real, e: real)
    requires |zs| == |logTimes| && |curve| == NumValues && |lut| == NumValues && NonNegative(lut)
    requires forall j :: 0 <= j < |zs| && lut[zs[j]] > 0.0 ==> curve[zs[j]] - logTimes[j] == e
    ensures Radiance(zs, logTimes, curve, lut, exp) == if WeightedCount(zs, lut, |zs|) != 0 then exp(e) else 0.0
  {
    if WeightedCount(zs, lut, |zs|) != 0 {
      RadianceIsWeightedMean(zs, logTimes, curve, lut, e, e);
    }
  }

  /** A pixel is bad for `MakeHDR` when none of its samples carries weight. */
  predicate NoWeightedSample(zs: seq<byte>, lut: seq<real>)
    requires |lut| == NumValues
  {
    WeightedCount(zs, lut, |zs|) == 0
  }

  /** The number of the first n listed pixels that have no weighted sample. */
  function BadPixels(planes: seq<Plane>, lut: seq<real>, pixels: seq<PixelCoord>, n: nat): nat
    requires n <= |pixels| && |lut| == NumValues
    requires forall i :: 0 <= i < |pixels| ==> Covers(planes, pixels[i])
  {
    if n == 0 then 0
    else BadPixels(planes, lut, pixels, n - 1) + (if NoWeightedSample(PixelSamples(planes, pixels[n - 1]), lut) then 1 else 0)
  }

  /** At most every listed pixel is bad, and exactly that many when no pixel has a weighted sample. */
  lemma {:induction false} BadPixelsAtMostListed(planes: seq<Plane>, lut: seq<real>, pixels: seq<PixelCoord>, n: nat)
    requires n <= |pixels| && |lut| == NumValues
    requires forall i :: 0 <= i < |pixels| ==> Covers(planes, pixels[i])
    ensures BadPixels(planes, lut, pixels, n) <= n
    ensures BadPixels(planes, lut, pixels, n) == n <==>
      forall i :: 0 <= i < n ==> NoWeightedSample(PixelSamples(planes, pixels[i]), lut)
  {
    if n > 0 {
      BadPixelsAtMostListed(planes, lut, pixels, n - 1);
    }
  }

  // ---------------------------------------------------------------------------
  // The linear-response variant
  // ---------------------------------------------------------------------------

  /** A sample is valid strictly inside (validBegin, validEnd). */
  predicate ValidSample(z: byte, validBegin: byte, validEnd: byte)
  {
    validBegin < z < validEnd
  }

  /** The (exposure time, sample value) points of the valid samples among the first n, in image order. */
  function ValidPoints(zs: seq<byte>, times: seq<real>, validBegin: byte, validEnd: byte, n: nat)
    : seq<LinearRegression.Point>
    requires n <= |zs| == |times|
  {
    if n == 0 then []
    else
      var last := if ValidSample(zs[n - 1], validBegin, validEnd)
        then [LinearRegression.Point(times[n - 1], zs[n - 1] as real)] else [];
      ValidPoints(zs, times, validBegin, validEnd, n - 1) + last
  }

  /** Times increase strictly with the image index. */
  predicate StrictlyIncreasing(times: seq<real>)
  {
    forall j, k :: 0 <= j < k < |times| ==> times[j] < times[k]
  }

  /** Each valid point pairs a valid sample value with the time of one of the first n images. */
  lemma {:induction false} ValidPointsSamples(zs: seq<byte>, times: seq<real>, validBegin: byte, validEnd: byte,
                                              n: nat)
    requires n <= |zs| == |times|
    ensures var pts := ValidPoints(zs, times, validBegin, validEnd, n);
      && |pts| <= n
      && (forall k :: 0 <= k < |pts| ==> validBegin as real < pts[k].y < validEnd as real)
      && (forall k :: 0 <= k < |pts| ==> exists j :: 0 <= j < n && pts[k].x == times[j])
  {
    if n > 0 {
      ValidPointsSamples(zs, times, validBegin, validEnd, n - 1);
      var pts := ValidPoints(zs, times, validBegin, validEnd, n);
      var before := ValidPoints(zs, times, validBegin, validEnd, n - 1);
      forall k | 0 <= k < |pts|
        ensures validBegin as real < pts[k].y < validEnd as real
        ensures exists j :: 0 <= j < n && pts[k].x == times[j]
      {
        if k < |before| {
          assert pts[k] == before[k];
          var j :| 0 <= j < n - 1 && before[k].x == times[j];
          assert pts[k].x == times[j];
        } else {
          assert pts[k] == LinearRegression.Point(times[n - 1], zs[n - 1] as real);
          assert ValidSample(zs[n - 1], validBegin, validEnd);
          assert pts[k].x == times[n - 1];
        }
      }
      assert |pts| <= |before| + 1;
    }
  }

  /** The x coordinates of pts increase strictly. */
  ghost predicate Increasing(pts: seq<LinearRegression.Point>)
  {
    forall k, l :: 0 <= k < l < |pts| ==> pts[k].x < pts[l].x
  }

  /** Every x coordinate of pts is below bound. */
  ghost predicate Below(pts: seq<LinearRegression.Point>, bound: real)
  {
    forall k :: 0 <= k < |pts| ==> pts[k].x < bound
  }

  /** Under strictly increasing times, the valid points have increasing x, all below the time of image n. */
  lemma {:induction false} ValidPointsIncreasing(zs: seq<byte>, times: seq<real>, validBegin: byte, validEnd: byte,
                                                 n: nat)
    requires n <= |zs| == |times| && StrictlyIncreasing(times)
    ensures Increasing(ValidPoints(zs, times, validBegin, validEnd, n))
    ensures n < |times| ==> Below(ValidPoints(zs, times, validBegin, validEnd, n), times[n])
  {
    if n > 0 {
      ValidPointsIncreasing(zs, times, validBegin, validEnd, n - 1);
      var pts := ValidPoints(zs, times, validBegin, validEnd, n);
      var before := ValidPoints(zs, times, validBegin, validEnd, n - 1);
      assert Below(before, times[n - 1]);
      forall k | 0 <= k < |pts|
        ensures pts[k].x <= times[n - 1]
        ensures k < |before| ==> pts[k].x < times[n - 1]
      {
        if k < |before| {
          assert pts[k] == before[k];
        } else {
          assert pts[k] == LinearRegression.Point(times[n - 1], zs[n - 1] as real);
        }
      }
      if n < |times| {
        assert times[n - 1] < times[n];
      }
    }
  }

  /** With strictly increasing times, two or more valid points never share one x. */
  lemma DistinctTimesGiveSpread(zs: seq<byte>, times: seq<real>, validBegin: byte, validEnd: byte)
    requires |zs| == |times| && StrictlyIncreasing(times)
    requires |ValidPoints(zs, times, validBegin, validEnd, |zs|)| >= 2
    ensures var pts := ValidPoints(zs, times, validBegin, validEnd, |zs|);
      !LinearRegression.AllSameX(pts, |pts|)
  {
    var pts := ValidPoints(zs, times, validBegin, validEnd, |zs|);
    ValidPointsIncreasing(zs, times, validBegin, validEnd, |zs|);
    assert pts[0].x < pts[1].x;
  }

  /** The fitted line of a pixel with at least two valid samples. */
  function PixelLine(zs: seq<byte>, times: seq<real>, validBegin: byte, validEnd: byte): LinearRegression.Line
    requires |zs| == |times| && StrictlyIncreasing(times)
    requires |ValidPoints(zs, times, validBegin, validEnd, |zs|)| >= 2
  {
    var pts := ValidPoints(zs, times, validBegin, validEnd, |zs|);
    DistinctTimesGiveSpread(zs, times, validBegin, validEnd);
    LinearRegression.Fit(pts, |pts|)
  }

  /** The value `MakeHDRLinear` writes: the slope of the fit, or 0 with fewer than two valid samples. */
  function LinearRadiance(zs: seq<byte>, times: seq<real>, validBegin: byte, validEnd: byte): real
    requires |zs| == |times| && StrictlyIncreasing(times)
  {
    if |ValidPoints(zs, times, validBegin, validEnd, |zs|)| >= 2
    then PixelLine(zs, times, validBegin, validEnd).m
    else 0.0
  }

  /** The residual `MakeHDRLinear` reports: that of the fit, or −1 with fewer than two valid samples. */
  function LinearResidual(zs: seq<byte>, times: seq<real>, validBegin: byte, validEnd: byte): real
    requires |zs| == |times| && StrictlyIncreasing(times)
  {
    var pts := ValidPoints(zs, times, validBegin, validEnd, |zs|);
    if |pts| >= 2
    then LinearRegression.Residual(pts, |pts|, PixelLine(zs, times, validBegin, validEnd))
    else -1.0
  }

  /** A pixel is bad for `MakeHDRLinear` with fewer than two valid samples or a negative slope. */
  predicate LinearBad(zs: seq<byte>, times: seq<real>, validBegin: byte, validEnd: byte)
    requires |zs| == |times| && StrictlyIncreasing(times)
  {
    |ValidPoints(zs, times, validBegin, validEnd, |zs|)| < 2 || LinearRadiance(zs, times, validBegin, validEnd) < 0.0
  }

  /**
   * When the valid samples of a pixel respond linearly to exposure,
   * z = e·t + c, the pixel's value is the irradiance e and its residual is 0.
   */
  lemma LinearResponseRecovered(zs: seq<byte>, times: seq<real>, validBegin: byte, validEnd: byte, e: real, c: real)
    requires |zs| == |times| && StrictlyIncreasing(times)
    requires |ValidPoints(zs, times, validBegin, validEnd, |zs|)| >= 2
    requires forall j :: 0 <= j < |zs| && ValidSample(zs[j], validBegin, validEnd) ==> zs[j] as real == e * times[j] + c
    ensures LinearRadiance(zs, times, validBegin, validEnd) == e
    ensures LinearResidual(zs, times, validBegin, validEnd) == 0.0
  {
    var pts := ValidPoints(zs, times, validBegin, validEnd, |zs|);
    ValidPointsOnLine(zs, times, validBegin, validEnd, |zs|, e, c);
    DistinctTimesGiveSpread(zs, times, validBegin, validEnd);
    LinearRegression.FitRecoversLine(pts, |pts|, e, c);
    LinearRegression.CollinearFitHasNoResidual(pts, |pts|, e, c);
  }

  /** `pt` lies on the line y = e·x + c. */
  predicate OnLine(pt: LinearRegression.Point, e: real, c: real)
  {
    pt.y == e * pt.x + c
  }

  /** Valid samples on the line z = e·t + c give valid points on the line y = e·x + c. */
  lemma {:induction false} ValidPointsOnLine(zs: seq<byte>, times: seq<real>, validBegin: byte, validEnd: byte,
                                             n: nat, e: real, c: real)
    requires n <= |zs| == |times|
    requires forall j :: 0 <= j < n && ValidSample(zs[j], validBegin, validEnd) ==> zs[j] as real == e * times[j] + c
    ensures forall k :: 0 <= k < |ValidPoints(zs, times, validBegin, validEnd, n)| ==>
      OnLine(ValidPoints(zs, times, validBegin, validEnd, n)[k], e, c)
  {
    if n > 0 {
      ValidPointsOnLine(zs, times, validBegin, validEnd, n - 1, e, c);
      var pts := ValidPoints(zs, times, validBegin, validEnd, n);
      var before := ValidPoints(zs, times, validBegin, validEnd, n - 1);
      if ValidSample(zs[n - 1], validBegin, validEnd) {
        assert pts == before + [LinearRegression.Point(times[n - 1], zs[n - 1] as real)];
      } else {
        assert pts == before;
      }
    }
  }

  /**
   * The hat weight of a sample is positive exactly when the linear variant
   * counts it as valid, so P of `MakeHDR` and the number of valid points of
   * `MakeHDRLinear` agree for the same range.
   */
  lemma {:induction false} WeightedCountIsValidCount(zs: seq<byte>, times: seq<real>, validBegin: byte, validEnd: byte,
                                                     n: nat)
    requires n <= |zs| == |times| && validBegin < validEnd
    ensures WeightedCount(zs, HatTable(validBegin, validEnd), n) == |ValidPoints(zs, times, validBegin, validEnd, n)|
  {
    if n > 0 {
      WeightedCountIsValidCount(zs, times, validBegin, validEnd, n - 1);
    }
  }

  /** The number of the first n listed pixels that `MakeHDRLinear` counts as bad. */
  function LinearBadPixels(planes: seq<Plane>, times: seq<real>, validBegin: byte, validEnd: byte,
                           pixels: seq<PixelCoord>, n: nat): nat
    requires n <= |pixels| && |planes| == |times| && StrictlyIncreasing(times)
    requires forall i :: 0 <= i < |pixels| ==> Covers(planes, pixels[i])
  {
    if n == 0 then 0
    else
      var bad := if LinearBad(PixelSamples(planes, pixels[n - 1]), times, validBegin, validEnd) then 1 else 0;
      LinearBadPixels(planes, times, validBegin, validEnd, pixels, n - 1) + bad
  }

  /** Every listed pixel adds at most one bad pixel. */
  lemma {:induction false} LinearBadPixelsAtMostListed(planes: seq<Plane>, times: seq<real>, validBegin: byte,
                                                       validEnd: byte, pixels: seq<PixelCoord>, n: nat)
    requires n <= |pixels| && |planes| == |times| && StrictlyIncreasing(times)
    requires forall i :: 0 <= i < |pixels| ==> Covers(planes, pixels[i])
    ensures LinearBadPixels(planes, times, validBegin, validEnd, pixels, n) <= n
    ensures LinearBadPixels(planes, times, validBegin, validEnd, pixels, n) == 0 <==>
      forall i :: 0 <= i < n ==> !LinearBad(PixelSamples(planes, pixels[i]), times, validBegin, validEnd)
  {
    if n > 0 {
      LinearBadPixelsAtMostListed(planes, times, validBegin, validEnd, pixels, n - 1);
      if LinearBad(PixelSamples(planes, pixels[n - 1]), times, validBegin, validEnd) {
        assert LinearBadPixels(planes, times, validBegin, validEnd, pixels, n) > 0;
      }
    }
  }

  // ---------------------------------------------------------------------------
  // The fusion loops
  // ---------------------------------------------------------------------------

  /**
   * The fused value of one pixel and whether it is bad: the weighted sums
   * of equation 6 over the stack, with weights read from `lut`.
   */
  method FusePixel(images: seq<ImageExposurePair>, planes: seq<Plane>, p: PixelCoord, ctf: CTF, lut: array<real>,
                   ln: real -> real, exp: real -> real)
    returns (value: real, bad: bool)
    requires |planes| == |images| && Covers(planes, p)
    requires ctf.Valid() && lut.Length == NumValues && NonNegative(lut[..])
    ensures value == Radiance(PixelSamples(planes, p), LogTimes(images, ln), ctf.data, lut[..], exp)
    ensures bad <==> NoWeightedSample(PixelSamples(planes, p), lut[..])
  {
    ghost var zs, logTimes, weights := PixelSamples(planes, p), LogTimes(images, ln), lut[..];
    var x, y := p.x, p.y;
    var numerator, denominator := 0.0, 0.0;
    var P := 0;
    for j := 0 to |images|
      invariant numerator == Numerator(zs, logTimes, ctf.data, weights, j)
      invariant denominator == Denominator(zs, weights, j)
      invariant P == WeightedCount(zs, weights, j)
    {
      var pixelValue := planes[j][x][y];
      var weight := lut[pixelValue];
      var logExposureTime := ln(images[j].GetTime());
      var ctfValue := ctf.Eval(pixelValue);
      var denTerm := weight;
      var numTerm := weight * (ctfValue - logExposureTime);
      numerator := numerator + numTerm;
      denominator := denominator + denTerm;
      P := P + if weight > 0.0 then 1 else 0;
    }
    if P != 0 {
      CountPositiveIffWeightPositive(zs, weights, |zs|);
      value, bad := exp(numerator / denominator), false;
    } else {
      value, bad := 0.0, true;
    }
  }

  /** Every image of a width-by-height stack has a sample at every in-bounds listed pixel. */
  lemma StackCovers(planes: seq<Plane>, width: nat, height: nat, pixels: seq<PixelCoord>)
    requires StackIs(planes, width, height) && AllInBounds(pixels, width, height)
    ensures forall i :: 0 <= i < |pixels| ==> Covers(planes, pixels[i])
  {
  }

  // ---------------------------------------------------------------------------
  // Writing the listed pixels of an output grid
  // ---------------------------------------------------------------------------

  /** The contents of `grid`, as grid[x][y]. */
  ghost function Snapshot<T>(grid: array2<T>): (cells: seq<seq<T>>)
    reads grid
    ensures |cells| == grid.Length0
    ensures forall x :: 0 <= x < grid.Length0 ==> |cells[x]| == grid.Length1
    ensures forall x, y :: 0 <= x < grid.Length0 && 0 <= y < grid.Length1 ==> cells[x][y] == grid[x, y]
  {
    seq(grid.Length0, (x: int) reads grid requires 0 <= x < grid.Length0 =>
      seq(grid.Length1, (y: int) reads grid requires 0 <= y < grid.Length1 => grid[x, y]))
  }

  /**
   * The entries of `grid` at the first n listed pixels hold their target
   * values; every other entry holds what `orig` records.
   */
  ghost predicate ListedWritten<T>(grid: array2<T>, orig: seq<seq<T>>, pixels: seq<PixelCoord>, n: nat,
                                   target: PixelCoord -> T)
    reads grid
  {
    && n <= |pixels|
    && |orig| == grid.Length0 && (forall x :: 0 <= x < grid.Length0 ==> |orig[x]| == grid.Length1)
    && forall x, y :: 0 <= x < grid.Length0 && 0 <= y < grid.Length1 ==>
         grid[x, y] == if PixelCoord(x, y) in pixels[..n] then target(PixelCoord(x, y)) else orig[x][y]
  }

  /** Once every listed pixel is written, a listed entry holds its target and any other its original value. */
  lemma AllListedWritten<T>(grid: array2<T>, orig: seq<seq<T>>, pixels: seq<PixelCoord>, target: PixelCoord -> T)
    requires ListedWritten(grid, orig, pixels, |pixels|, target)
    ensures forall x, y :: 0 <= x < grid.Length0 && 0 <= y < grid.Length1 ==>
      grid[x, y] == if PixelCoord(x, y) in pixels then target(PixelCoord(x, y)) else orig[x][y]
  {
    assert pixels[..|pixels|] == pixels;
  }

  /** Writes the target value of listed pixel n. */
  method WriteListed<T>(grid: array2<T>, ghost orig: seq<seq<T>>, pixels: seq<PixelCoord>, n: nat, v: T,
                        ghost target: PixelCoord -> T)
    requires ListedWritten(grid, orig, pixels, n, target) && n < |pixels|
    requires InBounds(pixels[n], grid.Length0, grid.Length1) && v == target(pixels[n])
    modifies grid
    ensures ListedWritten(grid, orig, pixels, n + 1, target)
  {
    grid[pixels[n].x, pixels[n].y] := v;
    assert pixels[..n + 1] == pixels[..n] + [pixels[n]];
  }

  /** What the fusion writes to outHDR at a pixel: its radiance. */
  ghost function RadianceTarget(planes: seq<Plane>, logTimes: seq<real>, curve: seq<real>, weights: seq<real>,
                                exp: real -> real): PixelCoord -> real
    requires |planes| == |logTimes| && |curve| == CurveLength && |weights| == NumValues && NonNegative(weights)
  {
    (p: PixelCoord) =>
      if Covers(planes, p) then Radiance(PixelSamples(planes, p), logTimes, curve, weights, exp) else 0.0
  }

  /** Fuses listed pixel i and writes its radiance: one pass of the pixel loop of the fusion. */
  method FuseStep(images: seq<ImageExposurePair>, planes: seq<Plane>, pixels: seq<PixelCoord>, i: nat, ctf: CTF,
                  lut: array<real>, ln: real -> real, exp: real -> real, outHDR: array2<real>, badCount0: nat,
                  ghost orig: seq<seq<real>>)
    returns (badCount: nat)
    requires |planes| == |images| && i < |pixels| && AllInBounds(pixels, outHDR.Length0, outHDR.Length1)
    requires forall k :: 0 <= k < |pixels| ==> Covers(planes, pixels[k])
    requires ctf.Valid() && lut.Length == NumValues && NonNegative(lut[..])
    requires badCount0 == BadPixels(planes, lut[..], pixels, i)
    requires ListedWritten(outHDR, orig, pixels, i, RadianceTarget(planes, LogTimes(images, ln), ctf.data, lut[..], exp))
    modifies outHDR
    ensures badCount == BadPixels(planes, lut[..], pixels, i + 1)
    ensures ListedWritten(outHDR, orig, pixels, i + 1,
                          RadianceTarget(planes, LogTimes(images, ln), ctf.data, lut[..], exp))
  {
    var value, bad := FusePixel(images, planes, pixels[i], ctf, lut, ln, exp);
    WriteListed(outHDR, orig, pixels, i, value, RadianceTarget(planes, LogTimes(images, ln), ctf.data, lut[..], exp));
    badCount := badCount0 + if bad then 1 else 0;
  }

  /**
   * Fuses every listed pixel through the response curve `ctf`, weighting
   * each sample by the hat on (validBegin, validEnd), and writes the result
   * into outHDR; every other entry of outHDR is left as it was. Returns the
   * number of listed pixels none of whose samples carries weight.
   */
  method MakeHDR(images: seq<ImageExposurePair>, planes: seq<Plane>, pixels: seq<PixelCoord>, ctf: CTF,
                 validBegin: byte, validEnd: byte, outHDR: array2<real>, ln: real -> real, exp: real -> real)
    returns (badPixCount: nat)
    requires |planes| == |images| && StackIs(planes, outHDR.Length0, outHDR.Length1)
    requires AllInBounds(pixels, outHDR.Length0, outHDR.Length1)
    requires ctf.Valid() && validBegin < validEnd
    modifies outHDR
    ensures badPixCount == BadPixels(planes, HatTable(validBegin, validEnd), pixels, |pixels|)
    ensures forall x, y :: 0 <= x < outHDR.Length0 && 0 <= y < outHDR.Length1 ==>
      outHDR[x, y] == if PixelCoord(x, y) in pixels
        then Radiance(PixelSamples(planes, PixelCoord(x, y)), LogTimes(images, ln), ctf.data,
                      HatTable(validBegin, validEnd), exp)
        else old(outHDR[x, y])
  {
    var lut := new real[NumValues];
    MakeLUTHat(lut, validBegin, validEnd);
    assert lut[..] == lut[..NumValues];
    ghost var orig := Snapshot(outHDR);
    badPixCount := 0;
    StackCovers(planes, outHDR.Length0, outHDR.Length1, pixels);
    for i := 0 to |pixels|
      invariant lut[..] == HatTable(validBegin, validEnd)
      invariant badPixCount == BadPixels(planes, lut[..], pixels, i)
      invariant ListedWritten(outHDR, orig, pixels, i, RadianceTarget(planes, LogTimes(images, ln), ctf.data, lut[..], exp))
    {
      badPixCount := FuseStep(images, planes, pixels, i, ctf, lut, ln, exp, outHDR, badPixCount, orig);
    }
    AllListedWritten(outHDR, orig, pixels, RadianceTarget(planes, LogTimes(images, ln), ctf.data, lut[..], exp));
  }

  /** The value written to outN: the sample count cast to 8 bits. */
  function CountByte(n: nat): (r: byte)
    ensures n < 256 ==> r == n
  {
    n % 256
  }

  /** With fewer than 256 images the sample count written to outN is exact. */
  lemma SampleCountFitsByte(zs: seq<byte>, times: seq<real>, validBegin: byte, validEnd: byte)
    requires |zs| == |times| < 256
    ensures var count := |ValidPoints(zs, times, validBegin, validEnd, |zs|)|;
      count <= |zs| && CountByte(count) == count
  {
    ValidPointsSamples(zs, times, validBegin, validEnd, |zs|);
  }

  /**
   * Collects the valid samples of pixel p into the first rows of `points`
   * and fits a line through them: returns the slope (0 with fewer than two
   * valid samples), the number of valid samples, the residual when asked
   * for it (−1 otherwise or with fewer than two) and whether p is bad.
   */
  method FitPixel(images: seq<ImageExposurePair>, planes: seq<Plane>, p: PixelCoord,
                  validBegin: byte, validEnd: byte, wantResidual: bool, points0: seq<LinearRegression.Point>)
    returns (hdrVal: real, matRow: nat, residual: real, bad: bool, points: seq<LinearRegression.Point>)
    requires StrictlyIncreasing(Times(images))
    requires |planes| == |images| && Covers(planes, p) && |points0| == |images|
    ensures var zs := PixelSamples(planes, p);
      && hdrVal == LinearRadiance(zs, Times(images), validBegin, validEnd)
      && matRow == |ValidPoints(zs, Times(images), validBegin, validEnd, |images|)|
      && (wantResidual ==> residual == LinearResidual(zs, Times(images), validBegin, validEnd))
      && (bad <==> LinearBad(zs, Times(images), validBegin, validEnd))
    ensures |points| == |images|
  {
    ghost var zs, times := PixelSamples(planes, p), Times(images);
    var x, y := p.x, p.y;
    points := points0;
    matRow := 0;
    for j := 0 to |images|
      invariant |points| == |images| && matRow <= j
      invariant points[..matRow] == ValidPoints(zs, times, validBegin, validEnd, j)
    {
      assert HasPixel(planes[j], p);
      var pixelValue := planes[j][x][y];
      if validBegin < pixelValue < validEnd {
        points := points[matRow := LinearRegression.Point(images[j].GetTime(), pixelValue as real)];
        assert points[..matRow + 1] == points[..matRow] + [points[matRow]];
        matRow := matRow + 1;
      }
    }
    ghost var pts := ValidPoints(zs, times, validBegin, validEnd, |images|);
    hdrVal, residual, bad := 0.0, -1.0, false;
    if matRow >= 2 {
      DistinctTimesGiveSpread(zs, times, validBegin, validEnd);
      LinearRegression.FitReadsPrefix(pts, points, matRow);
      var hdrLine, r := LinearRegression.LinearRegression(matRow, points, wantResidual);
      hdrVal := if hdrLine.Some? then hdrLine.value.m else 0.0;
      if r.Some? {
        residual := r.value;
      }
      if hdrVal < 0.0 {
        bad := true;
      }
    } else {
      bad := true;
    }
  }

  /** What the linear fusion writes to outHDR at a pixel: the fitted slope. */
  ghost function SlopeTarget(planes: seq<Plane>, times: seq<real>, validBegin: byte, validEnd: byte): PixelCoord -> real
    requires |planes| == |times| && StrictlyIncreasing(times)
  {
    (p: PixelCoord) =>
      if Covers(planes, p) then LinearRadiance(PixelSamples(planes, p), times, validBegin, validEnd) else 0.0
  }

  /** What the linear fusion writes to outN at a pixel: its number of valid samples, as a byte. */
  ghost function CountTarget(planes: seq<Plane>, times: seq<real>, validBegin: byte, validEnd: byte): PixelCoord -> byte
    requires |planes| == |times| && StrictlyIncreasing(times)
  {
    (p: PixelCoord) =>
      if Covers(planes, p) then CountByte(|ValidPoints(PixelSamples(planes, p), times, validBegin, validEnd, |times|)|)
      else 0
  }

  /** What the linear fusion writes to outR at a pixel: the residual of its fit. */
  ghost function ResidualTarget(planes: seq<Plane>, times: seq<real>, validBegin: byte, validEnd: byte)
    : PixelCoord -> real
    requires |planes| == |times| && StrictlyIncreasing(times)
  {
    (p: PixelCoord) =>
      if Covers(planes, p) then LinearResidual(PixelSamples(planes, p), times, validBegin, validEnd) else 0.0
  }

  /** The three output grids of the linear fusion hold their targets at the first n listed pixels. */
  ghost predicate FitsWritten(outHDR: array2<real>, outN: array2?<byte>, outR: array2?<real>,
                              pixels: seq<PixelCoord>, n: nat,
                              hdrOrig: seq<seq<real>>, nOrig: seq<seq<byte>>, rOrig: seq<seq<real>>,
                              planes: seq<Plane>, times: seq<real>, validBegin: byte, validEnd: byte)
    requires |planes| == |times| && StrictlyIncreasing(times)
    reads outHDR, outN, outR
  {
    && ListedWritten(outHDR, hdrOrig, pixels, n, SlopeTarget(planes, times, validBegin, validEnd))
    && (outN != null ==> ListedWritten(outN, nOrig, pixels, n, CountTarget(planes, times, validBegin, validEnd)))
    && (outR != null ==> ListedWritten(outR, rOrig, pixels, n, ResidualTarget(planes, times, validBegin, validEnd)))
  }

  /**
   * Fits listed pixel i and writes its results: one pass of the pixel loop
   * of the linear fusion.
   */
  method FitStep(images: seq<ImageExposurePair>, planes: seq<Plane>, pixels: seq<PixelCoord>, i: nat,
                 validBegin: byte, validEnd: byte, outHDR: array2<real>, outN: array2?<byte>, outR: array2?<real>,
                 points0: seq<LinearRegression.Point>, badCount0: nat,
                 ghost hdrOrig: seq<seq<real>>, ghost nOrig: seq<seq<byte>>, ghost rOrig: seq<seq<real>>)
    returns (badCount: nat, points: seq<LinearRegression.Point>)
    requires StrictlyIncreasing(Times(images)) && |planes| == |images| && |points0| == |images|
    requires i < |pixels| && AllInBounds(pixels, outHDR.Length0, outHDR.Length1)
    requires forall k :: 0 <= k < |pixels| ==> Covers(planes, pixels[k])
    requires outN != null ==> outN.Length0 == outHDR.Length0 && outN.Length1 == outHDR.Length1
    requires outR != null ==> outR.Length0 == outHDR.Length0 && outR.Length1 == outHDR.Length1 && outR != outHDR
    requires badCount0 == LinearBadPixels(planes, Times(images), validBegin, validEnd, pixels, i)
    requires FitsWritten(outHDR, outN, outR, pixels, i, hdrOrig, nOrig, rOrig, planes, Times(images), validBegin, validEnd)
    modifies outHDR, outN, outR
    ensures |points| == |images|
    ensures badCount == LinearBadPixels(planes, Times(images), validBegin, validEnd, pixels, i + 1)
    ensures FitsWritten(outHDR, outN, outR, pixels, i + 1, hdrOrig, nOrig, rOrig, planes, Times(images),
                        validBegin, validEnd)
  {
    ghost var times := Times(images);
    var hdrVal, matRow, residual, bad;
    hdrVal, matRow, residual, bad, points := FitPixel(images, planes, pixels[i], validBegin, validEnd, outR != null,
                                                      points0);
    badCount := badCount0 + if bad then 1 else 0;
    StoreFit(outHDR, outN, outR, pixels, i, hdrVal, CountByte(matRow), residual, hdrOrig, nOrig, rOrig,
             planes, times, validBegin, validEnd);
  }

  /** Writes the fit of listed pixel n to outHDR and, when present, outN and outR. */
  method StoreFit(outHDR: array2<real>, outN: array2?<byte>, outR: array2?<real>, pixels: seq<PixelCoord>, n: nat,
                  hdrVal: real, count: byte, residual: real,
                  ghost hdrOrig: seq<seq<real>>, ghost nOrig: seq<seq<byte>>, ghost rOrig: seq<seq<real>>,
                  ghost planes: seq<Plane>, ghost times: seq<real>, ghost validBegin: byte, ghost validEnd: byte)
    requires |planes| == |times| && StrictlyIncreasing(times)
    requires n < |pixels| && InBounds(pixels[n], outHDR.Length0, outHDR.Length1)
    requires outN != null ==> outN.Length0 == outHDR.Length0 && outN.Length1 == outHDR.Length1
    requires outR != null ==> outR.Length0 == outHDR.Length0 && outR.Length1 == outHDR.Length1 && outR != outHDR
    requires FitsWritten(outHDR, outN, outR, pixels, n, hdrOrig, nOrig, rOrig, planes, times, validBegin, validEnd)
    requires hdrVal == SlopeTarget(planes, times, validBegin, validEnd)(pixels[n])
    requires outN != null ==> count == CountTarget(planes, times, validBegin, validEnd)(pixels[n])
    requires outR != null ==> residual == ResidualTarget(planes, times, validBegin, validEnd)(pixels[n])
    modifies outHDR, outN, outR
    ensures FitsWritten(outHDR, outN, outR, pixels, n + 1, hdrOrig, nOrig, rOrig, planes, times, validBegin, validEnd)
  {
    WriteListed(outHDR, hdrOrig, pixels, n, hdrVal, SlopeTarget(planes, times, validBegin, validEnd));
    if outN != null {
      WriteListed(outN, nOrig, pixels, n, count, CountTarget(planes, times, validBegin, validEnd));
    }
    if outR != null {
      WriteListed(outR, rOrig, pixels, n, residual, ResidualTarget(planes, times, validBegin, validEnd));
    }
  }

  /**
   * Fuses every listed pixel assuming a linear response: the slope of the
   * line fitted through the (exposure time, sample value) points of its
   * valid samples, or 0 with fewer than two. Writes outHDR, and outN (the
   * number of valid samples) and outR (the residual of the fit, or −1) when
   * they are present, only at listed pixels. Returns the number of listed
   * pixels with fewer than two valid samples or a negative slope.
   */
  method MakeHDRLinear(images: seq<ImageExposurePair>, planes: seq<Plane>, pixels: seq<PixelCoord>,
                       validBegin: byte, validEnd: byte,
                       outHDR: array2<real>, outN: array2?<byte>, outR: array2?<real>)
    returns (badPixCount: nat)
    requires |images| >= 2 && StrictlyIncreasing(Times(images))
    requires |planes| == |images| && StackIs(planes, outHDR.Length0, outHDR.Length1)
    requires AllInBounds(pixels, outHDR.Length0, outHDR.Length1)
    requires outN != null ==> outN.Length0 == outHDR.Length0 && outN.Length1 == outHDR.Length1
    requires outR != null ==> outR.Length0 == outHDR.Length0 && outR.Length1 == outHDR.Length1 && outR != outHDR
    modifies outHDR, outN, outR
    ensures badPixCount == LinearBadPixels(planes, Times(images), validBegin, validEnd, pixels, |pixels|)
    ensures forall x, y :: 0 <= x < outHDR.Length0 && 0 <= y < outHDR.Length1 ==>
      outHDR[x, y] == if PixelCoord(x, y) in pixels
        then LinearRadiance(PixelSamples(planes, PixelCoord(x, y)), Times(images), validBegin, validEnd)
        else old(outHDR[x, y])
    ensures outN != null ==> forall x, y :: 0 <= x < outN.Length0 && 0 <= y < outN.Length1 ==>
      outN[x, y] == if PixelCoord(x, y) in pixels
        then CountByte(|ValidPoints(PixelSamples(planes, PixelCoord(x, y)), Times(images), validBegin, validEnd,
                                    |images|)|)
        else old(outN[x, y])
    ensures outR != null ==> forall x, y :: 0 <= x < outR.Length0 && 0 <= y < outR.Length1 ==>
      outR[x, y] == if PixelCoord(x, y) in pixels
        then LinearResidual(PixelSamples(planes, PixelCoord(x, y)), Times(images), validBegin, validEnd)
        else old(outR[x, y])
  {
    ghost var times := Times(images);
    ghost var hdrOrig := Snapshot(outHDR);
    ghost var nOrig := if outN != null then Snapshot(outN) else [];
    ghost var rOrig := if outR != null then Snapshot(outR) else [];
    badPixCount := 0;
    StackCovers(planes, outHDR.Length0, outHDR.Length1, pixels);
    // room for every sample of a pixel; rows past the valid count are never read
    var points: seq<LinearRegression.Point> := seq(|images|, _ => LinearRegression.Point(0.0, 0.0));
    for i := 0 to |pixels|
      invariant |points| == |images|
      invariant badPixCount == LinearBadPixels(planes, times, validBegin, validEnd, pixels, i)
      invariant FitsWritten(outHDR, outN, outR, pixels, i, hdrOrig, nOrig, rOrig, planes, times, validBegin, validEnd)
    {
      badPixCount, points := FitStep(images, planes, pixels, i, validBegin, validEnd, outHDR, outN, outR, points,
                                     badPixCount, hdrOrig, nOrig, rOrig);
    }
    AllListedWritten(outHDR, hdrOrig, pixels, SlopeTarget(planes, times, validBegin, validEnd));
    if outN != null {
      AllListedWritten(outN, nOrig, pixels, CountTarget(planes, times, validBegin, validEnd));
    }
    if outR != null {
      AllListedWritten(outR, rOrig, pixels, ResidualTarget(planes, times, validBegin, validEnd));
    }
  }
}
