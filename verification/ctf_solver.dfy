/**
 * Recovery of the camera response curve (Debevec and Malik 1997, section 2.1):
 * sample positions are drawn at random, every image of the exposure stack
 * contributes one weighted equation per sample, one equation pins the curve
 * at the middle sample value and 255 more penalise its second difference.
 * The least-squares solve of that system is a parameter of the model, as
 * are the random numbers and the exponential and natural logarithm.
 */
module CtfSolver {
  import opened Wrappers
  import opened Images
  import opened WeightingFunctions
  import opened Ctf

  // ---------------------------------------------------------------------------
  // Exposure pairs
  // ---------------------------------------------------------------------------

  /** An image of the stack: its exposure time in microseconds and where it is stored. */
  datatype ImageExposurePair = ImageExposurePair(microseconds: int, imagePath: string)
  {
    /** The exposure time as a response value. */
    function GetTime(): real
    {
      microseconds as real
    }

    /** Pairs are ordered by exposure time alone. */
    predicate Less(other: ImageExposurePair)
    {
      microseconds < other.microseconds
    }
  }

  /** Ordering pairs agrees with ordering their exposure times; paths play no part. */
  lemma LessIsEarlier(a: ImageExposurePair, b: ImageExposurePair)
    ensures a.Less(b) <==> a.GetTime() < b.GetTime()
    ensures a.Less(b) == ImageExposurePair(a.microseconds, b.imagePath).Less(b)
  {
  }

  /** `Less` is a strict order: irreflexive, asymmetric and transitive. */
  lemma LessIsStrictOrder(a: ImageExposurePair, b: ImageExposurePair, c: ImageExposurePair)
    ensures !a.Less(a)
    ensures a.Less(b) ==> !b.Less(a)
    ensures a.Less(b) && b.Less(c) ==> a.Less(c)
  {
  }

  // ---------------------------------------------------------------------------
  // Weighting functions
  // ---------------------------------------------------------------------------

  /** The two weightings the solver offers. */
  datatype WeightingFunc = HAT | HAT_10

  /** The full-range hat: the distance of `z` to the nearer of 0 and 255. */
  function HatFunc(z: byte): (r: real)
    ensures r == (if z <= 127 then z else 255 - z) as real
  {
    Hat(z)
  }

  /** The hat on [cut, 255 - cut]: zero at and beyond the cuts. */
  function HatFuncParameterized(z: byte, cut: byte): (r: real)
    requires cut < 255 - cut
    ensures z <= cut || z >= 255 - cut ==> r == 0.0
    ensures cut < z < 255 - cut ==>
      r == (if z - cut <= 255 - cut - z then z - cut else 255 - cut - z) as real
  {
    Hat(z, cut, 255 - cut)
  }

  /** The weight of sample value `z` under `f`. */
  function Weight(f: WeightingFunc, z: byte): real
  {
    match f
    case HAT => HatFunc(z)
    case HAT_10 => HatFuncParameterized(z, 10)
  }

  /** The weight of every sample value under `f`: the table `solve` builds first. */
  function WeightTable(f: WeightingFunc): seq<real>
  {
    seq(NumValues, (i: int) requires 0 <= i < NumValues => Weight(f, i))
  }

  /** The solver's tables are the hat tables on [0, 255] and on [10, 245]. */
  lemma WeightTableIsHatTable(f: WeightingFunc)
    ensures f == HAT ==> WeightTable(f) == HatTable(0, 255)
    ensures f == HAT_10 ==> WeightTable(f) == HatTable(10, 245)
    ensures forall z :: 0 <= z < NumValues ==> WeightTable(f)[z] >= 0.0
    ensures f == HAT_10 ==> forall z :: 0 <= z < NumValues && (z <= 10 || z >= 245) ==> WeightTable(f)[z] == 0.0
  {
    if f == HAT {
      assert WeightTable(f) == HatTable(0, 255);
    } else {
      assert WeightTable(f) == HatTable(10, 245);
    }
  }

  /** Fills a fresh 256-entry table with the weights of every sample value. */
  method MakeWeightLut(f: WeightingFunc) returns (wLut: array<real>)
    ensures fresh(wLut)
    ensures wLut[..] == WeightTable(f)
  {
    wLut := new real[NumValues];
    for i := 0 to NumValues
      invariant forall j :: 0 <= j < i ==> wLut[j] == Weight(f, j)
    {
      var val := 1.0;
      match f {
        case HAT => val := HatFunc(i);
        case HAT_10 => val := HatFuncParameterized(i, 10);
      }
      wLut[i] := val;
    }
  }

  // ---------------------------------------------------------------------------
  // Random sample positions
  // ---------------------------------------------------------------------------

  /** A sample position; (-1, -1) until it is drawn. */
  datatype SamplePos = SamplePos(x: int, y: int)

  /**
   * A random integer in [minInclusive, maxExclusive) made from one output
   * `rnd` of the generator, which is never negative.
   */
  function RandomInt(minInclusive: int, maxExclusive: int, rnd: nat): (r: int)
    requires maxExclusive > minInclusive
    ensures minInclusive <= r < maxExclusive
    ensures r - minInclusive == rnd % (maxExclusive - minInclusive)
  {
    minInclusive + rnd % (maxExclusive - minInclusive)
  }

  /** Every value of the range is drawn by some generator output. */
  lemma RandomIntCoversRange(minInclusive: int, maxExclusive: int, v: int)
    requires minInclusive <= v < maxExclusive
    ensures RandomInt(minInclusive, maxExclusive, v - minInclusive) == v
  {
  }

  /** Sample i takes generator outputs 2i (its x) and 2i + 1 (its y). */
  function RandomSamples(widthMax: int, heightMax: int, numSamps: nat, draws: seq<nat>): (s: seq<SamplePos>)
    requires numSamps > 0 ==> widthMax > 0 && heightMax > 0
    requires |draws| >= 2 * numSamps
    ensures |s| == numSamps
    ensures forall i :: 0 <= i < numSamps ==> 0 <= s[i].x < widthMax && 0 <= s[i].y < heightMax
  {
    seq(numSamps, (i: int) requires 0 <= i < numSamps =>
      SamplePos(RandomInt(0, widthMax, draws[2 * i]), RandomInt(0, heightMax, draws[2 * i + 1])))
  }

  /** Draws `numSamps` positions, each inside the widthMax-by-heightMax image. */
  method GenRandomSamples(widthMax: int, heightMax: int, numSamps: nat, draws: seq<nat>)
    returns (ret: seq<SamplePos>)
    requires numSamps > 0 ==> widthMax > 0 && heightMax > 0
    requires |draws| >= 2 * numSamps
    ensures ret == RandomSamples(widthMax, heightMax, numSamps, draws)
  {
    ret := seq(numSamps, _ => SamplePos(-1, -1));
    for i := 0 to numSamps
      invariant |ret| == numSamps
      invariant forall j :: 0 <= j < i ==> ret[j] == RandomSamples(widthMax, heightMax, numSamps, draws)[j]
    {
      var sample := SamplePos(RandomInt(0, widthMax, draws[2 * i]), RandomInt(0, heightMax, draws[2 * i + 1]));
      ret := ret[i := sample];
    }
  }

  // ---------------------------------------------------------------------------
  // The linear system
  // ---------------------------------------------------------------------------

  /**
   * A rows-by-cols least-squares system A x = b. Only entries the solver
   * writes are recorded: row k of A maps each written column to its value,
   * and b[k] is None where b is never written.
   */
  datatype LinearSystem = LinearSystem(rows: nat, cols: nat, a: seq<map<int, real>>, b: seq<Option<real>>)

  /** Every image is width-by-height in every channel and has channel `chan`. */
  ghost predicate StackFits(images: seq<Image>, chan: nat, width: nat, height: nat)
  {
    forall j :: 0 <= j < |images| ==> chan < |images[j]| && IsPlane(images[j][chan], width, height)
  }

  /** Every sample lies inside a width-by-height image. */
  predicate SamplesFit(samples: seq<SamplePos>, width: nat, height: nat)
  {
    forall i :: 0 <= i < |samples| ==> 0 <= samples[i].x < width && 0 <= samples[i].y < height
  }

  /** zs[j][i]: the value of sample i in channel `chan` of image j. */
  function Sampled(images: seq<Image>, chan: nat, width: nat, height: nat, samples: seq<SamplePos>)
    : (zs: seq<seq<byte>>)
    requires StackFits(images, chan, width, height) && SamplesFit(samples, width, height)
    ensures |zs| == |images| && forall j :: 0 <= j < |zs| ==> |zs[j]| == |samples|
  {
    seq(|images|, (j: int) requires 0 <= j < |images| =>
      seq(|samples|, (i: int) requires 0 <= i < |samples| =>
        images[j][chan][samples[i].x][samples[i].y]))
  }

  /** zs holds one row of `numSamples` values per image. */
  predicate SampleGrid(zs: seq<seq<byte>>, numSamples: nat)
  {
    forall j :: 0 <= j < |zs| ==> |zs[j]| == numSamples
  }

  /** A data row: weight w at the sample value's column, −w at the sample's own unknown. */
  function DataRow(z: byte, i: nat, w: real): map<int, real>
  {
    map[z as int := w, NumValues + i := -w]
  }

  /** A smoothing row: λ·w·[1, −2, 1] at columns i, i + 1, i + 2. */
  function SmoothRow(i: nat, lambda: real, w: real): map<int, real>
  {
    map[i := lambda * w, i + 1 := -2.0 * lambda * w, i + 2 := lambda * w]
  }

  /** Number of rows: one per sample and image, then 256 + 1 more. */
  function RowCount(numImages: nat, numSamples: nat): nat
  {
    numImages * numSamples + NumValues + 1
  }

  /** Row k of A. */
  function SystemRow(zs: seq<seq<byte>>, numSamples: nat, lambda: real, wts: seq<real>, k: nat): map<int, real>
    requires SampleGrid(zs, numSamples) && |wts| == NumValues
  {
    var dataRows := |zs| * numSamples;
    if k < dataRows then
      SplitRowBound(k, |zs|, numSamples);
      var (j, i) := SplitRow(k, numSamples);
      var z := zs[j][i];
      DataRow(z, i, wts[z])
    else if k == dataRows then map[128 := 1.0]
    else if k < dataRows + NumValues then SmoothRow(k - dataRows - 1, lambda, wts[k - dataRows])
    else map[]
  }

  /** Entry k of b: only data rows have one. */
  function SystemRhs(zs: seq<seq<byte>>, numSamples: nat, times: seq<real>, wts: seq<real>,
                     ln: real -> real, k: nat): Option<real>
    requires SampleGrid(zs, numSamples) && |times| == |zs| && |wts| == NumValues
  {
    if k < |zs| * numSamples then
      SplitRowBound(k, |zs|, numSamples);
      var (j, i) := SplitRow(k, numSamples);
      Some(wts[zs[j][i]] * ln(times[j]))
    else None
  }

  /** The system assembled from sample values zs, exposure times, smoothing λ and weights. */
  function System(zs: seq<seq<byte>>, numSamples: nat, times: seq<real>, lambda: real, wts: seq<real>,
                  ln: real -> real): (sys: LinearSystem)
    requires SampleGrid(zs, numSamples) && |times| == |zs| && |wts| == NumValues
    ensures sys.rows == RowCount(|zs|, numSamples) && sys.cols == NumValues + numSamples
    ensures |sys.a| == sys.rows && |sys.b| == sys.rows
  {
    var rows := RowCount(|zs|, numSamples);
    LinearSystem(rows, NumValues + numSamples,
                 seq(rows, (k: int) requires 0 <= k < rows => SystemRow(zs, numSamples, lambda, wts, k)),
                 seq(rows, (k: int) requires 0 <= k < rows => SystemRhs(zs, numSamples, times, wts, ln, k)))
  }

  /** Multiplying by a non-negative factor keeps the order. */
  lemma MulMonotone(a: int, b: int, s: int)
    requires s >= 0
    ensures a >= b ==> a * s >= b * s
  {
    if a >= b {
      assert a * s - b * s == (a - b) * s;
    }
  }

  /**
   * The image and the sample of data row k: k = j·numSamples + i with
   * 0 <= i < numSamples, found by repeated subtraction.
   */
  function SplitRow(k: nat, numSamples: nat): (p: (nat, nat))
    requires numSamples > 0
    ensures p.1 < numSamples
    decreases k
  {
    if k < numSamples then (0, k)
    else
      var p := SplitRow(k - numSamples, numSamples);
      (p.0 + 1, p.1)
  }

  /** Splitting j·numSamples + i gives back j and i. */
  lemma {:induction false} SplitRowOf(j: nat, i: nat, numSamples: nat)
    requires i < numSamples
    ensures SplitRow(j * numSamples + i, numSamples) == (j, i)
  {
    if j > 0 {
      SplitRowOf(j - 1, i, numSamples);
      assert j * numSamples + i - numSamples == (j - 1) * numSamples + i;
    }
  }

  /** A row before the end of the data rows belongs to one of the images. */
  lemma {:induction false} SplitRowBound(k: nat, numImages: nat, numSamples: nat)
    requires k < numImages * numSamples
    ensures numSamples > 0
    ensures SplitRow(k, numSamples).0 < numImages
    decreases k
  {
    MulMonotone(0, numSamples, numImages);
    MulMonotone(1, numImages, numSamples);
    if k >= numSamples {
      assert (numImages - 1) * numSamples == numImages * numSamples - numSamples;
      SplitRowBound(k - numSamples, numImages - 1, numSamples);
    }
  }

  /** Data rows lie before the normalisation row. */
  lemma SampleRowInData(j: nat, i: nat, numImages: nat, numSamples: nat)
    requires j < numImages && i < numSamples
    ensures j * numSamples + i < numImages * numSamples
  {
    MulMonotone(numImages, j + 1, numSamples);
    assert (j + 1) * numSamples == j * numSamples + numSamples;
  }

  // ---------------------------------------------------------------------------
  // What the system says
  // ---------------------------------------------------------------------------

  /** Row j·numSamples + i of the system is the data row of sample i in image j. */
  lemma SystemDataRow(zs: seq<seq<byte>>, numSamples: nat, times: seq<real>, lambda: real,
                      wts: seq<real>, ln: real -> real, j: nat, i: nat)
    requires SampleGrid(zs, numSamples) && |times| == |zs| && |wts| == NumValues
    requires j < |zs| && i < numSamples
    ensures j * numSamples + i < |zs| * numSamples
    ensures var sys, k, z := System(zs, numSamples, times, lambda, wts, ln), j * numSamples + i, zs[j][i];
      sys.a[k] == DataRow(z, i, wts[z]) && sys.b[k] == Some(wts[z] * ln(times[j]))
  {
    SampleRowInData(j, i, |zs|, numSamples);
    SplitRowOf(j, i, numSamples);
    var sys, k := System(zs, numSamples, times, lambda, wts, ln), j * numSamples + i;
    assert sys.a[k] == SystemRow(zs, numSamples, lambda, wts, k);
    assert sys.b[k] == SystemRhs(zs, numSamples, times, wts, ln, k);
    assert SystemRhs(zs, numSamples, times, wts, ln, k).Some?;
    assert SystemRhs(zs, numSamples, times, wts, ln, k).value == wts[zs[j][i]] * ln(times[j]);
  }

  /**
   * Row j·numSamples + i is the weighted equation w·(g(z) − ln E_i) = w·ln t_j
   * of sample i in image j: weight w at column z (the sample's value), −w at
   * column 256 + i (the sample's log irradiance), and w·ln t_j in b.
   */
  lemma DataRowIsSampleEquation(zs: seq<seq<byte>>, numSamples: nat, times: seq<real>, lambda: real,
                                wts: seq<real>, ln: real -> real, j: nat, i: nat, g: real, e: real)
    requires SampleGrid(zs, numSamples) && |times| == |zs| && |wts| == NumValues
    requires j < |zs| && i < numSamples
    ensures j * numSamples + i < |zs| * numSamples
    ensures var sys, k, z := System(zs, numSamples, times, lambda, wts, ln), j * numSamples + i, zs[j][i];
      && sys.a[k].Keys == {z as int, NumValues + i}
      && sys.a[k][z as int] * g + sys.a[k][NumValues + i] * e == wts[z] * (g - e)
      && sys.b[k] == Some(wts[z] * ln(times[j]))
  {
    SystemDataRow(zs, numSamples, times, lambda, wts, ln, j, i);
  }

  /** The row after the data rows fixes g(128) with coefficient 1; its entry of b is never written. */
  lemma NormalizationRow(zs: seq<seq<byte>>, numSamples: nat, times: seq<real>, lambda: real,
                         wts: seq<real>, ln: real -> real)
    requires SampleGrid(zs, numSamples) && |times| == |zs| && |wts| == NumValues
    ensures var sys, k := System(zs, numSamples, times, lambda, wts, ln), |zs| * numSamples;
      sys.a[k] == map[128 := 1.0] && sys.b[k] == None
  {
  }

  /** Row numImages·numSamples + 1 + i of the system is smoothing row i. */
  lemma SystemSmoothRow(zs: seq<seq<byte>>, numSamples: nat, times: seq<real>, lambda: real,
                        wts: seq<real>, ln: real -> real, i: nat)
    requires SampleGrid(zs, numSamples) && |times| == |zs| && |wts| == NumValues
    requires i < NumValues - 1
    ensures var sys, k := System(zs, numSamples, times, lambda, wts, ln), |zs| * numSamples + 1 + i;
      sys.a[k] == SmoothRow(i, lambda, wts[i + 1]) && sys.b[k] == None
  {
  }

  /**
   * Smoothing row i (0 <= i < 255) is λ·w(i + 1) times the second difference
   * g(i) − 2·g(i + 1) + g(i + 2), so it costs nothing on a linear curve.
   */
  lemma SmoothingRowIsSecondDifference(zs: seq<seq<byte>>, numSamples: nat, times: seq<real>, lambda: real,
                                       wts: seq<real>, ln: real -> real, i: nat, slope: real, offset: real)
    requires SampleGrid(zs, numSamples) && |times| == |zs| && |wts| == NumValues
    requires i < NumValues - 1
    ensures var sys, k := System(zs, numSamples, times, lambda, wts, ln), |zs| * numSamples + 1 + i;
      && sys.a[k].Keys == {i, i + 1, i + 2}
      && sys.a[k][i] == lambda * wts[i + 1] && sys.a[k][i + 2] == lambda * wts[i + 1]
      && sys.a[k][i + 1] == -2.0 * lambda * wts[i + 1]
      && sys.b[k] == None
      && sys.a[k][i] * (slope * i as real + offset) + sys.a[k][i + 1] * (slope * (i + 1) as real + offset)
         + sys.a[k][i + 2] * (slope * (i + 2) as real + offset) == 0.0
  {
    var k := |zs| * numSamples + 1 + i;
    var c := lambda * wts[i + 1];
    SystemSmoothRow(zs, numSamples, times, lambda, wts, ln, i);
    assert c * (slope * i as real + offset) + (-2.0 * c) * (slope * (i + 1) as real + offset)
         + c * (slope * (i + 2) as real + offset)
        == c * (slope * (i as real + (i + 2) as real - 2.0 * (i + 1) as real));
  }

  /** 1 + 255 rows follow the data rows, so the last of the 257 reserved rows is never written. */
  lemma LastRowUnwritten(zs: seq<seq<byte>>, numSamples: nat, times: seq<real>, lambda: real,
                         wts: seq<real>, ln: real -> real)
    requires SampleGrid(zs, numSamples) && |times| == |zs| && |wts| == NumValues
    ensures var sys := System(zs, numSamples, times, lambda, wts, ln);
      sys.a[sys.rows - 1] == map[] && sys.b[sys.rows - 1] == None
  {
  }

  /** b is written exactly on the data rows. */
  lemma RhsOnDataRowsOnly(zs: seq<seq<byte>>, numSamples: nat, times: seq<real>, lambda: real,
                          wts: seq<real>, ln: real -> real, k: nat)
    requires SampleGrid(zs, numSamples) && |times| == |zs| && |wts| == NumValues
    requires k < RowCount(|zs|, numSamples)
    ensures System(zs, numSamples, times, lambda, wts, ln).b[k].Some? <==> k < |zs| * numSamples
  {
  }

  /**
   * With at least one sample every written entry of A lies inside the
   * matrix; with none, the last smoothing row writes column 256, one past
   * the last column.
   */
  lemma WrittenColumnsInBounds(zs: seq<seq<byte>>, numSamples: nat, times: seq<real>, lambda: real,
                               wts: seq<real>, ln: real -> real, k: nat)
    requires SampleGrid(zs, numSamples) && |times| == |zs| && |wts| == NumValues
    requires k < RowCount(|zs|, numSamples)
    ensures var sys := System(zs, numSamples, times, lambda, wts, ln);
      numSamples >= 1 ==> forall c :: c in sys.a[k] ==> 0 <= c < sys.cols
    ensures var sys := System(zs, numSamples, times, lambda, wts, ln);
      numSamples == 0 && k == NumValues - 1 ==> NumValues in sys.a[k] && NumValues == sys.cols
  {
    var dataRows := |zs| * numSamples;
    if k < dataRows {
      SplitRowBound(k, |zs|, numSamples);
    }
  }

  // ---------------------------------------------------------------------------
  // Assembly
  // ---------------------------------------------------------------------------

  /** The exposure time of every image of the stack. */
  function Times(imdata: seq<ImageExposurePair>): (t: seq<real>)
    ensures |t| == |imdata| && forall j :: 0 <= j < |t| ==> t[j] == imdata[j].microseconds as real
  {
    seq(|imdata|, (j: int) requires 0 <= j < |imdata| => imdata[j].GetTime())
  }

  /** The system the solver assembles for this stack, these samples and this weight table. */
  function SolverSystem(images: seq<Image>, chan: nat, width: nat, height: nat, samples: seq<SamplePos>,
                        imdata: seq<ImageExposurePair>, lambda: real, wts: seq<real>, ln: real -> real)
    : LinearSystem
    requires StackFits(images, chan, width, height) && SamplesFit(samples, width, height)
    requires |imdata| == |images| && |wts| == NumValues
  {
    System(Sampled(images, chan, width, height, samples), |samples|, Times(imdata), lambda, wts, ln)
  }

  /** A rows-long column of unwritten rows of A. */
  function BlankRows(rows: nat): seq<map<int, real>>
  {
    seq(rows, _ => map[])
  }

  /** A rows-long column of unwritten entries of b. */
  function BlankRhs(rows: nat): seq<Option<real>>
  {
    seq(rows, _ => None)
  }

  /** The rows before k of A and b are those of `spec`; the rows from k on are still unwritten. */
  ghost predicate FilledUpTo(a: seq<map<int, real>>, b: seq<Option<real>>, spec: LinearSystem, k: nat)
  {
    && |a| == |spec.a| && |b| == |spec.b| && k <= |a| && k <= |b|
    && a[..k] == spec.a[..k] && b[..k] == spec.b[..k]
    && a[k..] == BlankRows(|a|)[k..] && b[k..] == BlankRhs(|b|)[k..]
  }

  /** Row k is still unwritten while the rows before it are filled. */
  lemma BlankAt(a: seq<map<int, real>>, b: seq<Option<real>>, spec: LinearSystem, k: nat)
    requires FilledUpTo(a, b, spec, k) && k < |a| && k < |b|
    ensures a[k] == map[] && b[k] == None
  {
    Untouched(a, BlankRows(|a|), k);
    Untouched(b, BlankRhs(|b|), k);
  }

  /** Writing row k of `spec` into A and b fills one more row. */
  lemma FillRow(a: seq<map<int, real>>, b: seq<Option<real>>, spec: LinearSystem, k: nat)
    requires FilledUpTo(a, b, spec, k) && k < |a| && k < |b|
    ensures FilledUpTo(a[k := spec.a[k]], b[k := spec.b[k]], spec, k + 1)
  {
    WriteRow(a, spec.a, BlankRows(|a|), k, spec.a[k]);
    WriteRow(b, spec.b, BlankRhs(|b|), k, spec.b[k]);
  }

  /** Writing the data row of sample i in image j, entry by entry, fills row j·numSamples + i. */
  lemma FillDataRow(zs: seq<seq<byte>>, numSamples: nat, times: seq<real>, lambda: real,
                    wts: seq<real>, ln: real -> real, j: nat, i: nat, z: byte, w: real, t: real,
                    a: seq<map<int, real>>, b: seq<Option<real>>)
    requires SampleGrid(zs, numSamples) && |times| == |zs| && |wts| == NumValues
    requires j < |zs| && i < numSamples
    requires z == zs[j][i] && w == wts[z] && t == times[j]
    requires FilledUpTo(a, b, System(zs, numSamples, times, lambda, wts, ln), j * numSamples + i)
    ensures var k := j * numSamples + i;
      && k < |a| && k < |b|
      && FilledUpTo(a[k := a[k][z as int := w][NumValues + i := -w]], b[k := Some(w * ln(t))],
                    System(zs, numSamples, times, lambda, wts, ln), k + 1)
  {
    var spec := System(zs, numSamples, times, lambda, wts, ln);
    SystemDataRow(zs, numSamples, times, lambda, wts, ln, j, i);
    var k := j * numSamples + i;
    BlankAt(a, b, spec, k);
    FillRow(a, b, spec, k);
    var row, written := DataRow(z, i, w), a[k][z as int := w][NumValues + i := -w];
    assert written.Keys == row.Keys && written[z as int] == row[z as int] && written[NumValues + i] == row[NumValues + i];
    assert spec.a[k] == written;
    assert spec.b[k] == Some(wts[zs[j][i]] * ln(times[j]));
    assert wts[zs[j][i]] * ln(times[j]) == w * ln(t);
  }

  /** Writes the data row of sample i in image j, row j·numSamples + i. */
  method PutDataRow(images: seq<Image>, chan: nat, width: nat, height: nat, samples: seq<SamplePos>,
                    imdata: seq<ImageExposurePair>, lambda: real, wLut: array<real>, ln: real -> real,
                    j: nat, i: nat, a0: seq<map<int, real>>, b0: seq<Option<real>>)
    returns (a: seq<map<int, real>>, b: seq<Option<real>>)
    requires StackFits(images, chan, width, height) && SamplesFit(samples, width, height)
    requires |imdata| == |images| && wLut.Length == NumValues
    requires j < |images| && i < |samples|
    requires FilledUpTo(a0, b0, SolverSystem(images, chan, width, height, samples, imdata, lambda, wLut[..], ln),
                        j * |samples| + i)
    ensures FilledUpTo(a, b, SolverSystem(images, chan, width, height, samples, imdata, lambda, wLut[..], ln),
                       j * |samples| + i + 1)
  {
    ghost var zs := Sampled(images, chan, width, height, samples);
    assert SolverSystem(images, chan, width, height, samples, imdata, lambda, wLut[..], ln)
        == System(zs, |samples|, Times(imdata), lambda, wLut[..], ln);
    var k := j * |samples| + i;
    var x, y := samples[i].x, samples[i].y;
    var pixVal := images[j][chan][x][y];
    var w := wLut[pixVal];
    var t := imdata[j].GetTime();
    assert zs[j][i] == pixVal && Times(imdata)[j] == t && wLut[..][pixVal] == w;
    FillDataRow(zs, |samples|, Times(imdata), lambda, wLut[..], ln, j, i, pixVal, w, t, a0, b0);
    a, b := a0, b0;
    a := a[k := a[k][pixVal as int := w]];
    a := a[k := a[k][NumValues + i := -w]];
    b := b[k := Some(w * ln(t))];
  }

  /**
   * Allocates A and b and writes the data rows image by image, sample by
   * sample, advancing the row counter k after each.
   */
  method WriteDataRows(images: seq<Image>, chan: nat, width: nat, height: nat, samples: seq<SamplePos>,
                       imdata: seq<ImageExposurePair>, lambda: real, wLut: array<real>, ln: real -> real)
    returns (a: seq<map<int, real>>, b: seq<Option<real>>)
    requires StackFits(images, chan, width, height) && SamplesFit(samples, width, height)
    requires |imdata| == |images| && wLut.Length == NumValues
    ensures FilledUpTo(a, b, SolverSystem(images, chan, width, height, samples, imdata, lambda, wLut[..], ln),
                       |images| * |samples|)
  {
    ghost var spec := SolverSystem(images, chan, width, height, samples, imdata, lambda, wLut[..], ln);
    var numSamples, numImages := |samples|, |images|;
    var rows := numImages * numSamples + NumValues + 1;
    a, b := BlankRows(rows), BlankRhs(rows);
    var k := 0;
    for j := 0 to numImages
      invariant k == j * numSamples
      invariant FilledUpTo(a, b, spec, k)
    {
      for i := 0 to numSamples
        invariant k == j * numSamples + i
        invariant FilledUpTo(a, b, spec, k)
      {
        a, b := PutDataRow(images, chan, width, height, samples, imdata, lambda, wLut, ln, j, i, a, b);
        k := k + 1;
      }
      assert k == (j + 1) * numSamples;
    }
  }

  /** Writes smoothing row i, row numImages·numSamples + 1 + i. */
  method PutSmoothingRow(images: seq<Image>, chan: nat, width: nat, height: nat, samples: seq<SamplePos>,
                         imdata: seq<ImageExposurePair>, lambda: real, wLut: array<real>, ln: real -> real,
                         i: nat, a0: seq<map<int, real>>, b0: seq<Option<real>>)
    returns (a: seq<map<int, real>>, b: seq<Option<real>>)
    requires StackFits(images, chan, width, height) && SamplesFit(samples, width, height)
    requires |imdata| == |images| && wLut.Length == NumValues
    requires i < NumValues - 1
    requires FilledUpTo(a0, b0, SolverSystem(images, chan, width, height, samples, imdata, lambda, wLut[..], ln),
                        |images| * |samples| + 1 + i)
    ensures FilledUpTo(a, b, SolverSystem(images, chan, width, height, samples, imdata, lambda, wLut[..], ln),
                       |images| * |samples| + 2 + i)
  {
    ghost var zs := Sampled(images, chan, width, height, samples);
    ghost var spec := SolverSystem(images, chan, width, height, samples, imdata, lambda, wLut[..], ln);
    assert spec == System(zs, |samples|, Times(imdata), lambda, wLut[..], ln);
    SystemSmoothRow(zs, |samples|, Times(imdata), lambda, wLut[..], ln, i);
    var k := |images| * |samples| + 1 + i;
    BlankAt(a0, b0, spec, k);
    FillRow(a0, b0, spec, k);
    var lval := i + 1;
    var w := wLut[lval];
    a, b := a0, b0;
    a := a[k := a[k][i := lambda * w]];
    a := a[k := a[k][i + 1 := -2.0 * lambda * w]];
    a := a[k := a[k][i + 2 := lambda * w]];
    ghost var row := SmoothRow(i, lambda, w);
    assert a[k].Keys == row.Keys && a[k][i] == row[i] && a[k][i + 1] == row[i + 1] && a[k][i + 2] == row[i + 2];
    assert a[k] == row;
    assert a == a0[k := spec.a[k]];
    assert b == b0[k := spec.b[k]];
  }

  /**
   * Writes A(k, 128) = 1 in the row after the data rows, then the 255
   * smoothing rows; the last reserved row stays unwritten.
   */
  method WriteCurveRows(images: seq<Image>, chan: nat, width: nat, height: nat, samples: seq<SamplePos>,
                        imdata: seq<ImageExposurePair>, lambda: real, wLut: array<real>, ln: real -> real,
                        a0: seq<map<int, real>>, b0: seq<Option<real>>)
    returns (a: seq<map<int, real>>, b: seq<Option<real>>)
    requires StackFits(images, chan, width, height) && SamplesFit(samples, width, height)
    requires |imdata| == |images| && wLut.Length == NumValues
    requires FilledUpTo(a0, b0, SolverSystem(images, chan, width, height, samples, imdata, lambda, wLut[..], ln),
                        |images| * |samples|)
    ensures a == SolverSystem(images, chan, width, height, samples, imdata, lambda, wLut[..], ln).a
    ensures b == SolverSystem(images, chan, width, height, samples, imdata, lambda, wLut[..], ln).b
  {
    ghost var zs := Sampled(images, chan, width, height, samples);
    ghost var spec := SolverSystem(images, chan, width, height, samples, imdata, lambda, wLut[..], ln);
    assert spec == System(zs, |samples|, Times(imdata), lambda, wLut[..], ln);
    var k := |images| * |samples|;
    // fix the curve at the middle sample value
    NormalizationRow(zs, |samples|, Times(imdata), lambda, wLut[..], ln);
    BlankAt(a0, b0, spec, k);
    FillRow(a0, b0, spec, k);
    a, b := a0, b0;
    a := a[k := a[k][128 := 1.0]];
    assert b == b0[k := spec.b[k]];
    k := k + 1;
    for i := 0 to NumValues - 1
      invariant k == |images| * |samples| + 1 + i
      invariant FilledUpTo(a, b, spec, k)
    {
      a, b := PutSmoothingRow(images, chan, width, height, samples, imdata, lambda, wLut, ln, i, a, b);
      k := k + 1;
    }
    LastRowUnwritten(zs, |samples|, Times(imdata), lambda, wLut[..], ln);
    BlankAt(a, b, spec, k);
    assert a == spec.a by {
      assert a == a[..k] + [a[k]];
      assert spec.a == spec.a[..k] + [spec.a[k]];
    }
    assert b == spec.b by {
      assert b == b[..k] + [b[k]];
      assert spec.b == spec.b[..k] + [spec.b[k]];
    }
  }

  /** Assembles A and b: the data rows, the normalisation row and the smoothing rows. */
  method AssembleSystem(images: seq<Image>, chan: nat, width: nat, height: nat, samples: seq<SamplePos>,
                        imdata: seq<ImageExposurePair>, lambda: real, wLut: array<real>, ln: real -> real)
    returns (sys: LinearSystem)
    requires StackFits(images, chan, width, height) && SamplesFit(samples, width, height)
    requires |imdata| == |images| && wLut.Length == NumValues
    ensures sys == SolverSystem(images, chan, width, height, samples, imdata, lambda, wLut[..], ln)
  {
    var a, b := WriteDataRows(images, chan, width, height, samples, imdata, lambda, wLut, ln);
    a, b := WriteCurveRows(images, chan, width, height, samples, imdata, lambda, wLut, ln, a, b);
    sys := LinearSystem(|images| * |samples| + NumValues + 1, NumValues + |samples|, a, b);
  }

  // ---------------------------------------------------------------------------
  // The solver
  // ---------------------------------------------------------------------------

  /** A sample of the solved system: its position and its recovered irradiance exp(ln E_i). */
  datatype PixelResult = PixelResult(irradiance: real, x: int, y: int)

  /** The response curve read off a solution x: exp of its first 256 unknowns. */
  function CurveOf(x: seq<real>, exp: real -> real): (curve: seq<real>)
    requires |x| >= NumValues
    ensures |curve| == CurveLength
    ensures forall z :: 0 <= z < CurveLength ==> curve[z] == exp(x[z])
  {
    seq(CurveLength, (z: int) requires 0 <= z < CurveLength => exp(x[z]))
  }

  /** The samples read off a solution x: sample i has irradiance exp(x[256 + i]). */
  function PixelsOf(x: seq<real>, exp: real -> real, samples: seq<SamplePos>): (pixels: seq<PixelResult>)
    requires |x| == NumValues + |samples|
    ensures |pixels| == |samples|
    ensures forall i :: 0 <= i < |samples| ==>
      pixels[i] == PixelResult(exp(x[NumValues + i]), samples[i].x, samples[i].y)
  {
    seq(|samples|, (i: int) requires 0 <= i < |samples| =>
      PixelResult(exp(x[NumValues + i]), samples[i].x, samples[i].y))
  }

  /** The transfer loop: the curve value of every sample value, exp of its unknown. */
  method ReadCurve(x: seq<real>, exp: real -> real) returns (results: seq<real>)
    requires |x| >= NumValues
    ensures results == CurveOf(x, exp)
  {
    results := seq(CurveLength, _ => 0.0);
    for i := 0 to CurveLength
      invariant |results| == CurveLength
      invariant results[..i] == CurveOf(x, exp)[..i]
    {
      results := results[i := exp(x[i])];
    }
    assert results == results[..CurveLength];
  }

  /** The extraction loop: one result per sample, appended in sample order. */
  method ReadPixels(x: seq<real>, exp: real -> real, samples: seq<SamplePos>) returns (pixels: seq<PixelResult>)
    requires |x| == NumValues + |samples|
    ensures pixels == PixelsOf(x, exp, samples)
  {
    pixels := [];
    for i := NumValues to NumValues + |samples|
      invariant pixels == PixelsOf(x, exp, samples)[..i - NumValues]
    {
      var curr := PixelResult(exp(x[i]), samples[i - NumValues].x, samples[i - NumValues].y);
      pixels := pixels + [curr];
    }
    assert pixels == PixelsOf(x, exp, samples)[..|samples|];
  }

  /**
   * Recovers the response curve of one channel of an exposure stack. The
   * images are loaded lazily by `Solve`; the solver only keeps their
   * exposure times and paths.
   */
  class CTFSolver {
    var imdata: seq<ImageExposurePair>
    var lambda: real
    var chan: nat
    var numSamples: nat
    var wFunc: WeightingFunc

    /** A stack of at least two exposures. */
    ghost predicate Valid()
      reads this
    {
      |imdata| >= 2
    }

    /** A solver for `images` using the hat weighting function. */
    constructor (images: seq<ImageExposurePair>, numSamps: nat := 1000, smoothingParam: real := 1.0,
                 channel: nat := 0)
      requires |images| >= 2
      ensures Valid()
      ensures imdata == images && numSamples == numSamps && lambda == smoothingParam && chan == channel
      ensures wFunc == HAT
    {
      imdata := images;
      lambda := smoothingParam;
      chan := channel;
      numSamples := numSamps;
      wFunc := HAT;
    }

    function GetWeightingFunc(): WeightingFunc
      reads this
    {
      wFunc
    }

    /** Selects the weighting function; nothing else changes. */
    method SetWeightingFunc(f: WeightingFunc)
      requires Valid()
      modifies this
      ensures Valid() && GetWeightingFunc() == f
      ensures imdata == old(imdata) && lambda == old(lambda) && chan == old(chan) && numSamples == old(numSamples)
    {
      wFunc := f;
    }

    function GetNumImageSamples(): nat
      reads this
    {
      numSamples
    }

    /** Sets the number of random samples; nothing else changes. */
    method SetNumImageSamples(numSamps: nat)
      requires Valid()
      modifies this
      ensures Valid() && GetNumImageSamples() == numSamps
      ensures imdata == old(imdata) && lambda == old(lambda) && chan == old(chan) && wFunc == old(wFunc)
    {
      numSamples := numSamps;
    }

    function GetSmoothingValue(): real
      reads this
    {
      lambda
    }

    /** Sets the smoothing weight λ; nothing else changes. */
    method SetSmoothingValue(lambdaVal: real)
      requires Valid()
      modifies this
      ensures Valid() && GetSmoothingValue() == lambdaVal
      ensures imdata == old(imdata) && chan == old(chan) && numSamples == old(numSamples) && wFunc == old(wFunc)
    {
      lambda := lambdaVal;
    }

    function GetChannelIndex(): nat
      reads this
    {
      chan
    }

    /** Selects the colour channel; nothing else changes. */
    method SetChannelIndex(chanIndex: nat)
      requires Valid()
      modifies this
      ensures Valid() && GetChannelIndex() == chanIndex
      ensures imdata == old(imdata) && lambda == old(lambda) && numSamples == old(numSamples) && wFunc == old(wFunc)
    {
      chan := chanIndex;
    }

    /**
     * Solves for the response curve. `images` are the decoded files of the
     * stack, in the order of `imdata`, all width by height; `draws` are the
     * generator outputs; `lsq` is the least-squares solve, which returns one
     * value per unknown. The curve is exp of the first 256 unknowns; when
     * the sample points are asked for, sample i comes back with irradiance
     * exp of unknown 256 + i.
     */
    method Solve(images: seq<Image>, width: nat, height: nat, draws: seq<nat>,
                 ln: real -> real, exp: real -> real, lsq: LinearSystem -> seq<real>, extractPoints: bool)
      returns (ctf: CTF, retPixels: Option<seq<PixelResult>>)
      requires Valid() && |images| == |imdata| && StackFits(images, chan, width, height)
      requires numSamples >= 1 && width >= 1 && height >= 1 && |draws| >= 2 * numSamples
      requires forall j :: 0 <= j < |imdata| ==> imdata[j].microseconds > 0
      requires var samples := RandomSamples(width, height, numSamples, draws);
        |lsq(SolverSystem(images, chan, width, height, samples, imdata, lambda, WeightTable(wFunc), ln))|
          == NumValues + numSamples
      ensures fresh(ctf) && ctf.Valid()
      ensures var samples := RandomSamples(width, height, numSamples, draws);
        var x := lsq(SolverSystem(images, chan, width, height, samples, imdata, lambda, WeightTable(wFunc), ln));
        && ctf.data == CurveOf(x, exp)
        && retPixels == if extractPoints then Some(PixelsOf(x, exp, samples)) else None
    {
      var wLut := MakeWeightLut(wFunc);
      var samplePositions := GenRandomSamples(width, height, numSamples, draws);
      var sys := AssembleSystem(images, chan, width, height, samplePositions, imdata, lambda, wLut, ln);
      var x := lsq(sys);
      assert sys == SolverSystem(images, chan, width, height, samplePositions, imdata, lambda, WeightTable(wFunc), ln);
      var results := ReadCurve(x, exp);
      ctf := new CTF.FromValues(results);
      if extractPoints {
        var pixels := ReadPixels(x, exp, samplePositions);
        retPixels := Some(pixels);
      } else {
        retPixels := None;
      }
    }
  }

  /** An entry at or after k of a sequence that agrees with `a0` from k on is a0's. */
  lemma Untouched<T>(a: seq<T>, a0: seq<T>, k: nat)
    requires k < |a| == |a0| && a[k..] == a0[k..]
    ensures a[k] == a0[k]
  {
    assert a[k] == a[k..][0];
  }

  /** Writing spec[k] at k extends the prefix that agrees with `spec` by one entry. */
  lemma WriteRow<T>(a: seq<T>, spec: seq<T>, a0: seq<T>, k: nat, v: T)
    requires k < |a| && |a| == |spec| == |a0|
    requires a[..k] == spec[..k] && a[k..] == a0[k..]
    requires spec[k] == v
    ensures a[k := v][..k + 1] == spec[..k + 1] && a[k := v][k + 1..] == a0[k + 1..]
  {
    assert a[k := v][..k + 1] == a[..k] + [v];
    assert spec[..k + 1] == spec[..k] + [v];
    assert a[k := v][k + 1..] == a[k..][1..];
    assert a0[k + 1..] == a0[k..][1..];
  }
}
