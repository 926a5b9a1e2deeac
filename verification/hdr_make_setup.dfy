/**
 * The two pieces of the fusion program's set-up that decide what is fused:
 * the valid sample range, narrowed by the toe and shoulder options, and the
 * list of pixels to fuse, taken from a matte image or else every pixel.
 * Option parsing and image decoding are outside the model: options arrive
 * as already-converted integers, and a matte as a decoded image or as a
 * file that could not be read.
 */
module HdrMakeSetup {
  import opened Wrappers
  import opened Images
  import opened HdrMake

  // ---------------------------------------------------------------------------
  // The valid sample range
  // ---------------------------------------------------------------------------

  /** Exit status for a toe or shoulder size outside [0, 255]. */
  const BadSizeStatus := 5

  /** A command-line option, as far as the valid sample range is concerned. */
  datatype RangeOption =
    | ToeSize(toe: int)           // --toe_size n
    | ShoulderSize(shoulder: int) // --shoulder_size n
    | OtherOption                 // any option that leaves the range alone

  /** A size the program accepts: 0 through 255. */
  predicate SizeInRange(n: int)
  {
    0 <= n <= 255
  }

  /** The option carries a toe or shoulder size outside [0, 255]. */
  predicate Rejected(opt: RangeOption)
  {
    match opt
    case ToeSize(n) => !SizeInRange(n)
    case ShoulderSize(n) => !SizeInRange(n)
    case OtherOption => false
  }

  /**
   * The range (validPixBegin, validPixEnd) after the first n options: it
   * starts at (0, 255); each toe size raises the start, each shoulder size
   * lowers the end; the first out-of-range size stops with status 5.
   */
  function RangeAfter(opts: seq<RangeOption>, n: nat): Result<(int, int)>
    requires n <= |opts|
  {
    if n == 0 then Ok((0, 255))
    else
      match RangeAfter(opts, n - 1)
      case Err(status) => Err(status)
      case Ok(range) =>
        match opts[n - 1]
        case ToeSize(t) => if SizeInRange(t) then Ok((range.0 + t, range.1)) else Err(BadSizeStatus)
        case ShoulderSize(s) => if SizeInRange(s) then Ok((range.0, range.1 - s)) else Err(BadSizeStatus)
        case OtherOption => Ok(range)
  }

  /** The sum of the toe sizes among the first n options. */
  function ToeTotal(opts: seq<RangeOption>, n: nat): int
    requires n <= |opts|
  {
    if n == 0 then 0
    else ToeTotal(opts, n - 1) + (if opts[n - 1].ToeSize? then opts[n - 1].toe else 0)
  }

  /** The sum of the shoulder sizes among the first n options. */
  function ShoulderTotal(opts: seq<RangeOption>, n: nat): int
    requires n <= |opts|
  {
    if n == 0 then 0
    else ShoulderTotal(opts, n - 1) + (if opts[n - 1].ShoulderSize? then opts[n - 1].shoulder else 0)
  }

  /**
   * Parsing the range fails, with status 5, exactly when some option
   * carries an out-of-range size; otherwise the start is the sum of the toe
   * sizes and the end is 255 less the sum of the shoulder sizes.
   */
  lemma {:induction false} RangeIsSums(opts: seq<RangeOption>, n: nat)
    requires n <= |opts|
    ensures RangeAfter(opts, n).Err? <==> exists i :: 0 <= i < n && Rejected(opts[i])
    ensures RangeAfter(opts, n).Err? ==> RangeAfter(opts, n).status == BadSizeStatus
    ensures RangeAfter(opts, n).Ok? ==>
      RangeAfter(opts, n).value == (ToeTotal(opts, n), 255 - ShoulderTotal(opts, n))
  {
    if n > 0 {
      RangeIsSums(opts, n - 1);
      if RangeAfter(opts, n - 1).Ok? && Rejected(opts[n - 1]) {
        assert RangeAfter(opts, n).Err?;
      }
    }
  }

  /** Accepted sizes only raise the start and lower the end. */
  lemma {:induction false} TotalsNonNegative(opts: seq<RangeOption>, n: nat)
    requires n <= |opts| && RangeAfter(opts, n).Ok?
    ensures ToeTotal(opts, n) >= 0 && ShoulderTotal(opts, n) >= 0
  {
    if n > 0 {
      TotalsNonNegative(opts, n - 1);
    }
  }

  /**
   * A parsed range that passes the check validPixBegin < validPixEnd made
   * before fusion is a pair of sample values, the form the fusion takes.
   */
  lemma AcceptedRangeIsBytes(opts: seq<RangeOption>)
    requires RangeAfter(opts, |opts|).Ok?
    ensures var (b, e) := RangeAfter(opts, |opts|).value;
      0 <= b && e <= 255 && (b < e ==> 0 <= b < e <= 255)
  {
    RangeIsSums(opts, |opts|);
    TotalsNonNegative(opts, |opts|);
  }

  /** Reads the toe and shoulder options in order, narrowing (0, 255). */
  method ParseValidRange(opts: seq<RangeOption>) returns (r: Result<(int, int)>)
    ensures r == RangeAfter(opts, |opts|)
  {
    var validPixBegin, validPixEnd := 0, 255;
    for index := 0 to |opts|
      invariant RangeAfter(opts, index) == Ok((validPixBegin, validPixEnd))
    {
      match opts[index]
      case ToeSize(t) =>
        if t < 0 || t > 255 {
          RejectionIsFinal(opts, index + 1, |opts|);
          return Err(BadSizeStatus);
        }
        validPixBegin := validPixBegin + t;
      case ShoulderSize(s) =>
        if s < 0 || s > 255 {
          RejectionIsFinal(opts, index + 1, |opts|);
          return Err(BadSizeStatus);
        }
        validPixEnd := validPixEnd - s;
      case OtherOption =>
    }
    return Ok((validPixBegin, validPixEnd));
  }

  /** Once parsing has failed, later options do not change the outcome. */
  lemma {:induction false} RejectionIsFinal(opts: seq<RangeOption>, n: nat, m: nat)
    requires n <= m <= |opts| && RangeAfter(opts, n).Err?
    ensures RangeAfter(opts, m) == RangeAfter(opts, n)
    decreases m - n
  {
    if n < m {
      RejectionIsFinal(opts, n, m - 1);
    }
  }

  // ---------------------------------------------------------------------------
  // The pixels to fuse
  // ---------------------------------------------------------------------------

  /** Exit status for a matte that is not a width-by-height, three-channel image. */
  const BadMatteStatus := 9
  /** Exit status for a matte that cannot be loaded. */
  const UnreadableMatteStatus := 10
  /** Exit status for an empty pixel list. */
  const NoPixelsStatus := 11

  /** A matte file: either decoded, with its own dimensions and channels, or not loadable. */
  datatype MatteFile =
    | Unreadable
    | Decoded(width: nat, height: nat, channels: Image)

  /** A decoded matte's channels have the dimensions it reports. */
  ghost predicate WellFormed(matte: MatteFile)
  {
    matte.Decoded? ==> HasSize(matte.channels, matte.width, matte.height)
  }

  /** Every channel of the three-channel image `im` is 255 at `p`. */
  predicate White(im: Image, p: PixelCoord)
  {
    && |im| == 3
    && HasPixel(im[0], p) && HasPixel(im[1], p) && HasPixel(im[2], p)
    && im[0][p.x][p.y] == 255 && im[1][p.x][p.y] == 255 && im[2][p.x][p.y] == 255
  }

  /** Pixel p is listed: it is white in the matte, or there is no matte. */
  predicate Keep(matte: Option<Image>, p: PixelCoord)
  {
    matte.None? || White(matte.value, p)
  }

  /** The kept pixels (x, 0), …, (x, y − 1), in order. */
  function Column(matte: Option<Image>, x: nat, y: nat): seq<PixelCoord>
  {
    if y == 0 then []
    else Column(matte, x, y - 1) + (if Keep(matte, PixelCoord(x, y - 1)) then [PixelCoord(x, y - 1)] else [])
  }

  /** The kept pixels of columns 0, …, x − 1, column by column. */
  function Columns(matte: Option<Image>, height: nat, x: nat): seq<PixelCoord>
  {
    if x == 0 then [] else Columns(matte, height, x - 1) + Column(matte, x - 1, height)
  }

  /** p comes before q in x-major order. */
  predicate Before(p: PixelCoord, q: PixelCoord)
  {
    p.x < q.x || (p.x == q.x && p.y < q.y)
  }

  /** The pixels of `ps` are in strictly increasing x-major order. */
  ghost predicate XMajor(ps: seq<PixelCoord>)
  {
    forall i, j :: 0 <= i < j < |ps| ==> Before(ps[i], ps[j])
  }

  /** Column x up to y holds exactly the kept pixels (x, 0..y−1), in increasing y. */
  lemma {:induction false} ColumnIsKept(matte: Option<Image>, x: nat, y: nat)
    ensures forall p :: p in Column(matte, x, y) <==> p.x == x && 0 <= p.y < y && Keep(matte, p)
    ensures XMajor(Column(matte, x, y))
  {
    if y > 0 {
      ColumnIsKept(matte, x, y - 1);
      var before := Column(matte, x, y - 1);
      var col := Column(matte, x, y);
      forall i, j | 0 <= i < j < |col|
        ensures Before(col[i], col[j])
      {
        if j < |before| {
          assert col[i] == before[i] && col[j] == before[j];
        } else {
          assert col[i] == before[i] && col[i] in before;
        }
      }
    }
  }

  /**
   * The scan of the first x columns holds exactly the kept in-bounds pixels
   * of those columns, each once, in x-major order.
   */
  lemma {:induction false} ColumnsAreKept(matte: Option<Image>, height: nat, x: nat)
    ensures forall p :: p in Columns(matte, height, x) <==> InBounds(p, x, height) && Keep(matte, p)
    ensures XMajor(Columns(matte, height, x))
  {
    if x > 0 {
      ColumnsAreKept(matte, height, x - 1);
      ColumnIsKept(matte, x - 1, height);
      var before := Columns(matte, height, x - 1);
      var col := Column(matte, x - 1, height);
      var all := Columns(matte, height, x);
      assert all == before + col;
      forall i, j | 0 <= i < j < |all|
        ensures Before(all[i], all[j])
      {
        if j < |before| {
          assert all[i] == before[i] && all[j] == before[j];
        } else if i >= |before| {
          assert all[i] == col[i - |before|] && all[j] == col[j - |before|];
        } else {
          assert all[i] == before[i] && all[i] in before;
          assert all[j] == col[j - |before|] && all[j] in col;
        }
      }
    }
  }

  /** Position of (x, y) in the x-major list of every pixel of a grid of the given height. */
  function FlatIndex(x: int, y: int, height: int): int
  {
    x * height + y
  }

  /** Without a matte, column x is (x, 0), …, (x, y − 1). */
  lemma {:induction false} FullColumn(x: nat, y: nat)
    ensures |Column(None, x, y)| == y
    ensures forall b :: 0 <= b < y ==> Column(None, x, y)[b] == PixelCoord(x, b)
  {
    if y > 0 {
      FullColumn(x, y - 1);
    }
  }

  /** a·h as repeated addition, which keeps the induction below free of products. */
  function Mul(a: nat, h: nat): nat
  {
    if a == 0 then 0 else Mul(a - 1, h) + h
  }

  /** Repeated addition is the product. */
  lemma {:induction false} MulIsProduct(a: nat, h: nat)
    ensures Mul(a, h) == a * h
  {
    if a > 0 {
      MulIsProduct(a - 1, h);
      assert (a - 1) * h + h == a * h;
    }
  }

  /** Every position a·h + b of a row a < n with b < h comes before n·h. */
  lemma {:induction false} MulBelow(a: nat, b: nat, h: nat, n: nat)
    requires a < n && b < h
    ensures Mul(a, h) + b < Mul(n, h)
  {
    if a < n - 1 {
      MulBelow(a, b, h, n - 1);
    }
  }

  /** Without a matte, the first x columns hold x·height pixels, counted as a repeated sum. */
  lemma {:induction false} FullColumnsLength(height: nat, x: nat)
    ensures |Columns(None, height, x)| == Mul(x, height)
  {
    if x > 0 {
      FullColumnsLength(height, x - 1);
      FullColumn(x - 1, height);
    }
  }

  /** Without a matte, pixel (a, b) of the first x columns sits at a·height + b, counted as a repeated sum. */
  lemma {:induction false} FullColumnsPosition(height: nat, x: nat, a: nat, b: nat)
    requires a < x && b < height
    ensures Mul(a, height) + b < |Columns(None, height, x)|
    ensures Columns(None, height, x)[Mul(a, height) + b] == PixelCoord(a, b)
  {
    FullColumnsLength(height, x);
    MulBelow(a, b, height, x);
    var before := Columns(None, height, x - 1);
    FullColumnsLength(height, x - 1);
    if a < x - 1 {
      FullColumnsPosition(height, x - 1, a, b);
      MulBelow(a, b, height, x - 1);
      assert Columns(None, height, x)[Mul(a, height) + b] == before[Mul(a, height) + b];
    } else {
      FullColumn(x - 1, height);
      assert Columns(None, height, x)[Mul(a, height) + b] == Column(None, x - 1, height)[b];
    }
  }

  /**
   * Without a matte, the first x columns list all x·height pixels, and
   * pixel (a, b) sits at position a·height + b.
   */
  lemma FullColumns(height: nat, x: nat)
    ensures |Columns(None, height, x)| == x * height
    ensures forall a, b :: 0 <= a < x && 0 <= b < height ==>
      FlatIndex(a, b, height) < |Columns(None, height, x)| &&
      Columns(None, height, x)[FlatIndex(a, b, height)] == PixelCoord(a, b)
  {
    FullColumnsLength(height, x);
    MulIsProduct(x, height);
    forall a, b | 0 <= a < x && 0 <= b < height
      ensures FlatIndex(a, b, height) < |Columns(None, height, x)|
      ensures Columns(None, height, x)[FlatIndex(a, b, height)] == PixelCoord(a, b)
    {
      FullColumnsPosition(height, x, a, b);
      MulIsProduct(a, height);
    }
  }

  /**
   * The pixel list of a width-by-height fusion: without a matte, every
   * pixel; with one, the pixels white in all three channels, after checking
   * that it loaded (status 10) and that it is a width-by-height image with
   * three channels (status 9). An empty list stops with status 11.
   */
  function PixelList(matte: Option<MatteFile>, width: nat, height: nat): Result<seq<PixelCoord>>
  {
    if matte.Some? && matte.value.Unreadable? then Err(UnreadableMatteStatus)
    else if matte.Some? && (matte.value.width != width || matte.value.height != height || |matte.value.channels| != 3)
    then Err(BadMatteStatus)
    else
      var keep := if matte.Some? then Some(matte.value.channels) else None;
      var pixels := Columns(keep, height, width);
      if |pixels| < 1 then Err(NoPixelsStatus) else Ok(pixels)
  }

  /**
   * A successful pixel list holds exactly the in-bounds pixels the matte
   * keeps (all of them without a matte), each once, in x-major order.
   */
  lemma PixelListIsKept(matte: Option<MatteFile>, width: nat, height: nat)
    requires PixelList(matte, width, height).Ok?
    ensures var pixels := PixelList(matte, width, height).value;
      && |pixels| >= 1
      && XMajor(pixels)
      && AllInBounds(pixels, width, height)
      && forall p :: p in pixels <==>
           InBounds(p, width, height) && (matte.None? || White(matte.value.channels, p))
  {
    var keep := if matte.Some? then Some(matte.value.channels) else None;
    ColumnsAreKept(keep, height, width);
    var pixels := PixelList(matte, width, height).value;
    forall i | 0 <= i < |pixels|
      ensures InBounds(pixels[i], width, height)
    {
      assert pixels[i] in pixels;
    }
  }

  /**
   * Each exit status names its cause: 10 an unloadable matte, 9 a matte of
   * the wrong size or channel count, 11 a matte with no white in-bounds
   * pixel (or an empty image).
   */
  lemma PixelListErrors(matte: Option<MatteFile>, width: nat, height: nat)
    ensures PixelList(matte, width, height) == Err(UnreadableMatteStatus) <==> matte.Some? && matte.value.Unreadable?
    ensures PixelList(matte, width, height) == Err(BadMatteStatus) <==>
      matte.Some? && matte.value.Decoded? &&
      (matte.value.width != width || matte.value.height != height || |matte.value.channels| != 3)
    ensures PixelList(matte, width, height) == Err(NoPixelsStatus) <==>
      (matte.Some? ==> matte.value.Decoded? && matte.value.width == width && matte.value.height == height
                       && |matte.value.channels| == 3) &&
      forall p :: InBounds(p, width, height) ==> !(matte.None? || White(matte.value.channels, p))
  {
    if matte.None? || matte.value.Decoded? {
      var keep := if matte.Some? then Some(matte.value.channels) else None;
      ColumnsAreKept(keep, height, width);
      var pixels := Columns(keep, height, width);
      if |pixels| >= 1 {
        assert pixels[0] in pixels;
      }
    }
  }

  /**
   * Without a matte, the list holds all width·height pixels, (x, y) at
   * position x·height + y, and it is an error only for an empty image.
   */
  lemma NoMatteListsEveryPixel(width: nat, height: nat)
    ensures PixelList(None, width, height).Err? <==> width * height == 0
    ensures PixelList(None, width, height).Ok? ==>
      var pixels := PixelList(None, width, height).value;
      && |pixels| == width * height
      && forall x, y :: 0 <= x < width && 0 <= y < height ==>
           FlatIndex(x, y, height) < |pixels| && pixels[FlatIndex(x, y, height)] == PixelCoord(x, y)
  {
    FullColumns(height, width);
  }

  /** Builds the list of pixels to fuse, scanning x-major. */
  method PixelsToConsider(matte: Option<MatteFile>, width: nat, height: nat) returns (r: Result<seq<PixelCoord>>)
    requires matte.Some? ==> WellFormed(matte.value)
    ensures r == PixelList(matte, width, height)
  {
    var keep: Option<Image> := None;
    if matte.Some? {
      if matte.value.Unreadable? {
        return Err(UnreadableMatteStatus);
      }
      var m := matte.value;
      if m.width != width || m.height != height || |m.channels| != 3 {
        return Err(BadMatteStatus);
      }
      keep := Some(m.channels);
    }
    var pixelsToConsider: seq<PixelCoord> := [];
    for x := 0 to width
      invariant pixelsToConsider == Columns(keep, height, x)
    {
      for y := 0 to height
        invariant pixelsToConsider == Columns(keep, height, x) + Column(keep, x, y)
      {
        if keep.None? || White(keep.value, PixelCoord(x, y)) {
          pixelsToConsider := pixelsToConsider + [PixelCoord(x, y)];
        }
      }
    }
    if |pixelsToConsider| < 1 {
      return Err(NoPixelsStatus);
    }
    return Ok(pixelsToConsider);
  }
}
