/**
 * The camera transfer function (CTF): a 256-entry table from an 8-bit sample
 * value to a response value, with its constructors, its lookup, its text
 * export and its loader.
 */
module Ctf {
  import opened Images

  /** Number of entries in every curve. */
  const CurveLength := 256

  /**
   * A curve file as the loader sees it. `Unopenable` is a file the stream
   * cannot open. Otherwise `lines[i]` is the number `strtod` parses from line
   * i of the file (0.0 for a line that does not parse), and `endsWithNewline`
   * says whether the last line is terminated by a newline.
   */
  datatype CurveFile = Unopenable | Opened(lines: seq<real>, endsWithNewline: bool)

  /**
   * The input stream after some `std::getline` calls: how many lines it has
   * consumed, the value parsed from the string the last call left behind,
   * and its end-of-file and failure flags.
   */
  datatype LineStream = LineStream(pos: nat, text: real, eof: bool, fail: bool)

  /** A freshly opened stream, with the loader's string still empty. */
  function OpenStream(): (s: LineStream)
    ensures s.pos == 0 && s.text == 0.0 && !s.eof && !s.fail
  {
    LineStream(0, 0.0, false, false)
  }

  /**
   * One `std::getline` on a stream over `lines`. A stream already at end of
   * file or failed only sets its failure flag and leaves the string as it
   * was. Otherwise the next line is read, and reaching the end of an
   * unterminated last line sets the end-of-file flag; with no line left,
   * nothing is extracted, the string is emptied and both flags are set.
   */
  function GetLine(lines: seq<real>, endsWithNewline: bool, s: LineStream): (t: LineStream)
    ensures t.fail ==> t.eof || s.eof || s.fail
    ensures !s.eof && !s.fail && s.pos < |lines| ==> t.pos == s.pos + 1 && t.text == lines[s.pos]
    ensures s.eof || s.fail ==> t.text == s.text && t.fail
  {
    if s.eof || s.fail then s.(fail := true)
    else if s.pos < |lines| then LineStream(s.pos + 1, lines[s.pos], s.pos + 1 == |lines| && !endsWithNewline, false)
    else LineStream(s.pos, 0.0, true, true)
  }

  /** The stream after `n` calls of `std::getline` on a freshly opened file. */
  function Reads(lines: seq<real>, endsWithNewline: bool, n: nat): LineStream
  {
    if n == 0 then OpenStream() else GetLine(lines, endsWithNewline, Reads(lines, endsWithNewline, n - 1))
  }

  /**
   * The value parsed from the string that read number `i` (counting from 0)
   * leaves behind: line i while there is one; past the end, the last line
   * again when it is unterminated (the read fails and keeps the string),
   * and otherwise the empty string, which parses to 0.
   */
  function ReadValue(lines: seq<real>, endsWithNewline: bool, i: nat): (v: real)
    ensures i < |lines| ==> v == lines[i]
    ensures |lines| <= i && !endsWithNewline && |lines| > 0 ==> v == lines[|lines| - 1]
    ensures |lines| <= i && (endsWithNewline || |lines| == 0) ==> v == 0.0
  {
    if i < |lines| then lines[i]
    else if !endsWithNewline && |lines| > 0 then lines[|lines| - 1]
    else 0.0
  }

  /** Whether the stream is still good after the loader's 256 reads. */
  function GoodAfter(lines: seq<real>, endsWithNewline: bool): (good: bool)
    ensures good <==> CurveLength < |lines| || (|lines| == CurveLength && endsWithNewline)
  {
    CurveLength < |lines| || (|lines| == CurveLength && endsWithNewline)
  }

  /**
   * The stream after `n` reads in closed form: it has consumed
   * min(n, |lines|) lines, fails exactly once a read found no line, is at end
   * of file from the read that finishes an unterminated last line (or that
   * finds no line), and holds the value of read n - 1.
   */
  lemma {:induction false} ReadsClosedForm(lines: seq<real>, endsWithNewline: bool, n: nat)
    ensures Reads(lines, endsWithNewline, n).pos == if n < |lines| then n else |lines|
    ensures Reads(lines, endsWithNewline, n).fail <==> n > |lines|
    ensures Reads(lines, endsWithNewline, n).eof <==>
      if !endsWithNewline && |lines| > 0 then n >= |lines| else n > |lines|
    ensures n > 0 ==> Reads(lines, endsWithNewline, n).text == ReadValue(lines, endsWithNewline, n - 1)
  {
    if n > 0 {
      ReadsClosedForm(lines, endsWithNewline, n - 1);
    }
  }

  /** After the loader's 256 reads the stream is good exactly as `GoodAfter` says. */
  lemma StreamGoodAfterReads(lines: seq<real>, endsWithNewline: bool)
    ensures var s := Reads(lines, endsWithNewline, CurveLength);
      !s.eof && !s.fail <==> GoodAfter(lines, endsWithNewline)
  {
    ReadsClosedForm(lines, endsWithNewline, CurveLength);
  }

  /**
   * Read number `i` of the loader: the stream after it and the value parsed
   * from the string it leaves.
   */
  method ReadNext(file: CurveFile, stream: LineStream, ghost i: nat) returns (next: LineStream, exposure: real)
    requires file.Opened? && stream == Reads(file.lines, file.endsWithNewline, i)
    ensures next == Reads(file.lines, file.endsWithNewline, i + 1)
    ensures exposure == ParsedLine(file, i)
  {
    next := GetLine(file.lines, file.endsWithNewline, stream);
    ReadsClosedForm(file.lines, file.endsWithNewline, i + 1);
    exposure := next.text;
  }

  /** The value parsed by read `i` of an opened file. */
  function ParsedLine(file: CurveFile, i: nat): real
    requires file.Opened?
  {
    ReadValue(file.lines, file.endsWithNewline, i)
  }

  /** Index of the first of reads `i`..255 whose value is not positive, or 256 if there is none. */
  function FirstRejected(file: CurveFile, i: nat): (k: nat)
    requires file.Opened? && i <= CurveLength
    ensures i <= k <= CurveLength
    ensures forall j :: i <= j < k ==> ParsedLine(file, j) > 0.0
    ensures k < CurveLength ==> ParsedLine(file, k) <= 0.0
    decreases CurveLength - i
  {
    if i == CurveLength then CurveLength
    else if ParsedLine(file, i) <= 0.0 then i
    else FirstRejected(file, i + 1)
  }

  /**
   * What loading `file` into a curve holding `current` gives: the reported
   * success and the curve's entries afterwards. Lines are copied in order
   * until the first non-positive one; nothing already copied is restored.
   */
  function LoadOutcome(current: seq<real>, file: CurveFile): (r: (bool, seq<real>))
    requires |current| == CurveLength
    ensures |r.1| == CurveLength
    ensures file.Unopenable? ==> r == (false, current)
    ensures file.Opened? ==>
      (r.0 <==> GoodAfter(file.lines, file.endsWithNewline)
                && forall i :: 0 <= i < CurveLength ==> ParsedLine(file, i) > 0.0)
    ensures r.0 ==> forall i :: 0 <= i < CurveLength ==> r.1[i] == ParsedLine(file, i) > 0.0
    ensures file.Opened? ==> forall i :: 0 <= i < CurveLength ==>
      r.1[i] == if i < FirstRejected(file, 0) then ParsedLine(file, i) else current[i]
  {
    match file
    case Unopenable => (false, current)
    case Opened(lines, endsWithNewline) =>
      var k := FirstRejected(file, 0);
      (k == CurveLength && GoodAfter(lines, endsWithNewline), LoadedEntries(current, file, k))
  }

  /** The entries after the first `k` reads have been copied over `current`. */
  function LoadedEntries(current: seq<real>, file: CurveFile, k: nat): (r: seq<real>)
    requires |current| == CurveLength && file.Opened?
    ensures |r| == CurveLength
    ensures forall i :: 0 <= i < CurveLength ==> r[i] == if i < k then ParsedLine(file, i) else current[i]
  {
    seq(CurveLength, (i: int) requires 0 <= i < CurveLength =>
      if i < k then ParsedLine(file, i) else current[i])
  }

  /** `data` holds the first `i` values read from `file` and `before`'s entries from `i` on. */
  ghost predicate CopiedUpTo(data: seq<real>, before: seq<real>, file: CurveFile, i: nat)
    requires file.Opened?
  {
    && |data| == CurveLength && |before| == CurveLength
    && forall j :: 0 <= j < CurveLength ==> data[j] == if j < i then ParsedLine(file, j) else before[j]
  }

  /** Copying read `i` into entry `i` extends the copied prefix by one. */
  lemma CopyStep(data: seq<real>, before: seq<real>, file: CurveFile, i: nat)
    requires file.Opened? && i < CurveLength && CopiedUpTo(data, before, file, i)
    ensures CopiedUpTo(data[i := ParsedLine(file, i)], before, file, i + 1)
  {
  }

  /** A load that stops at the first rejected read (or after all 256) ends as `LoadOutcome` says. */
  lemma OutcomeOfCopy(data: seq<real>, before: seq<real>, file: CurveFile, i: nat)
    requires file.Opened? && i <= CurveLength && CopiedUpTo(data, before, file, i)
    requires i == CurveLength || ParsedLine(file, i) <= 0.0
    requires i <= FirstRejected(file, 0)
    ensures LoadOutcome(before, file) == (i == CurveLength && GoodAfter(file.lines, file.endsWithNewline), data)
  {
    StopsAtFirstRejected(file, i);
    assert data == LoadedEntries(before, file, i);
  }

  /** A read at or before the first rejected one that is itself rejected (or the end) is the first. */
  lemma StopsAtFirstRejected(file: CurveFile, i: nat)
    requires file.Opened? && i <= CurveLength
    requires i == CurveLength || ParsedLine(file, i) <= 0.0
    requires i <= FirstRejected(file, 0)
    ensures FirstRejected(file, 0) == i
  {
  }

  /** 256 values evenly spaced from `minValue` at index 0 to `maxValue` at index 255. */
  function LinearCurve(maxValue: real, minValue: real): (c: seq<real>)
    requires minValue < maxValue
    ensures |c| == CurveLength
    ensures c[0] == minValue && c[CurveLength - 1] == maxValue
    ensures forall i :: 0 <= i < CurveLength - 1 ==> c[i + 1] - c[i] == (maxValue - minValue) / 255.0
  {
    var step := (maxValue - minValue) / 255.0;
    seq(CurveLength, (i: int) => minValue + i as real * step)
  }

  /** A linear curve is strictly increasing. */
  lemma {:induction false} LinearCurveIncreasing(maxValue: real, minValue: real, i: int, j: int)
    requires minValue < maxValue
    requires 0 <= i < j < CurveLength
    ensures LinearCurve(maxValue, minValue)[i] < LinearCurve(maxValue, minValue)[j]
    decreases j - i
  {
    var c := LinearCurve(maxValue, minValue);
    if i + 1 < j {
      LinearCurveIncreasing(maxValue, minValue, i, j - 1);
    }
    assert c[j] - c[j - 1] == (maxValue - minValue) / 255.0;
  }

  class CTF {
    /** The 256 response values, indexed by sample value. */
    var data: seq<real>

    ghost predicate Valid()
      reads this
    {
      |data| == CurveLength
    }

    /** The default curve: 256 entries, each 0 because the step 0.0/256.0 is 0. */
    constructor ()
      ensures Valid()
      ensures forall i :: 0 <= i < CurveLength ==> data[i] == 0.0
    {
      var values: seq<real> := [];
      var v := 0.0;
      var step := 0.0 / 256.0;
      for i := 0 to CurveLength
        invariant |values| == i
        invariant v == i as real * step
        invariant forall j :: 0 <= j < i ==> values[j] == j as real * step
      {
        values := values + [v];
        v := v + step;
      }
      data := values;
    }

    /** A curve holding exactly `values`. */
    constructor FromValues(values: seq<real>)
      requires |values| == CurveLength
      ensures Valid() && data == values
    {
      data := values;
    }

    /** The response value for a sample value: defined for every 8-bit value. */
    function Eval(pixelVal: byte): (r: real)
      reads this
      requires Valid()
      ensures r == data[pixelVal]
    {
      data[pixelVal]
    }

    /** The values the curve writes to a stream: one per entry, in index order. */
    method Write() returns (lines: seq<real>)
      requires Valid()
      ensures |lines| == |data| && forall i :: 0 <= i < |lines| ==> lines[i] == data[i]
    {
      lines := [];
      for i := 0 to |data|
        invariant lines == data[..i]
      {
        lines := lines + [data[i]];
      }
    }

    /**
     * Loads `file` into `ctf` and reports success. An unopenable file leaves
     * `ctf` untouched; otherwise lines overwrite the entries in order until
     * the first non-positive value, which stops the load with failure.
     */
    static method LoadCTF(ctf: CTF, file: CurveFile) returns (ok: bool)
      requires ctf.Valid()
      modifies ctf
      ensures ctf.Valid()
      ensures (ok, ctf.data) == LoadOutcome(old(ctf.data), file)
    {
      if file.Unopenable? {
        return false;
      }
      ghost var before := ctf.data;
      var stream := OpenStream();
      var i := 0;
      while i < CurveLength
        invariant 0 <= i <= CurveLength
        invariant i <= FirstRejected(file, 0)
        invariant stream == Reads(file.lines, file.endsWithNewline, i)
        invariant CopiedUpTo(ctf.data, before, file, i)
      {
        var exposure;
        stream, exposure := ReadNext(file, stream, i);
        if exposure <= 0.0 {
          OutcomeOfCopy(ctf.data, before, file, i);
          return false;
        }
        CopyStep(ctf.data, before, file, i);
        ctf.data := ctf.data[i := exposure];
        i := i + 1;
      }
      OutcomeOfCopy(ctf.data, before, file, i);
      StreamGoodAfterReads(file.lines, file.endsWithNewline);
      ok := !stream.eof && !stream.fail;
    }

    /** A curve rising linearly from `minValue` at sample 0 to `maxValue` at sample 255. */
    static method MakeLinearCTF(maxValue: real, minValue: real := 0.0) returns (ctf: CTF)
      requires minValue < maxValue
      ensures ctf.Valid() && ctf.data == LinearCurve(maxValue, minValue)
    {
      ctf := new CTF();
      ghost var curve := LinearCurve(maxValue, minValue);
      var step := (maxValue - minValue) / 255.0;
      var val := minValue;
      for pix := 0 to CurveLength
        invariant |ctf.data| == CurveLength
        invariant pix < CurveLength ==> val == curve[pix]
        invariant forall j :: 0 <= j < pix ==> ctf.data[j] == curve[j]
      {
        ctf.data := ctf.data[pix := val];
        val := val + step;
      }
    }
  }

  /**
   * Round trip: a curve whose entries are all positive, written one value per
   * newline-terminated line, loads as itself. This holds of the printed
   * values as the model sees them; the program prints floats with six
   * significant digits, so there the round trip is only approximate.
   */
  lemma LoadAfterWrite(current: seq<real>, written: seq<real>)
    requires |current| == CurveLength && |written| == CurveLength
    requires forall i :: 0 <= i < CurveLength ==> written[i] > 0.0
    ensures LoadOutcome(current, Opened(written, true)) == (true, written)
  {
    var r := LoadOutcome(current, Opened(written, true));
    assert r.1 == written;
  }

  /** A written curve with a non-positive entry (the default curve, say) never loads back. */
  lemma LoadRejectsZeroEntry(current: seq<real>, written: seq<real>, endsWithNewline: bool)
    requires |current| == CurveLength && |written| == CurveLength
    requires exists i :: 0 <= i < CurveLength && written[i] <= 0.0
    ensures !LoadOutcome(current, Opened(written, endsWithNewline)).0
  {
    var i :| 0 <= i < CurveLength && written[i] <= 0.0;
    assert ParsedLine(Opened(written, endsWithNewline), i) <= 0.0;
  }

  /**
   * A file of fewer than 256 positive lines never loads. When its last line
   * has no newline, that line is read again and fills every remaining entry;
   * otherwise the next read yields an empty string, and the remaining entries
   * keep their old values.
   */
  lemma ShortFileFails(current: seq<real>, file: CurveFile)
    requires |current| == CurveLength && file.Opened? && |file.lines| < CurveLength
    requires forall i :: 0 <= i < |file.lines| ==> file.lines[i] > 0.0
    ensures !LoadOutcome(current, file).0
    ensures forall i :: 0 <= i < |file.lines| ==> LoadOutcome(current, file).1[i] == file.lines[i]
    ensures !file.endsWithNewline && |file.lines| > 0 ==>
      forall i :: |file.lines| <= i < CurveLength ==>
        LoadOutcome(current, file).1[i] == file.lines[|file.lines| - 1]
    ensures file.endsWithNewline || |file.lines| == 0 ==>
      forall i :: |file.lines| <= i < CurveLength ==> LoadOutcome(current, file).1[i] == current[i]
  {
    var n := |file.lines|;
    var k := FirstRejected(file, 0);
    if !file.endsWithNewline && n > 0 {
      assert forall i :: 0 <= i < CurveLength ==> ParsedLine(file, i) > 0.0;
      assert k == CurveLength;
    } else {
      assert ParsedLine(file, n) == 0.0;
      assert k == n;
    }
  }
}
