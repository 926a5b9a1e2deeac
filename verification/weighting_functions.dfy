/**
 * The triangular ("hat") weighting of an 8-bit sample value and its
 * 256-entry lookup table. With the default bounds 0 and 255 it is the
 * weighting function of Debevec and Malik (1997).
 */
module WeightingFunctions {
  import opened Images

  /** Number of distinct 8-bit sample values, the length of every table. */
  const NumValues := 256

  /**
   * The hat weight of `value` on the range [lower, upper]: zero at and
   * beyond both bounds, rising with slope 1 from `lower` up to the midpoint
   * and falling with slope 1 down to `upper`.
   */
  function Hat(value: byte, lower: byte := 0, upper: byte := 255): (r: real)
    requires lower < upper
    ensures 0.0 <= r <= (upper - lower) as real / 2.0
    ensures r > 0.0 <==> lower < value < upper
    ensures value <= lower || value >= upper ==> r == 0.0
  {
    var z, zMin, zMax := value as real, lower as real, upper as real;
    if z <= zMin || z >= zMax then 0.0
    else if z <= (zMin + zMax) / 2.0 then z - zMin
    else zMax - z
  }

  /** Strictly inside the range, the weight is the distance to the nearer bound. */
  lemma HatIsDistanceToNearerBound(value: byte, lower: byte, upper: byte)
    requires lower < value < upper
    ensures 2 * value <= lower + upper ==> Hat(value, lower, upper) == (value - lower) as real
    ensures 2 * value > lower + upper ==> Hat(value, lower, upper) == (upper - value) as real
    ensures Hat(value, lower, upper) == (if value - lower <= upper - value then value - lower else upper - value) as real
  {
  }

  /** The hat is symmetric about the midpoint of its range. */
  lemma HatSymmetric(lower: byte, upper: byte, d: int)
    requires lower < upper
    requires 0 <= d <= upper - lower
    ensures Hat(lower + d, lower, upper) == Hat(upper - d, lower, upper)
  {
  }

  /** No sample value weighs more than the (rounded-down) midpoint of the range. */
  lemma HatMaximalAtMidpoint(value: byte, lower: byte, upper: byte)
    requires lower < upper
    ensures Hat(value, lower, upper) <= Hat((lower + upper) / 2, lower, upper)
  {
    var m := (lower + upper) / 2;
    assert 2 * m == lower + upper || 2 * m + 1 == lower + upper;
    var top := Hat(m, lower, upper);
    if m == lower {
      // the range is [m, m + 1]: every value weighs nothing
      assert upper == lower + 1;
    } else {
      assert top == (m - lower) as real;
      if lower < value < upper {
        HatIsDistanceToNearerBound(value, lower, upper);
      }
    }
  }

  /** With the default bounds both extreme sample values weigh nothing. */
  lemma DefaultHatIsDebevecMalik()
    ensures Hat(0) == 0.0 && Hat(255) == 0.0
    ensures Hat(127) == 127.0 && Hat(128) == 127.0
    ensures forall v: byte :: Hat(v) <= 127.0
  {
  }

  /** The hat sampled at every 8-bit value: the table `makeLUTHat` fills. */
  function HatTable(lower: byte, upper: byte): (t: seq<real>)
    requires lower < upper
    ensures |t| == NumValues
    ensures forall i :: 0 <= i < NumValues ==> t[i] >= 0.0
    ensures forall i :: 0 <= i < NumValues && (i <= lower || i >= upper) ==> t[i] == 0.0
    ensures forall i :: 0 <= i < NumValues ==> (t[i] > 0.0 <==> lower < i < upper)
  {
    seq(NumValues, (i: int) requires 0 <= i < NumValues => Hat(i, lower, upper))
  }

  /**
   * Fills the first 256 entries of `lut` with the hat weights of every
   * 8-bit value; the rest of the buffer is left as it was.
   */
  method MakeLUTHat(lut: array<real>, lower: byte := 0, upper: byte := 255)
    requires lut.Length >= NumValues
    requires lower < upper
    modifies lut
    ensures lut[..NumValues] == HatTable(lower, upper)
    ensures forall i :: NumValues <= i < lut.Length ==> lut[i] == old(lut[i])
  {
    for pixVal := 0 to NumValues
      invariant forall i :: 0 <= i < pixVal ==> lut[i] == Hat(i, lower, upper)
      invariant forall i :: NumValues <= i < lut.Length ==> lut[i] == old(lut[i])
    {
      lut[pixVal] := Hat(pixVal, lower, upper);
    }
  }
}
