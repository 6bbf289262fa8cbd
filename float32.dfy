/**
 * IEEE 754 binary32 values, classified from their 32-bit pattern. The gas
 * readings travel as C `float`s; Python's `struct.unpack('f')` widens them
 * to a double exactly, so NaN, infinity, sign and value all survive, and
 * the server's comparisons on them are comparisons on these values.
 */
module Float32 {
  import opened Bytes

  const SignBit: nat := 0x8000_0000
  const FractionScale: nat := 0x80_0000  // 2^23
  const ExponentAllOnes: nat := 0xFF

  datatype Float32 =
    | NaN
    | Infinity(negative: bool)
    | Finite(negative: bool, exponent: nat, fraction: nat)

  /** Sign bit 31, biased exponent bits 30..23, fraction bits 22..0. */
  function FromBits(w: uint32): (f: Float32)
    ensures f.NaN? <==> (w / FractionScale) % 256 == ExponentAllOnes && w % FractionScale != 0
    ensures f.Infinity? <==> (w / FractionScale) % 256 == ExponentAllOnes && w % FractionScale == 0
    ensures !f.NaN? ==> f.negative == (w >= SignBit)
    ensures f.Finite? ==> f.exponent < ExponentAllOnes && f.fraction < FractionScale
    ensures f.Finite? ==> f.exponent == (w / FractionScale) % 256 && f.fraction == w % FractionScale
  {
    var exponent := (w / FractionScale) % 256;
    var fraction := w % FractionScale;
    if exponent == ExponentAllOnes then
      (if fraction == 0 then Infinity(w >= SignBit) else NaN)
    else Finite(w >= SignBit, exponent, fraction)
  }

  /** Python's `math.isnan`: a NaN is neither infinite nor below zero, as every comparison with it is false. */
  predicate IsNan(f: Float32): (b: bool)
    ensures b ==> !IsInf(f) && !LessThanZero(f)
  {
    f.NaN?
  }

  /** Python's `math.isinf`: -inf is below zero and +inf is not. */
  predicate IsInf(f: Float32): (b: bool)
    ensures b ==> f.Infinity? && (LessThanZero(f) <==> f.negative)
  {
    f.Infinity?
  }

  /** Python's `f < 0`: false for NaN and for -0.0, true for -inf. */
  predicate LessThanZero(f: Float32): (b: bool)
    ensures b ==> !f.NaN? && f.negative
    ensures f.Finite? && f.exponent == 0 && f.fraction == 0 ==> !b
  {
    match f
    case NaN => false
    case Infinity(negative) => negative
    case Finite(negative, exponent, fraction) => negative && (exponent != 0 || fraction != 0)
  }

  /**
   * A gas reading's bits that get past the NaN, infinity and sign checks: the
   * exponent is not all ones, and the sign bit is clear unless the value is
   * exactly -0.0.
   */
  predicate GasAcceptable(w: uint32)
  {
    (w / FractionScale) % 256 != ExponentAllOnes && w <= SignBit
  }

  /** `math.isnan`, `math.isinf` and `< 0` on a decoded float, stated on its bits. */
  lemma GasAcceptableIff(w: uint32)
    ensures GasAcceptable(w) <==> !IsNan(FromBits(w)) && !IsInf(FromBits(w)) && !LessThanZero(FromBits(w))
  {
    var f := FromBits(w);
    if f.Finite? && w > SignBit {
      // Below 2^32 with the sign set, zero exponent and fraction leave only -0.0.
      var q := w / FractionScale;
      assert 256 <= q < 512;
      assert q != 256 || w % FractionScale != 0;
    }
  }

  /** The number a finite value stands for: (-1)^s * significand * 2^(e - 150), with subnormals at e = 1. */
  ghost function Value(f: Float32): real
    requires f.Finite?
  {
    var significand := if f.exponent == 0 then f.fraction else FractionScale + f.fraction;
    var shift := if f.exponent == 0 then 0 else f.exponent - 1;
    var magnitude := (significand * Pow2(shift)) as real / Pow2(149) as real;
    if f.negative then -magnitude else magnitude
  }

  /** `LessThanZero` agrees with the ordering of the real numbers on finite values. */
  lemma LessThanZeroIsBelowZero(f: Float32)
    requires f.Finite?
    ensures LessThanZero(f) <==> Value(f) < 0.0
  {
    var significand := if f.exponent == 0 then f.fraction else FractionScale + f.fraction;
    var shift := if f.exponent == 0 then 0 else f.exponent - 1;
    assert significand == 0 <==> (f.exponent == 0 && f.fraction == 0);
    ScaledQuotientSign(significand, Pow2(shift), Pow2(149));
  }

  /** n * m / d, for positive m and d, is never negative and is zero exactly when n is. */
  lemma ScaledQuotientSign(n: nat, m: nat, d: nat)
    requires m >= 1 && d >= 1
    ensures var q := (n * m) as real / d as real; q >= 0.0 && (q == 0.0 <==> n == 0)
  {
    if n != 0 {
      assert n * m >= m;
    }
  }
}
