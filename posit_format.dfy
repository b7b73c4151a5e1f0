/**
 * The posit format of the Standard for Posit Arithmetic (2022), section 3,
 * with the exponent width es kept as a parameter, and the configuration of
 * the generated operators.
 *
 * An n-bit posit is a sign bit followed by n-1 bits which, for a positive
 * posit, hold the regime (a run of identical bits ended by the opposite
 * bit or by the end of the word), es exponent bits and the fraction, all
 * cut off at the end of the word.  A negative posit is the two's complement
 * of the positive one.  All zeros is zero; a one followed by zeros is NaR.
 */
module PositFormat {
  import opened Bits

  /**
   * N and es, with the two widths the operators compute with `intlog2`:
   * zcWidth, the width of the leading-zero count over N-1 bits, and
   * regSize (sizeRegime / RegSize), the width of the regime signals.
   */
  datatype Config = Config(n: nat, es: nat, zcWidth: nat, regSize: nat)
  {
    /**
     * The fields of the decoder are well formed (N >= es + 3), the count
     * of up to N-1 leading zeros fits its width, and `'0' & zc_sub` has the
     * width of `Reg`.
     */
    predicate Valid()
    {
      n >= es + 3 && n - 1 < Pow2(zcWidth) && regSize == zcWidth + 1
    }

    /**
     * With intlog2 the bit length, intlog2(N) == intlog2(N-1) + 1 holds
     * exactly when N is a power of two; these are the configurations for
     * which the widths above are the ones the operators declare.
     */
    predicate PowerOfTwo()
    {
      n == Pow2(zcWidth)
    }

    /** sizeFraction / FracSize: the fraction with its hidden bit. */
    function FracSize(): nat
      requires Valid()
    {
      n - es - 2
    }
  }

  /** The NaR pattern: a one followed by n-1 zeros. */
  function NaR(c: Config): nat
    requires c.Valid()
  {
    Pow2(c.n - 1)
  }

  /** The widths a valid configuration guarantees, for proofs that keep `Valid` folded. */
  lemma ValidWidths(c: Config)
    requires c.Valid()
    ensures c.n >= c.es + 3 && c.n - 1 < Pow2(c.zcWidth) && c.regSize == c.zcWidth + 1
  {
  }

  /** The regime bits for regime value k: k+1 ones and a zero, or -k zeros and a one. */
  function RegimeString(k: int): (s: seq<bool>)
    ensures |s| == (if k >= 0 then k + 2 else 1 - k)
  {
    if k >= 0 then Repeat(true, k + 1) + [false] else Repeat(false, -k) + [true]
  }

  /**
   * The n-1 bits that follow the sign bit of the positive posit with
   * regime k, exponent e and fraction bits f (the fraction without its
   * hidden bit), as a number.
   */
  function Magnitude(c: Config, k: int, e: nat, f: nat): (m: nat)
    requires c.Valid() && e < Pow2(c.es) && f < Pow2(c.n - c.es - 3)
    ensures m < Pow2(c.n - 1)
  {
    var s := RegimeString(k) + BitsOf(e, c.es) + BitsOf(f, c.n - c.es - 3);
    FromBits(s[..c.n - 1])
  }

  /** The magnitude is the concatenated fields with the bits past N-1 dropped. */
  lemma MagnitudeIsPrefix(c: Config, k: int, e: nat, f: nat)
    requires c.Valid() && e < Pow2(c.es) && f < Pow2(c.n - c.es - 3)
    ensures var rs := RegimeString(k);
            |rs| >= 2 &&
            Magnitude(c, k, e, f)
            == FromBits(rs + BitsOf(e, c.es) + BitsOf(f, c.n - c.es - 3)) / Pow2(|rs| - 2)
  {
    var s := RegimeString(k) + BitsOf(e, c.es) + BitsOf(f, c.n - c.es - 3);
    FromBitsPrefix(s, c.n - 1);
  }

  /** The n-bit posit with the given sign, regime, exponent and fraction bits. */
  function Encode(c: Config, sign: bool, k: int, e: nat, f: nat): (x: nat)
    requires c.Valid() && e < Pow2(c.es) && f < Pow2(c.n - c.es - 3)
    ensures x < Pow2(c.n)
  {
    var m := Magnitude(c, k, e, f);
    Pow2Le(c.n - 1, c.n);
    if m == 0 then (if sign then NaR(c) else 0)
    else if sign then Neg(m, c.n)
    else m
  }

  /** An encoding read case by case: zero and NaR for a zero magnitude, else the magnitude, negated for a negative sign. */
  lemma EncodeValue(c: Config, sign: bool, k: int, e: nat, f: nat)
    requires c.Valid() && e < Pow2(c.es) && f < Pow2(c.n - c.es - 3)
    ensures var m, P := Magnitude(c, k, e, f), Pow2(c.n - 1);
            Encode(c, sign, k, e, f)
            == if m == 0 then (if sign then P else 0) else if sign then (2 * P - m) % (2 * P) else m
  {
    assert Pow2(c.n) == 2 * Pow2(c.n - 1);
  }
}
