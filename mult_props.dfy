/**
 * What the multiplier's equations mean: NaR and zero absorb, the operator
 * is symmetric in its inputs, the scale sum is exact, the fraction product
 * comes out normalised, the packing lays down the posit bit string of the
 * product, and, when N is a power of two, a product of two finite nonzero
 * posits is a finite nonzero posit of the product's sign.
 */
module MultiplierProperties {
  import opened Bits
  import opened SubOperators
  import opened PositFormat
  import opened PositDecoder
  import opened DecoderProperties
  import opened PositMult

  /** A bit pattern of a finite, nonzero posit. */
  predicate Finite(c: Config, x: nat)
    requires c.Valid()
  {
    x < Pow2(c.n) && x != 0 && x != NaR(c)
  }

  // ---------------------------------------------------------------------
  // Special cases and symmetry
  // ---------------------------------------------------------------------

  /** A NaR operand gives NaR, whatever the other operand, zero included. */
  lemma MultiplyNaR(c: Config, a: nat, b: nat)
    requires c.Valid() && a < Pow2(c.n) && b < Pow2(c.n)
    requires a == NaR(c) || b == NaR(c)
    ensures Multiply(c, a, b) == NaR(c)
  {
  }

  /** A zero operand gives zero when neither operand is NaR. */
  lemma MultiplyZero(c: Config, a: nat, b: nat)
    requires c.Valid() && a < Pow2(c.n) && b < Pow2(c.n)
    requires (a == 0 || b == 0) && a != NaR(c) && b != NaR(c)
    ensures Multiply(c, a, b) == 0
  {
  }

  /** The product stage is symmetric in its two decoded operands. */
  lemma ProductStageCommutes(c: Config, dA: Decoded, dB: Decoded)
    requires c.Valid() && Fits(c, dA) && Fits(c, dB)
    ensures ProductStage(c, dA, dB) == ProductStage(c, dB, dA)
  {
    assert dA.frac * dB.frac == dB.frac * dA.frac;
  }

  /** Swapping `InputA` and `InputB` leaves every signal after the product stage, and `Output`, unchanged. */
  lemma MultiplyCommutes(c: Config, a: nat, b: nat)
    requires c.Valid() && a < Pow2(c.n) && b < Pow2(c.n)
    ensures Multiply(c, a, b) == Multiply(c, b, a)
    ensures Datapath(c, a, b) == Datapath(c, b, a)
  {
    ProductStageCommutes(c, Decode(c, a), Decode(c, b));
  }

  // ---------------------------------------------------------------------
  // The scale sum and the fraction product
  // ---------------------------------------------------------------------

  /** The scale of a decoded posit, regime * 2^es + exponent: its value is 2^Scale times its fraction. */
  function Scale(c: Config, x: nat): int
    requires c.Valid()
  {
    RegimeOf(c, x) * Pow2(c.es) + Exp(c, x)
  }

  /** Two fractions with their hidden bits set multiply to between 2^(2F-2) and 2^(2F). */
  lemma ProductRange(fa: nat, fb: nat, h: nat)
    requires h <= fa < 2 * h && h <= fb < 2 * h
    ensures h * h <= fa * fb < 4 * (h * h)
  {
    MulLe(h, fa, h);
    MulLe(h, fb, fa);
    MulStrict(fa, 2 * h, fb, 2 * h);
  }

  /**
   * A fraction product between 2^(MultSize-2) and 2^MultSize is nonzero and
   * `normFrac` is normalised: bit mult_size is '0' and bit mult_size-1 is
   * '1', with `ovf_m` telling whether the product was shifted.
   */
  lemma NormalisedProduct(c: Config, fm: nat)
    requires c.Valid() && Pow2(MultSize(c) - 2) <= fm < Pow2(MultSize(c))
    ensures fm != 0
    ensures OvfM(c, fm) <==> fm >= Pow2(MultSize(c) - 1)
    ensures NormFrac(c, fm) == fm * (if OvfM(c, fm) then 1 else 2)
    ensures Pow2(MultSize(c) - 1) <= NormFrac(c, fm) < Pow2(MultSize(c))
    ensures !Bit(NormFrac(c, fm), MultSize(c)) && Bit(NormFrac(c, fm), MultSize(c) - 1)
  {
    var ms := MultSize(c);
    var m1 := Pow2(ms - 1);
    assert Pow2(ms - 1) == 2 * Pow2(ms - 2);
    assert Pow2(ms) == 2 * m1;
    assert Pow2(ms + 1) == 2 * Pow2(ms);
    TopBit(fm, ms);
    var nf := NormFrac(c, fm);
    assert m1 <= nf < Pow2(ms);
    TopBit(nf, ms + 1);
    TopBit(nf, ms);
  }

  /**
   * For two fractions with their hidden bits set, as the decoder gives for
   * finite nonzero posits, `frac_mult` is their product and is normalised
   * as above.
   */
  lemma NormFracNormalised(c: Config, dA: Decoded, dB: Decoded)
    requires c.Valid() && Fits(c, dA) && Fits(c, dB)
    requires dA.frac >= Pow2(c.FracSize() - 1) && dB.frac >= Pow2(c.FracSize() - 1)
    ensures var p := ProductStage(c, dA, dB);
            && p.fracMult == dA.frac * dB.frac
            && Pow2(MultSize(c) - 2) <= p.fracMult < Pow2(MultSize(c))
  {
    var F := c.FracSize();
    var h := Pow2(F - 1);
    assert Pow2(F) == 2 * h;
    ProductRange(dA.frac, dB.frac, h);
    Pow2Add(F - 1, F - 1);
    assert MultSize(c) - 2 == (F - 1) + (F - 1);
    assert Pow2(MultSize(c)) == 4 * Pow2(MultSize(c) - 2) by {
      Pow2Add(2, MultSize(c) - 2);
    }
  }

  // ---------------------------------------------------------------------
  // Packing: the shifter writes the posit bit string of the product
  // ---------------------------------------------------------------------

  /** The regime the packing encodes: the shift amount for a non-negative scale, minus one more than it for a negative one. */
  function PackedRegime(sfSign: bool, s: nat): int
  {
    if sfSign then -(s as int + 1) else s
  }

  /** Regime string, es exponent bits and the mult_size-1 fraction bits below the hidden bit. */
  function UnroundedBits(c: Config, k: int, e: nat, f: nat): (u: seq<bool>)
    requires c.Valid()
    ensures |u| >= c.n
  {
    RegimeString(k) + BitsOf(e, c.es) + BitsOf(f, MultSize(c) - 1)
  }

  /** The unrounded string followed by the N - s zeros the shifter brings in. */
  function PaddedBits(c: Config, k: int, e: nat, f: nat, s: nat): seq<bool>
    requires c.Valid() && s <= c.n
  {
    UnroundedBits(c, k, e, f) + Repeat(false, c.n - s)
  }

  /**
   * With a nonzero fraction product and a shift within maxShift = N, the
   * sign-filling shift of `tmp1` (`tmp2`) writes the regime string of the
   * packed regime in front of the exponent and fraction bits.
   */
  lemma PackStageLayout(c: Config, p: ProductSignals, u: RegimeSignals)
    requires c.Valid() && u.finalRegime <= MaxRegime(c) && u.finalExp < Pow2(c.es)
    requires u.nzero && PackStage(c, p, u).shifterS <= c.n
    ensures var k := PackStage(c, p, u);
            var v := PaddedBits(c, PackedRegime(u.sfSign, k.shifterS), u.finalExp, LowFrac(c, p.normFrac), k.shifterS);
            k.shifterOut == FromBits(v) && |v| == ShiftSize(c)
  {
    hide FromBits, Repeat, BitsOf, RegimeString, Pow2, ShiftRightSigned, Tmp1, Tmp2, TmpAns, Round;
    var pk := PackStage(c, p, u);
    var s := pk.shifterS;
    var k := PackedRegime(u.sfSign, s);
    var e, f := u.finalExp, LowFrac(c, p.normFrac);
    var tail := BitsOf(e, c.es) + BitsOf(f, MultSize(c) - 1);
    var bit := !u.sfSign;
    ShifterInString(c, p, u);
    assert |tail| + 2 == PackWidth(c);
    assert pk.shifterOut == ShiftRightSigned(pk.shifterIn, s, PackWidth(c), c.n);
    ShiftRightSignedString(bit, tail, s, c.n);
    PaddedString(c, k, bit, e, f, s);
  }

  /** The shifter input is the sign-dependent pair of leading bits, then the exponent and fraction bits. */
  lemma ShifterInString(c: Config, p: ProductSignals, u: RegimeSignals)
    requires c.Valid() && u.finalRegime <= MaxRegime(c) && u.finalExp < Pow2(c.es) && u.nzero
    ensures var bit := !u.sfSign;
            PackStage(c, p, u).shifterIn
            == FromBits([bit, !bit] + (BitsOf(u.finalExp, c.es) + BitsOf(LowFrac(c, p.normFrac), MultSize(c) - 1)))
  {
    var bit := !u.sfSign;
    var e, f := u.finalExp, LowFrac(c, p.normFrac);
    assert [bit, !bit] + BitsOf(e, c.es) + BitsOf(f, MultSize(c) - 1)
        == [bit, !bit] + (BitsOf(e, c.es) + BitsOf(f, MultSize(c) - 1));
  }

  /** The padded string, as the regime run, its terminator, the fields and the zeros. */
  lemma PaddedString(c: Config, k: int, bit: bool, e: nat, f: nat, s: nat)
    requires c.Valid() && s <= c.n && k == PackedRegime(!bit, s)
    ensures var tail := BitsOf(e, c.es) + BitsOf(f, MultSize(c) - 1);
            var v := PaddedBits(c, k, e, f, s);
            FromBits(v) == FromBits(Repeat(bit, s + 1) + [!bit] + tail) * Pow2(c.n - s)
            && |v| == ShiftSize(c)
  {
    hide FromBits, Repeat, BitsOf, RegimeString, Pow2;
    var tail := BitsOf(e, c.es) + BitsOf(f, MultSize(c) - 1);
    var un := UnroundedBits(c, k, e, f);
    PackedRegimeString(bit, s);
    assert un == Repeat(bit, s + 1) + [!bit] + tail;
    FromBitsAppend(un, Repeat(false, c.n - s));
    FromBitsRepeat(false, c.n - s);
  }

  /** The regime string of the packed regime: s+1 copies of the shifted-in bit, then its complement. */
  lemma PackedRegimeString(bit: bool, s: nat)
    ensures RegimeString(PackedRegime(!bit, s)) == Repeat(bit, s + 1) + [!bit]
  {
  }

  /** Reading `tmp_ans`, `LSB` and `G` off a shifter output given as a bit string. */
  lemma ShifterOutReading(c: Config, out: nat, v: seq<bool>)
    requires c.Valid() && |v| == ShiftSize(c) && out == FromBits(v)
    ensures TmpAns(c, out) == FromBits(v[..c.n - 1])
    ensures Lsb(c, out) == v[c.n - 2] && Guard(c, out) == v[c.n - 1]
  {
    FromBitsPrefix(v, c.n - 1);
    assert |v| - (c.n - 1) == RoundBits(c);
    BitOfFromBits(v, RoundBits(c));
    BitOfFromBits(v, RoundBits(c) - 1);
  }

  /** The top FracSize-1 of the mult_size-1 fraction bits: those that can fit in the result. */
  function KeptFrac(c: Config, lf: nat): (f: nat)
    requires c.Valid() && lf < Pow2(MultSize(c) - 1)
    ensures f < Pow2(c.n - c.es - 3)
  {
    var F := c.FracSize();
    assert MultSize(c) - 1 == (F - 1) + F;
    QuotientBound(lf, F - 1, F);
    lf / Pow2(F)
  }

  /**
   * The first N-1 bits of the padded string are those of the posit format's
   * regime, exponent and top FracSize-1 fraction bits.
   */
  lemma KeptBitsAreMagnitude(c: Config, k: int, e: nat, lf: nat, s: nat)
    requires c.Valid() && s <= c.n && e < Pow2(c.es) && lf < Pow2(MultSize(c) - 1)
    ensures FromBits(PaddedBits(c, k, e, lf, s)[..c.n - 1]) == Magnitude(c, k, e, KeptFrac(c, lf))
  {
    var F := c.FracSize();
    var f := KeptFrac(c, lf);
    var rs, eb := RegimeString(k), BitsOf(e, c.es);
    var lo, zeros := BitsOf(lf % Pow2(F), F), Repeat(false, c.n - s);
    assert MultSize(c) - 1 == (F - 1) + F;
    BitsOfSplit(lf, F - 1, F);
    assert BitsOf(lf, MultSize(c) - 1) == BitsOf(f, F - 1) + lo;
    assert c.n - c.es - 3 == F - 1;
    var x := rs + eb + BitsOf(f, F - 1);
    assert PaddedBits(c, k, e, lf, s) == x + (lo + zeros);
    PrefixOfConcat(x, lo + zeros, c.n - 1);
  }

  lemma PrefixOfConcat(x: seq<bool>, y: seq<bool>, k: nat)
    requires k <= |x|
    ensures (x + y)[..k] == x[..k]
  {
  }

  lemma QuotientBound(x: nat, a: nat, b: nat)
    requires x < Pow2(a + b)
    ensures 0 <= x / Pow2(b) < Pow2(a)
  {
    Pow2Add(a, b);
    QuotientFits(x, Pow2(b), Pow2(a));
    FloorSign(x, Pow2(b));
  }

  /** The padded string of a multiplication, from its product and regime signals. */
  function ShifterBits(c: Config, p: ProductSignals, u: RegimeSignals): seq<bool>
    requires c.Valid() && u.finalRegime <= MaxRegime(c) && u.finalExp < Pow2(c.es)
    requires PackStage(c, p, u).shifterS <= c.n
  {
    var s := PackStage(c, p, u).shifterS;
    PaddedBits(c, PackedRegime(u.sfSign, s), u.finalExp, LowFrac(c, p.normFrac), s)
  }

  /**
   * For a nonzero fraction product and a shift within maxShift, `tmp_ans`
   * is the posit format's magnitude of the packed regime, the final
   * exponent and the fraction bits that fit; `LSB` is the last bit kept
   * and `G` the first bit dropped.
   */
  lemma TmpAnsIsMagnitude(c: Config, p: ProductSignals, u: RegimeSignals)
    requires c.Valid() && u.finalRegime <= MaxRegime(c) && u.finalExp < Pow2(c.es)
    requires u.nzero && PackStage(c, p, u).shifterS <= c.n
    ensures var k := PackStage(c, p, u);
            var v := ShifterBits(c, p, u);
            && k.shifterOut == FromBits(v)
            && k.tmpAns == Magnitude(c, PackedRegime(u.sfSign, k.shifterS), u.finalExp,
                                     KeptFrac(c, LowFrac(c, p.normFrac)))
            && k.tmpAns == FromBits(v[..c.n - 1])
            && Lsb(c, k.shifterOut) == v[c.n - 2]
            && Guard(c, k.shifterOut) == v[c.n - 1]
  {
    hide FromBits, Magnitude, KeptFrac, RegimeString, BitsOf, Repeat;
    var k := PackStage(c, p, u);
    var v := ShifterBits(c, p, u);
    PackStageLayout(c, p, u);
    ShifterOutReading(c, k.shifterOut, v);
    KeptBitsAreMagnitude(c, PackedRegime(u.sfSign, k.shifterS), u.finalExp,
                         LowFrac(c, p.normFrac), k.shifterS);
  }

  // ---------------------------------------------------------------------
  // Ranges of the scales and of the product's regime
  // ---------------------------------------------------------------------

  /** A decoded regime lies in [-(N-1), N-2], so a scale lies in [-(N-1) 2^es, (N-1) 2^es). */
  lemma ScaleRange(c: Config, x: nat)
    requires c.Valid()
    ensures -(c.n - 1) <= RegimeOf(c, x) <= c.n - 2
    ensures -((c.n - 1) * Pow2(c.es)) <= Scale(c, x) < (c.n - 1) * Pow2(c.es)
  {
    ScaledRange(RegimeOf(c, x), Exp(c, x), Pow2(c.es), c.n - 1);
  }

  lemma ScaledRange(r: int, e: nat, p: nat, m: nat)
    requires -(m as int) <= r <= m - 1 && e < p
    ensures -(m * p) <= r * p + e < m * p
  {
    assert (m - 1 - r) * p >= 0 by {
      MulLe(0, m - 1 - r, p);
    }
    assert (r + m) * p >= 0 by {
      MulLe(0, r + m, p);
    }
  }

  /** Floor division by p of a value in [-2mp, 2mp) lies in [-2m, 2m). */
  lemma QuotientRange(v: int, p: int, m: nat, h: int)
    requires p > 0 && h == m * p && -(2 * h) <= v < 2 * h
    ensures -(2 * m) <= v / p < 2 * m
  {
    var q, r := v / p, v % p;
    assert v == q * p + r;
    if q < -(2 * m) {
      assert (-(2 * m) - q) * p >= p by {
        MulGe(-(2 * m) - q, p);
      }
    } else if q >= 2 * m {
      assert (q - 2 * m) * p >= 0 by {
        MulLe(0, q - 2 * m, p);
      }
    }
  }

  /** The product's regime floor(sf / 2^es), read off `sf_mult`. */
  function ProductRegime(c: Config, p: ProductSignals): int
    requires c.Valid() && ProductFits(c, p)
  {
    Signed(p.sfMult, SfWidth(c) + 1) / Pow2(c.es)
  }

  /** The scale a decoded operand's ports carry: `Reg` read as two's complement, times 2^es, plus `Exp`. */
  function PortScale(c: Config, d: Decoded): int
    requires c.Valid() && Fits(c, d)
  {
    Signed(d.reg, c.regSize) * Pow2(c.es) + d.exp
  }

  /** What the multiplier uses of a decoded finite nonzero posit. */
  predicate FiniteDecoded(c: Config, d: Decoded)
    requires c.Valid()
  {
    && Fits(c, d) && !d.z && !d.inf && d.frac >= Pow2(c.FracSize() - 1)
    && -(c.n - 1) <= Signed(d.reg, c.regSize) <= c.n - 2
  }

  /** The decoder gives a finite nonzero posit's ports those properties. */
  lemma DecodedFinite(c: Config, x: nat)
    requires c.Valid() && Finite(c, x)
    ensures FiniteDecoded(c, Decode(c, x))
  {
    RegIsRegime(c, x);
    ScaleRange(c, x);
  }

  /** A decoded posit's ports carry its scale. */
  lemma DecodedScale(c: Config, x: nat)
    requires c.Valid() && x < Pow2(c.n)
    ensures Scale(c, x) == PortScale(c, Decode(c, x))
  {
    RegIsRegime(c, x);
  }

  /** A finite decoded operand's port scale lies in [-(N-1) 2^es, (N-1) 2^es). */
  lemma PortScaleRange(c: Config, d: Decoded)
    requires c.Valid() && FiniteDecoded(c, d)
    ensures -((c.n - 1) * Pow2(c.es)) <= PortScale(c, d) < (c.n - 1) * Pow2(c.es)
  {
    ScaledRange(Signed(d.reg, c.regSize), d.exp, Pow2(c.es), c.n - 1);
  }

  /** A scale sum of two scales in [-(N-1) 2^es, (N-1) 2^es) has its regime in [-2(N-1), 2(N-1)). */
  lemma RegimeOfSum(c: Config, p: ProductSignals, sa: int, sb: int)
    requires c.Valid() && ProductFits(c, p)
    requires Signed(p.sfMult, SfWidth(c) + 1) == sa + sb + B(p.ovfM)
    requires -((c.n - 1) * Pow2(c.es)) <= sa < (c.n - 1) * Pow2(c.es)
    requires -((c.n - 1) * Pow2(c.es)) <= sb < (c.n - 1) * Pow2(c.es)
    ensures -2 * (c.n - 1) <= ProductRegime(c, p) < 2 * (c.n - 1)
  {
    var pe, m := Pow2(c.es), c.n - 1;
    SumOfScales(sa, sb, B(p.ovfM), m * pe);
    QuotientRange(Signed(p.sfMult, SfWidth(c) + 1), pe, m, m * pe);
  }

  /** For finite operands the product's regime lies in [-2(N-1), 2(N-1)). */
  lemma ProductRegimeRange(c: Config, dA: Decoded, dB: Decoded)
    requires c.Valid() && FiniteDecoded(c, dA) && FiniteDecoded(c, dB)
    ensures -2 * (c.n - 1) <= ProductRegime(c, ProductStage(c, dA, dB)) < 2 * (c.n - 1)
  {
    PortScaleRange(c, dA);
    PortScaleRange(c, dB);
    RegimeOfSum(c, ProductStage(c, dA, dB), PortScale(c, dA), PortScale(c, dB));
  }

  lemma SumOfScales(sa: int, sb: int, o: nat, h: int)
    requires -h <= sa < h && -h <= sb < h && o <= 1
    ensures -(2 * h) <= sa + sb + o < 2 * h
  {
  }

  // ---------------------------------------------------------------------
  // Saturation of the regime when N is a power of two
  // ---------------------------------------------------------------------

  /** The largest regime an N-bit posit can hold is N-2 and the smallest -(N-2). */
  function Clamp(c: Config, q: int): (k: int)
    requires c.Valid()
    ensures -(c.n - 2) <= k <= c.n - 2
    ensures -(c.n - 2) <= q <= c.n - 2 ==> k == q
  {
    if q > c.n - 2 then c.n - 2 else if q < -(c.n - 2) then -(c.n - 2) else q
  }

  /**
   * When N is a power of two, the saturation value `'0' & (RegSize-1 ones)` is
   * N-1 and `RegimeAns` never wraps: `sf_sign` is the sign of the product's
   * regime q, `RegimeAns` is |q|, `ovf_reg` says |q| >= N, the saturation
   * flags together say |q| >= N-1, and the shift amount, at most N-2, makes
   * the packing encode q clamped to the posit range.
   */
  lemma RegimeSaturation(c: Config, p: ProductSignals)
    requires c.Valid() && c.PowerOfTwo() && ProductFits(c, p) && p.fracMult != 0
    requires -2 * (c.n - 1) <= ProductRegime(c, p) < 2 * (c.n - 1)
    ensures var q := ProductRegime(c, p);
            var u := RegimeStage(c, p);
            var k := PackStage(c, p, u);
            && (u.sfSign <==> q < 0)
            && u.regimeAns == Abs(q)
            && (u.ovfReg <==> Abs(q) >= c.n)
            && (u.ovfReg || u.ovfRegF <==> Abs(q) >= c.n - 1)
            && u.nzero
            && u.finalExp == (if Abs(q) >= c.n - 1 then 0 else Signed(p.sfMult, SfWidth(c) + 1) % Pow2(c.es))
            && k.shifterS <= c.n - 2
            && PackedRegime(u.sfSign, k.shifterS) == Clamp(c, q)
  {
    hide RegimeStage, Tmp1, Tmp2, ShiftRightSigned, TmpAns, Round, Signed, ProductRegime;
    RegimeStageSaturation(c, p);
  }

  /** The regime stage alone: the saturated regime is min(|q|, N-1), flagged by `ovf_regF`. */
  lemma RegimeStageSaturation(c: Config, p: ProductSignals)
    requires c.Valid() && c.PowerOfTwo() && ProductFits(c, p) && p.fracMult != 0
    requires -2 * (c.n - 1) <= ProductRegime(c, p) < 2 * (c.n - 1)
    ensures MaxRegime(c) == c.n - 1
    ensures var q := ProductRegime(c, p);
            var u := RegimeStage(c, p);
            && (u.sfSign <==> q < 0)
            && u.regimeAns == Abs(q)
            && (u.ovfReg <==> Abs(q) >= c.n)
            && (u.ovfRegF <==> Abs(q) >= c.n - 1)
            && u.finalRegime == (if Abs(q) >= c.n - 1 then c.n - 1 else Abs(q))
            && u.nzero
            && u.finalExp == (if Abs(q) >= c.n - 1 then 0 else Signed(p.sfMult, SfWidth(c) + 1) % Pow2(c.es))
  {
    var v := Signed(p.sfMult, SfWidth(c) + 1);
    var q := ProductRegime(c, p);
    var u := RegimeStage(c, p);
    FloorSign(v, Pow2(c.es));
    assert u.sfSign <==> q < 0;
    assert Pow2(c.regSize) == 2 * c.n;
    DivModUnique(Abs(q), Pow2(c.regSize), 0, Abs(q));
    assert u.regimeAns == Abs(q);
    TopBit(u.regimeAns, c.regSize);
    assert MaxRegime(c) == c.n - 1;
  }

  // ---------------------------------------------------------------------
  // A product of finite posits is finite when N is a power of two
  // ---------------------------------------------------------------------

  /**
   * For a regime within the posit range, the N-1 kept bits are not all
   * zeros, and adding the rounding increment cannot carry out of them:
   * either they are not all ones, or the guard bit after them is '0'.
   */
  lemma KeptBitsBounds(c: Config, k: int, e: nat, lf: nat, s: nat)
    requires c.Valid() && s <= c.n && -(c.n - 2) <= k <= c.n - 2
    ensures var v := PaddedBits(c, k, e, lf, s);
            var m := FromBits(v[..c.n - 1]);
            1 <= m && (m < Pow2(c.n - 1) - 1 || !v[c.n - 1])
  {
    hide FromBits, Pow2, BitsOf;
    var v := PaddedBits(c, k, e, lf, s);
    var kept := v[..c.n - 1];
    var rs := RegimeString(k);
    assert forall i :: 0 <= i < |rs| ==> v[i] == rs[i];
    if k >= 0 {
      assert kept[0];
      FromBitsHasOne(kept, 0);
      Pow2Le(0, c.n - 2);
      if k < c.n - 2 {
        assert !kept[k + 1];
        FromBitsHasZero(kept, k + 1);
      } else {
        assert !v[c.n - 1];
      }
    } else {
      assert kept[-k];
      FromBitsHasOne(kept, -k);
      Pow2Le(0, c.n - 2 + k);
      assert !kept[0];
      FromBitsHasZero(kept, 0);
    }
  }

  /**
   * When N is a power of two, `tmp_ans` for a nonzero fraction product
   * with a scale sum v whose regime lies in [-2(N-1), 2(N-1)) is the posit
   * format's magnitude of the clamped regime, the exponent (cleared at
   * saturation) and the kept fraction bits.
   */
  lemma PackedMagnitude(c: Config, p: ProductSignals, v: int)
    requires c.Valid() && c.PowerOfTwo() && ProductFits(c, p) && p.fracMult != 0
    requires v == Signed(p.sfMult, SfWidth(c) + 1) && -2 * (c.n - 1) <= v / Pow2(c.es) < 2 * (c.n - 1)
    ensures var k := PackStage(c, p, RegimeStage(c, p));
            k.tmpAns == ProductMagnitude(c, v, p.normFrac)
  {
    hide RegimeStage, PackStage, ShifterBits, Magnitude, Signed;
    RegimeSaturation(c, p);
    TmpAnsIsMagnitude(c, p, RegimeStage(c, p));
  }

  /**
   * With the regime packed within the posit range, the N-1-bit sum
   * `tmp_ans + round` lies in [1, 2^(N-1)): it is never zero and never wraps.
   */
  lemma RoundedInRange(c: Config, p: ProductSignals, u: RegimeSignals)
    requires c.Valid() && u.finalRegime <= MaxRegime(c) && u.finalExp < Pow2(c.es) && u.nzero
    requires var s := PackStage(c, p, u).shifterS;
             s <= c.n && -(c.n - 2) <= PackedRegime(u.sfSign, s) <= c.n - 2
    ensures var k := PackStage(c, p, u);
            1 <= k.tmpAns + B(k.round) < Pow2(c.n - 1)
  {
    var k := PackStage(c, p, u);
    TmpAnsIsMagnitude(c, p, u);
    KeptBitsBounds(c, PackedRegime(u.sfSign, k.shifterS), u.finalExp, LowFrac(c, p.normFrac), k.shifterS);
    NoCarry(k.tmpAns, Guard(c, k.shifterOut), k.round, Pow2(c.n - 1));
  }

  /** The exponent the packing writes for a scale sum v: v mod 2^es, or zero once the regime saturates. */
  function ProductExp(c: Config, v: int): (e: nat)
    requires c.Valid()
    ensures e < Pow2(c.es)
  {
    if Abs(v / Pow2(c.es)) >= c.n - 1 then 0 else v % Pow2(c.es)
  }

  /**
   * The posit magnitude of a product with scale sum v and fraction product
   * `normFrac`: the regime floor(v / 2^es) clamped to the posit range, the
   * exponent (cleared at saturation) and the fraction bits that fit.
   */
  function ProductMagnitude(c: Config, v: int, normFrac: nat): (m: nat)
    requires c.Valid()
    ensures m < Pow2(c.n - 1)
  {
    Magnitude(c, Clamp(c, v / Pow2(c.es)), ProductExp(c, v), KeptFrac(c, LowFrac(c, normFrac)))
  }

  /**
   * When N is a power of two, saturation does not depend on the overshoot:
   * two product stages that differ only in `sf_mult`, whose regimes both
   * reach N-1 or beyond on the same side, pack to the same `tmp_ans`, and
   * neither is rounded.
   */
  lemma SaturationIgnoresOvershoot(c: Config, p: ProductSignals, p': ProductSignals)
    requires c.Valid() && c.PowerOfTwo() && ProductFits(c, p) && ProductFits(c, p') && p.fracMult != 0
    requires p' == p.(sfMult := p'.sfMult)
    requires -2 * (c.n - 1) <= ProductRegime(c, p) < 2 * (c.n - 1)
    requires -2 * (c.n - 1) <= ProductRegime(c, p') < 2 * (c.n - 1)
    requires (ProductRegime(c, p) >= c.n - 1 && ProductRegime(c, p') >= c.n - 1)
          || (ProductRegime(c, p) <= -(c.n - 1) && ProductRegime(c, p') <= -(c.n - 1))
    ensures var k, k' := PackStage(c, p, RegimeStage(c, p)), PackStage(c, p', RegimeStage(c, p'));
            k.tmpAns == k'.tmpAns && !k.round && !k'.round
  {
    hide RegimeStage, Tmp1, Tmp2, ShiftRightSigned, TmpAns, Magnitude, KeptFrac;
    var v, v' := Signed(p.sfMult, SfWidth(c) + 1), Signed(p'.sfMult, SfWidth(c) + 1);
    PackedMagnitude(c, p, v);
    PackedMagnitude(c, p', v');
    assert ProductMagnitude(c, v, p.normFrac) == ProductMagnitude(c, v', p'.normFrac);
    RegimeSaturation(c, p);
    RegimeSaturation(c, p');
  }

  lemma NoCarry(m: nat, g: bool, r: bool, P: nat)
    requires 1 <= m < P && (m < P - 1 || !g) && (r ==> g)
    ensures 1 <= m + B(r) < P
  {
  }

  /**
   * When N is a power of two, a nonzero fraction product whose regime lies
   * in [-2(N-1), 2(N-1)) packs and rounds to an N-1-bit magnitude
   * `tmp_ans + round` in [1, 2^(N-1)).
   */
  lemma PackedRounded(c: Config, p: ProductSignals)
    requires c.Valid() && c.PowerOfTwo() && ProductFits(c, p) && p.fracMult != 0
    requires -2 * (c.n - 1) <= ProductRegime(c, p) < 2 * (c.n - 1)
    ensures var k := PackStage(c, p, RegimeStage(c, p));
            1 <= k.tmpAns + B(k.round) < Pow2(c.n - 1)
  {
    RegimeSaturation(c, p);
    RoundedInRange(c, p, RegimeStage(c, p));
  }

  /**
   * For finite nonzero decoded operands and N a power of two, the rounded
   * magnitude `tmp_ans + round` of the product lies in [1, 2^(N-1)).
   */
  lemma StagesInRange(c: Config, dA: Decoded, dB: Decoded)
    requires c.Valid() && c.PowerOfTwo() && FiniteDecoded(c, dA) && FiniteDecoded(c, dB)
    ensures var k := Stages(c, dA, dB).pack;
            1 <= k.tmpAns + B(k.round) < Pow2(c.n - 1)
  {
    hide ProductStage, RegimeStage, PackStage;
    NormFracNormalised(c, dA, dB);
    ProductRegimeRange(c, dA, dB);
    PackedRounded(c, ProductStage(c, dA, dB));
  }

  /**
   * For finite nonzero decoded operands and N a power of two, `Output` is
   * the rounded magnitude with the product's sign, the XOR of the
   * operands' signs.
   */
  lemma StagesRounded(c: Config, dA: Decoded, dB: Decoded)
    requires c.Valid() && c.PowerOfTwo() && FiniteDecoded(c, dA) && FiniteDecoded(c, dB)
    ensures var t := Stages(c, dA, dB);
            var m := t.pack.tmpAns + B(t.pack.round);
            && 1 <= m < Pow2(c.n - 1)
            && t.output == SignApply(c, dA.sign != dB.sign, m)
  {
    hide RegimeStage, PackStage;
    var t := Stages(c, dA, dB);
    StagesInRange(c, dA, dB);
    OutputOfFinite(c, t.prod, t.pack.tmpAns, t.pack.round);
  }

  /**
   * For finite nonzero decoded operands and N a power of two, `tmp_ans` is
   * the posit magnitude of the product's clamped regime, its exponent and
   * its kept fraction bits, from the operands' port scales.
   */
  lemma StagesMagnitude(c: Config, dA: Decoded, dB: Decoded)
    requires c.Valid() && c.PowerOfTwo() && FiniteDecoded(c, dA) && FiniteDecoded(c, dB)
    ensures var t := Stages(c, dA, dB);
            var v := PortScale(c, dA) + PortScale(c, dB) + B(t.prod.ovfM);
            t.pack.tmpAns == ProductMagnitude(c, v, t.prod.normFrac)
  {
    hide ProductStage, RegimeStage, PackStage, ProductMagnitude, Signed;
    var p := ProductStage(c, dA, dB);
    NormFracNormalised(c, dA, dB);
    ProductRegimeRange(c, dA, dB);
    PackedMagnitude(c, p, Signed(p.sfMult, SfWidth(c) + 1));
  }

  /** With neither special case, `Output` applies the sign to `tmp_ans + round` when the sum does not wrap. */
  lemma OutputOfFinite(c: Config, p: ProductSignals, tmpAns: nat, round: bool)
    requires c.Valid() && !p.inf && !p.z && tmpAns + B(round) < Pow2(c.n - 1)
    ensures Output(c, p.inf, p.z, p.sign, tmpAns, round) == SignApply(c, p.sign, tmpAns + B(round))
  {
    var m := tmpAns + B(round);
    DivModUnique(m, Pow2(c.n - 1), 0, m);
  }

  /**
   * When N is a power of two, `Output` for two finite nonzero posits is
   * `tmp_ans + round` with the XOR of the operands' signs applied.
   */
  lemma MultiplyRounded(c: Config, a: nat, b: nat)
    requires c.Valid() && c.PowerOfTwo() && Finite(c, a) && Finite(c, b)
    ensures var t := Datapath(c, a, b);
            var m := t.pack.tmpAns + B(t.pack.round);
            && 1 <= m < Pow2(c.n - 1)
            && Multiply(c, a, b) == SignApply(c, Decode(c, a).sign != Decode(c, b).sign, m)
  {
    hide *;
    DatapathOfFinite(c, a, b);
    StagesRounded(c, Decode(c, a), Decode(c, b));
  }

  /**
   * When N is a power of two, the product of two finite nonzero posits is
   * a finite nonzero posit whose sign is the XOR of the operands' signs
   * and whose magnitude is `tmp_ans + round`.
   */
  lemma MultiplyFinite(c: Config, a: nat, b: nat)
    requires c.Valid() && c.PowerOfTwo() && Finite(c, a) && Finite(c, b)
    ensures Finite(c, Multiply(c, a, b))
    ensures Decode(c, Multiply(c, a, b)).sign == (Decode(c, a).sign != Decode(c, b).sign)
    ensures var t := Datapath(c, a, b);
            Twos(c, Multiply(c, a, b)) == t.pack.tmpAns + B(t.pack.round)
  {
    hide Decode, ProductStage, RegimeStage, PackStage;
    var t := Datapath(c, a, b);
    MultiplyRounded(c, a, b);
    SignApplyDecodes(c, Decode(c, a).sign != Decode(c, b).sign, t.pack.tmpAns + B(t.pack.round));
  }

  /**
   * When N is a power of two, the magnitude of the product of two finite
   * nonzero posits is the posit format's encoding of the product's regime
   * q clamped to the posit range, its exponent (cleared at saturation) and
   * the fraction bits that fit.  `MultiplyRoundsNearestEven` adds the
   * rounding increment.
   */
  lemma MultiplyMagnitude(c: Config, a: nat, b: nat)
    requires c.Valid() && c.PowerOfTwo() && Finite(c, a) && Finite(c, b)
    ensures var t := Datapath(c, a, b);
            var v := Scale(c, a) + Scale(c, b) + B(t.prod.ovfM);
            t.pack.tmpAns == ProductMagnitude(c, v, t.prod.normFrac)
  {
    hide *;
    DatapathOfFinite(c, a, b);
    StagesMagnitude(c, Decode(c, a), Decode(c, b));
  }

  /**
   * Rounding against the shifter's output is rounding against the posit
   * string without the zeros the shifter brings in: scaling the dropped
   * bits and half an LSB by the same power of two keeps their comparison.
   */
  lemma DroppedBits(c: Config, w: seq<bool>, z: nat, out: nat)
    requires c.Valid() && |w| >= c.n && |w| + z == ShiftSize(c) && out == FromBits(w + Repeat(false, z))
    ensures var d, half := out % Pow2(RoundBits(c)), Pow2(RoundBits(c) - 1);
            var d', half' := FromBits(w[c.n - 1..]), Pow2(|w| - c.n);
            (d > half <==> d' > half') && (d == half <==> d' == half')
  {
    hide FromBits, Repeat, Pow2;
    var V := w + Repeat(false, z);
    var tail := V[c.n - 1..];
    assert V == V[..c.n - 1] + tail;
    FromBitsAppend(V[..c.n - 1], tail);
    assert |tail| == RoundBits(c);
    DivModUnique(out, Pow2(RoundBits(c)), FromBits(V[..c.n - 1]), FromBits(tail));
    assert tail == w[c.n - 1..] + Repeat(false, z);
    FromBitsAppend(w[c.n - 1..], Repeat(false, z));
    FromBitsRepeat(false, z);
    assert RoundBits(c) - 1 == (|w| - c.n) + z;
    Pow2Add(|w| - c.n, z);
    ScaledCompare(FromBits(w[c.n - 1..]), Pow2(|w| - c.n), Pow2(z));
  }

  lemma ScaledCompare(d: nat, h: nat, m: nat)
    requires m > 0
    ensures d * m > h * m <==> d > h
    ensures d * m == h * m <==> d == h
  {
    if d > h {
      MulLe(h + 1, d, m);
    } else if d < h {
      MulLe(d + 1, h, m);
    }
  }

  /**
   * When N is a power of two, the packing of a nonzero fraction product
   * keeps the first N-1 bits of the posit string of the clamped regime,
   * the exponent and the fraction bits, and rounds them to nearest, ties
   * to even, on the bits it drops, except once the regime saturates.
   */
  lemma PackRoundsNearestEven(c: Config, p: ProductSignals)
    requires c.Valid() && c.PowerOfTwo() && ProductFits(c, p) && p.fracMult != 0
    requires -2 * (c.n - 1) <= ProductRegime(c, p) < 2 * (c.n - 1)
    ensures var v := Signed(p.sfMult, SfWidth(c) + 1);
            var q := v / Pow2(c.es);
            var w := UnroundedBits(c, Clamp(c, q), ProductExp(c, v), LowFrac(c, p.normFrac));
            var d, half := FromBits(w[c.n - 1..]), Pow2(|w| - c.n);
            var k := PackStage(c, p, RegimeStage(c, p));
            && k.tmpAns == FromBits(w[..c.n - 1])
            && (k.round <==> Abs(q) < c.n - 1 && (d > half || (d == half && w[c.n - 2])))
  {
    hide RegimeStage, Tmp1, Tmp2, ShiftRightSigned, TmpAns, Magnitude, KeptFrac, FromBits, Repeat,
         UnroundedBits, Signed;
    var v := Signed(p.sfMult, SfWidth(c) + 1);
    var u := RegimeStage(c, p);
    var k := PackStage(c, p, u);
    var s := k.shifterS;
    RegimeSaturation(c, p);
    var w := UnroundedBits(c, Clamp(c, v / Pow2(c.es)), ProductExp(c, v), LowFrac(c, p.normFrac));
    TmpAnsIsMagnitude(c, p, u);
    PackStageLayout(c, p, u);
    assert ShifterBits(c, p, u) == w + Repeat(false, c.n - s);
    PrefixOfConcat(w, Repeat(false, c.n - s), c.n - 1);
    RoundIsNearestEven(c, k.shifterOut, u.ovfReg || u.ovfRegF);
    DroppedBits(c, w, c.n - s, k.shifterOut);
  }

  /**
   * When N is a power of two, the product of two finite nonzero posits is
   * correctly rounded.  Take the exact fraction product of the decoded
   * fractions and the exact scale sum v.  The result is the posit string of
   * the regime floor(v / 2^es) clamped to the posit range, its exponent and
   * its fraction bits, cut to N-1 bits and rounded to nearest, ties to even,
   * on the bits cut off; a saturated regime is not rounded.  The sign is
   * the XOR of the operands' signs.
   */
  lemma MultiplyRoundsNearestEven(c: Config, a: nat, b: nat)
    requires c.Valid() && c.PowerOfTwo() && Finite(c, a) && Finite(c, b)
    ensures var dA, dB := Decode(c, a), Decode(c, b);
            var fm := Product(dA.frac, c.FracSize(), dB.frac, c.FracSize());
            var v := Scale(c, a) + Scale(c, b) + B(OvfM(c, fm));
            var q := v / Pow2(c.es);
            var w := UnroundedBits(c, Clamp(c, q), ProductExp(c, v), LowFrac(c, NormFrac(c, fm)));
            var d, half := FromBits(w[c.n - 1..]), Pow2(|w| - c.n);
            && Decode(c, Multiply(c, a, b)).sign == (dA.sign != dB.sign)
            && Twos(c, Multiply(c, a, b))
               == FromBits(w[..c.n - 1]) + B(Abs(q) < c.n - 1 && (d > half || (d == half && w[c.n - 2])))
  {
    hide Decode, RegimeStage, PackStage, Multiply, Datapath, UnroundedBits, FromBits, Signed, Twos;
    var dA, dB := Decode(c, a), Decode(c, b);
    DatapathOfFinite(c, a, b);
    MultiplyFinite(c, a, b);
    NormFracNormalised(c, dA, dB);
    ProductRegimeRange(c, dA, dB);
    PackRoundsNearestEven(c, ProductStage(c, dA, dB));
  }

  /** Two finite operands reach the stages as decoded finite operands carrying their scales. */
  lemma DatapathOfFinite(c: Config, a: nat, b: nat)
    requires c.Valid() && Finite(c, a) && Finite(c, b)
    ensures a < Pow2(c.n) && b < Pow2(c.n)
    ensures var dA, dB := Decode(c, a), Decode(c, b);
            && FiniteDecoded(c, dA) && FiniteDecoded(c, dB)
            && Datapath(c, a, b) == Stages(c, dA, dB) && Multiply(c, a, b) == Datapath(c, a, b).output
            && Scale(c, a) == PortScale(c, dA) && Scale(c, b) == PortScale(c, dB)
  {
    DecodedFinite(c, a);
    DecodedFinite(c, b);
    DecodedScale(c, a);
    DecodedScale(c, b);
  }
}
