/**
 * Multiplying by the posit 1.0 changes nothing: when N is a power of two,
 * the operator's `Output` for `InputA` = 1.0 is `InputB`, bit for bit, for
 * every N-bit input, and the same with the inputs swapped.  The worked
 * examples for N = 8, es = 0 follow from this and from the special cases.
 */
module MultiplierIdentity {
  import opened Bits
  import opened SubOperators
  import opened PositFormat
  import opened PositDecoder
  import opened DecoderProperties
  import opened PositMult
  import opened MultiplierProperties

  /** The pattern of 1.0: '0', the regime "10" of regime 0, then zeros. */
  function One(c: Config): (x: nat)
    requires c.Valid()
    ensures x < Pow2(c.n)
  {
    Pow2Le(c.n - 2, c.n);
    Pow2(c.n - 2)
  }

  /** 1.0 is the posit format's encoding of sign 0, regime 0, exponent 0 and fraction 0. */
  lemma OneIsEncoded(c: Config)
    requires c.Valid()
    ensures One(c) == Encode(c, false, 0, 0, 0)
    ensures Finite(c, One(c))
  {
    ValidWidths(c);
    var rs := RegimeString(0);
    assert rs == [true, false];
    TwoBits(true, false);
    MagnitudeIsPrefix(c, 0, 0, 0);
    ThreeFields(rs, 0, c.es, 0, c.n - c.es - 3);
    assert c.es + (c.n - c.es - 3) == c.n - 3;
    DivModUnique(FromBits(rs + BitsOf(0, c.es) + BitsOf(0, c.n - c.es - 3)), 1, 2 * Pow2(c.n - 3), 0);
    assert Pow2(c.n - 2) == 2 * Pow2(c.n - 3);
    assert Pow2(c.n - 1) == 2 * Pow2(c.n - 2);
  }

  /** The decoder reads 1.0 as sign 0, `Reg` 0, `Exp` 0 and a fraction that is the hidden bit alone. */
  lemma DecodeOne(c: Config)
    requires c.Valid()
    ensures Decode(c, One(c)) == Decoded(false, 0, 0, Pow2(c.FracSize() - 1), false, false)
  {
    hide Decode, Twos, Rc, Zc, Tmp;
    var x := One(c);
    OneIsEncoded(c);
    DecodedPorts(c, x);
    OneTwos(c);
    assert Reg(c, x) == 0 by {
      OneZc(c);
    }
    OneTmp(c);
    SliceOfZero(c.n - c.es - 3, c.es);
    SliceOfZero(0, c.n - c.es - 3);
    assert Exp(c, x) == 0;
    assert Frac(c, x) == Pow2(c.n - c.es - 3);
  }

  /** Every slice of zero is zero. */
  lemma SliceOfZero(lo: nat, width: nat)
    ensures Slice(0, lo, width) == 0
  {
    DivModUnique(0, Pow2(lo), 0, 0);
    DivModUnique(0, Pow2(width), 0, 0);
  }

  /** `twos` of 1.0 is its own low bits, 2^(N-2), so `rc` is '1'. */
  lemma OneTwos(c: Config)
    requires c.Valid()
    ensures !SignBit(c, One(c)) && Low(c, One(c)) == Pow2(c.n - 2)
    ensures Twos(c, One(c)) == Pow2(c.n - 2) && Rc(c, One(c))
  {
    var x, w := One(c), c.n - 1;
    var h := Pow2(c.n - 2);
    assert Pow2(w) == 2 * h;
    SmallMod(x, Pow2(w));
    TopBit(h, w + 1);
    TopBit(h, w);
  }

  /** The regime run of 1.0 is a single one. */
  lemma OneZc(c: Config)
    requires c.Valid()
    ensures Zc(c, One(c)) == 1
  {
    hide Twos, Rc;
    var x, w := One(c), c.n - 1;
    var h := Pow2(c.n - 2);
    OneTwos(c);
    assert Inv(c, x) == h - 1 by {
      assert Pow2(w) == 2 * h;
    }
    var r := Zc(c, x);
    if r >= 2 {
      assert Inv(c, x) < Pow2(w - r);
      Pow2Le(w - r, w - 2);
      assert false;
    }
  }

  /** Shifting 1.0's `twos` by `zc - 1` = 0 leaves nothing in `tmp`. */
  lemma OneTmp(c: Config)
    requires c.Valid()
    ensures Tmp(c, One(c)) == 0
  {
    hide Twos, Zc;
    var x := One(c);
    OneTwos(c);
    OneZc(c);
    TmpIsShift(c, x);
    assert Pow2(c.n - 2) == 2 * Pow2(c.n - 3);
    DivModUnique(Pow2(c.n - 2) * 1, Pow2(c.n - 3), 2, 0);
  }

  /** Times the fraction of 1.0, a fraction with its hidden bit set gives no product overflow, and `normFrac` is the fraction shifted up FracSize places. */
  lemma ProductByOne(c: Config, fx: nat)
    requires c.Valid() && Pow2(c.FracSize() - 1) <= fx < Pow2(c.FracSize())
    ensures var fm := Product(Pow2(c.FracSize() - 1), c.FracSize(), fx, c.FracSize());
            && !OvfM(c, fm)
            && NormFrac(c, fm) == fx * Pow2(c.FracSize())
            && LowFrac(c, NormFrac(c, fm)) == (fx % Pow2(c.FracSize() - 1)) * Pow2(c.FracSize())
  {
    var F := c.FracSize();
    var h := Pow2(F - 1);
    var ms := MultSize(c);
    var fm := Product(h, F, fx, F);
    assert fm == h * fx;
    assert Pow2(F) == 2 * h;
    Pow2Add(F - 1, F);
    assert ms - 1 == (F - 1) + F;
    Pow2Add(F - 1, F - 1);
    assert ms - 2 == (F - 1) + (F - 1);
    HalfProductRange(h, fx, Pow2(F), Pow2(ms - 2), Pow2(ms - 1));
    NormalisedProduct(c, fm);
    assert NormFrac(c, fm) == fx * Pow2(F);
    LowFracShift(fx, h, Pow2(F), Pow2(ms - 1));
  }

  lemma HalfProductRange(h: nat, fx: nat, q: nat, hh: nat, hq: nat)
    requires q == 2 * h && h <= fx < q && hh == h * h && hq == h * q
    ensures hh <= h * fx < hq && hq == 2 * hh && 2 * (h * fx) == fx * q
  {
    MulLe(h, fx, h);
    MulStrict(h, h + 1, fx, q);
  }

  lemma LowFracShift(fx: nat, h: nat, q: nat, m: nat)
    requires h >= 1 && m == h * q && q >= 1
    ensures (fx * q) % m == (fx % h) * q
  {
    var a, r := fx / h, fx % h;
    assert fx * q == a * m + r * q;
    MulLe(r + 1, h, q);
    DivModUnique(fx * q, m, a, r * q);
  }

  /**
   * A padded string whose fraction bits are kf followed by FracSize zeros:
   * its value is the regime string on top of the exponent and kf, shifted
   * up by FracSize and by the N - s padding zeros.
   */
  lemma PaddedValue(c: Config, k: int, e: nat, kf: nat, s: nat)
    requires c.Valid() && e < Pow2(c.es) && kf < Pow2(c.FracSize() - 1) && s <= c.n
    ensures FromBits(PaddedBits(c, k, e, kf * Pow2(c.FracSize()), s))
         == (FromBits(RegimeString(k)) * Pow2(c.n - 3) + e * Pow2(c.FracSize() - 1) + kf)
            * Pow2(c.FracSize()) * Pow2(c.n - s)
  {
    hide FromBits, BitsOf, Repeat, RegimeString;
    ValidWidths(c);
    var F := c.FracSize();
    var lf := kf * Pow2(F);
    var rs := RegimeString(k);
    var ms := MultSize(c);
    Pow2Add(F - 1, F);
    assert ms - 1 == (F - 1) + F;
    assert lf < Pow2(ms - 1) by {
      MulLe(kf + 1, Pow2(F - 1), Pow2(F));
    }
    var un := rs + BitsOf(e, c.es) + BitsOf(lf, ms - 1);
    assert PaddedBits(c, k, e, lf, s) == un + Repeat(false, c.n - s);
    FromBitsAppend(un, Repeat(false, c.n - s));
    FromBitsRepeat(false, c.n - s);
    ThreeFields(rs, e, c.es, lf, ms - 1);
    Pow2Add(c.n - 3, F);
    assert c.es + (ms - 1) == (c.n - 3) + F;
    PaddedArith(FromBits(rs), e, kf, Pow2(c.n - 3), Pow2(F - 1), Pow2(F), Pow2(c.n - s));
  }

  lemma PaddedArith(rb: nat, e: nat, kf: nat, t: nat, p: nat, q: nat, pad: nat)
    ensures (rb * (t * q) + e * (p * q) + kf * q) * pad == (rb * t + e * p + kf) * q * pad
  {
  }

  /**
   * The shifter input of a product by 1.0, written out: the regime string
   * of x, x's exponent and its fraction bits shifted up FracSize places,
   * then N - s zeros, hold `twos` of x shifted up by the whole rounding
   * field when s = zc - 1.
   */
  lemma PaddedValueOfOperand(c: Config, x: nat, s: nat)
    requires c.Valid() && Twos(c, x) != 0 && s == Zc(c, x) - 1 && s <= c.n
    ensures FromBits(PaddedBits(c, RegimeOf(c, x), Exp(c, x),
                                (Frac(c, x) % Pow2(c.FracSize() - 1)) * Pow2(c.FracSize()), s))
         == Twos(c, x) * Pow2(RoundBits(c))
  {
    hide FromBits, PaddedBits, RegimeString, Twos, Zc, Tmp, Exp, Frac, RegimeOf;
    ValidWidths(c);
    var F := c.FracSize();
    assert c.n - c.es - 3 == F - 1;
    var kf := Frac(c, x) % Pow2(F - 1);
    PaddedValue(c, RegimeOf(c, x), Exp(c, x), kf, s);
    TmpFromExpFrac(c, x);
    FieldsExact(c, x);
    var y, z := Twos(c, x), Zc(c, x);
    Pow2Add(z - 1, F);
    Pow2Add(z - 1 + F, c.n - s);
    assert RoundBits(c) == z - 1 + F + (c.n - s);
    ShiftChain(y, Pow2(z - 1), Pow2(F), Pow2(c.n - s));
  }

  lemma ShiftChain(y: nat, a: nat, b: nat, d: nat)
    ensures (y * a) * b * d == y * (a * b * d)
  {
  }

  /**
   * The saturation and packing signals of a product by 1.0: the regime is
   * x's, never saturated, the exponent is x's, and the shift amount is
   * zc - 1 of x.
   */
  lemma RegimeStageByOne(c: Config, x: nat)
    requires c.Valid() && c.PowerOfTwo() && Finite(c, x)
    ensures var p := ProductStage(c, Decode(c, One(c)), Decode(c, x));
            var u := RegimeStage(c, p);
            var k := PackStage(c, p, u);
            && u.finalRegime <= MaxRegime(c) && u.finalExp < Pow2(c.es) && u.nzero
            && !p.ovfM && !p.inf && !p.z && p.sign == Decode(c, x).sign
            && LowFrac(c, p.normFrac) == (Frac(c, x) % Pow2(c.FracSize() - 1)) * Pow2(c.FracSize())
            && k.shifterS == Zc(c, x) - 1
            && PackedRegime(u.sfSign, k.shifterS) == RegimeOf(c, x)
            && u.finalExp == Exp(c, x)
  {
    hide RegimeStage, PackStage, Decode, Signed, Tmp1, Tmp2, ShiftRightSigned, TmpAns, Round;
    OneIsEncoded(c);
    var dA, dB := Decode(c, One(c)), Decode(c, x);
    DatapathOfFinite(c, One(c), x);
    DecodeOne(c);
    DecodedPorts(c, x);
    var p := ProductStage(c, dA, dB);
    ProductByOne(c, dB.frac);
    NormFracNormalised(c, dA, dB);
    ProductRegimeRange(c, dA, dB);
    RegimeSaturation(c, p);
    TwosZero(c, x);
    NonzeroRegimeRange(c, x);
    ScaleOfProductByOne(c, x, p);
    ShiftOfRegime(c, x, RegimeStage(c, p).sfSign, PackStage(c, p, RegimeStage(c, p)).shifterS);
  }

  /** The product's scale sum is x's scale, so its regime is x's regime and its exponent x's exponent. */
  lemma ScaleOfProductByOne(c: Config, x: nat, p: ProductSignals)
    requires c.Valid() && x < Pow2(c.n) && ProductFits(c, p) && !p.ovfM
    requires Signed(p.sfMult, SfWidth(c) + 1) == PortScale(c, Decode(c, One(c))) + PortScale(c, Decode(c, x)) + B(p.ovfM)
    requires Decode(c, One(c)) == Decoded(false, 0, 0, Pow2(c.FracSize() - 1), false, false)
    ensures ProductRegime(c, p) == RegimeOf(c, x)
    ensures Signed(p.sfMult, SfWidth(c) + 1) % Pow2(c.es) == Exp(c, x)
  {
    hide Decode, Signed, RegimeOf, Exp;
    DecodedScale(c, x);
    assert PortScale(c, Decode(c, One(c))) == 0 by {
      SignedValue(0, c.regSize);
    }
    DivModUnique(Scale(c, x), Pow2(c.es), RegimeOf(c, x), Exp(c, x));
  }

  /** Packing the regime of x takes a shift of zc - 1 whichever the sign of the scale. */
  lemma ShiftOfRegime(c: Config, x: nat, sfSign: bool, s: nat)
    requires c.Valid()
    requires sfSign <==> RegimeOf(c, x) < 0
    requires PackedRegime(sfSign, s) == RegimeOf(c, x)
    ensures s == Zc(c, x) - 1
  {
  }

  /** An input is the sign applied to its `twos`, for every input but zero and NaR. */
  lemma SignApplyTwos(c: Config, x: nat)
    requires c.Valid() && Finite(c, x)
    ensures SignApply(c, SignBit(c, x), Twos(c, x)) == x
  {
    InputSplit(c, x);
    TwosZero(c, x);
    TwosValue(c, x);
    SignMagnitude(x, Pow2(c.n - 1), Low(c, x), Twos(c, x), SignBit(c, x));
    assert Pow2(c.n) == 2 * Pow2(c.n - 1);
  }

  /**
   * When N is a power of two, 1.0 times a finite nonzero posit x is x: the
   * shifter output is `twos` of x above an all-zero rounding field, so
   * `tmp_ans` is `twos`, `round` is '0' and the sign is x's.
   */
  lemma MultiplyOneFinite(c: Config, x: nat)
    requires c.Valid() && c.PowerOfTwo() && Finite(c, x)
    ensures Multiply(c, One(c), x) == x
  {
    hide Decode, ProductStage, RegimeStage, Signed, ShiftRightSigned, Tmp1, Tmp2, FromBits, PaddedBits;
    OneIsEncoded(c);
    DatapathOfFinite(c, One(c), x);
    var dA, dB := Decode(c, One(c)), Decode(c, x);
    var p := ProductStage(c, dA, dB);
    var u := RegimeStage(c, p);
    var k := PackStage(c, p, u);
    RegimeStageByOne(c, x);
    TwosZero(c, x);
    PackStageLayout(c, p, u);
    PaddedValueOfOperand(c, x, k.shifterS);
    var y := Twos(c, x);
    assert k.shifterOut == y * Pow2(RoundBits(c));
    assert RoundBits(c) > 0;
    DivModUnique(k.shifterOut, Pow2(RoundBits(c)), y, 0);
    assert k.tmpAns == y;
    RoundIsNearestEven(c, k.shifterOut, u.ovfReg || u.ovfRegF);
    assert !k.round;
    OutputOfFinite(c, p, k.tmpAns, k.round);
    DecodedPorts(c, x);
    SignApplyTwos(c, x);
  }

  /**
   * When N is a power of two, multiplying by 1.0, on either side, returns
   * the other input unchanged, zero and NaR included.
   */
  lemma MultiplyOne(c: Config, x: nat)
    requires c.Valid() && c.PowerOfTwo() && x < Pow2(c.n)
    ensures Multiply(c, One(c), x) == x
    ensures Multiply(c, x, One(c)) == x
  {
    OneIsEncoded(c);
    if x == NaR(c) {
      MultiplyNaR(c, One(c), x);
    } else if x == 0 {
      MultiplyZero(c, One(c), x);
    } else {
      MultiplyOneFinite(c, x);
    }
    MultiplyCommutes(c, One(c), x);
  }

  // ---------------------------------------------------------------------
  // Worked examples for the 8-bit posit with es = 0
  // ---------------------------------------------------------------------

  /** N = 8, es = 0: the LZOC count over 7 bits has 3 bits and `Reg` has intlog2(8) = 4. */
  function Posit8(): (c: Config)
    ensures c.Valid() && c.PowerOfTwo()
  {
    Config(8, 0, 3, 4)
  }

  /** 0x00 decodes as zero and 0x80 as NaR. */
  lemma Posit8Specials()
    ensures Decode(Posit8(), 0x00).z && !Decode(Posit8(), 0x00).inf
    ensures Decode(Posit8(), 0x80).inf && !Decode(Posit8(), 0x80).z
  {
    assert NaR(Posit8()) == 0x80;
  }

  /** 1.0 * 1.0 = 1.0 and 1.0 * -1.0 = -1.0. */
  lemma Posit8Products()
    ensures Multiply(Posit8(), 0x40, 0x40) == 0x40
    ensures Multiply(Posit8(), 0x40, 0xC0) == 0xC0
    ensures Multiply(Posit8(), 0x00, 0x7F) == 0x00
    ensures Multiply(Posit8(), 0x80, 0x01) == 0x80
  {
    hide Multiply, Decode;
    var c := Posit8();
    assert One(c) == 0x40;
    assert NaR(c) == 0x80;
    MultiplyOne(c, 0x40);
    MultiplyOne(c, 0xC0);
    MultiplyZero(c, 0x00, 0x7F);
    MultiplyNaR(c, 0x80, 0x01);
  }
}
