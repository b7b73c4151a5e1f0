/**
 * What the decoder's equations mean: the conditional negation is an
 * involution, the leading-zero count measures the regime run, `Reg` is
 * the signed regime, and the decoded fields re-encode, by the posit
 * format, to the input they came from.
 */
module DecoderProperties {
  import opened Bits
  import opened SubOperators
  import opened PositFormat
  import opened PositDecoder

  /** Applying the `twos` conditional negation twice gives back the original bits. */
  lemma CondNegInvolution(s: bool, y: nat, w: nat)
    requires y < Pow2(w)
    ensures CondNeg(s, CondNeg(s, y, w), w) == y
  {
    if s {
      NegNeg(y, w);
    }
  }

  /** The regime check bit is the first of the N-1 bits after the sign. */
  lemma RcIsFirstBit(c: Config, x: nat)
    requires c.Valid()
    ensures Rc(c, x) == BitsOf(Twos(c, x), c.n - 1)[0]
  {
  }

  /** `zc` is the length of the leading run of `twos` bits equal to `rc`. */
  lemma ZcIsRegimeRun(c: Config, x: nat)
    requires c.Valid()
    ensures Zc(c, x) == LeadingRun(BitsOf(Twos(c, x), c.n - 1), Rc(c, x))
  {
    LeadingZerosOfXorIsRun(Twos(c, x), c.n - 1, Rc(c, x));
  }

  /** The regime value of the posit standard: run length minus one for a run of ones, minus the run length for a run of zeros. */
  function RegimeOf(c: Config, x: nat): int
    requires c.Valid()
  {
    if Rc(c, x) then Zc(c, x) - 1 else -(Zc(c, x) as int)
  }

  /** `Reg`, read as a regSize-bit two's-complement number, is the regime value. */
  lemma RegIsRegime(c: Config, x: nat)
    requires c.Valid()
    ensures Signed(Reg(c, x), c.regSize) == RegimeOf(c, x)
  {
    var zc := Zc(c, x);
    assert Pow2(c.regSize) == 2 * Pow2(c.zcWidth);
    assert c.regSize - 1 == c.zcWidth;
    if Rc(c, x) {
      assert Reg(c, x) == zc - 1;
    } else {
      assert Reg(c, x) == (Pow2(c.regSize) - zc) % Pow2(c.regSize);
      DivModUnique(Pow2(c.regSize) - zc, Pow2(c.regSize), 0, Pow2(c.regSize) - zc);
    }
  }

  // ---------------------------------------------------------------------
  // The regime, exponent and fraction fields lie where the format puts them
  // ---------------------------------------------------------------------

  /** The regime string of the decoded regime, as a number, and its length. */
  lemma RegimeStringValue(c: Config, x: nat)
    requires c.Valid()
    ensures |RegimeString(RegimeOf(c, x))| == Zc(c, x) + 1
    ensures FromBits(RegimeString(RegimeOf(c, x)))
         == if Rc(c, x) then 2 * (Pow2(Zc(c, x)) - 1) else 1
  {
    var L := Zc(c, x);
    var b := Rc(c, x);
    assert RegimeString(RegimeOf(c, x)) == Repeat(b, L) + [!b];
    FromBitsAppend(Repeat(b, L), [!b]);
    FromBitsRepeat(b, L);
    assert FromBits([!b]) == B(!b) * Pow2(0) + FromBits([]);
  }

  /** Division law used below: (a*(u*p) + r*p) splits back over p, and y*p mod (u*p) is r*p. */
  lemma TailSplit(y: nat, a: nat, u: nat, r: nat, p: nat)
    requires y == a * u + r && r < u && p >= 1
    ensures (y * p) % (u * p) == r * p
    ensures (a * (u * p) + r * p) / p == y
  {
    assert y * p == a * (u * p) + r * p;
    MulStrict(r, u, p, p + 1);
    assert r * p < u * p by { MulLe(r + 1, u, p); }
    DivModUnique(y * p, u * p, a, r * p);
    DivModUnique(a * (u * p) + r * p, p, y, 0);
  }

  /**
   * The arithmetic of a run of L < w bits equal to b at the top of a w-bit
   * y: with inv the bits of y XOR b, 2^(w-L-1) <= inv < 2^(w-L) puts y
   * just above the run's value times 2^(w-1-L).
   */
  lemma RunSplitArith(y: nat, inv: nat, b: bool, w: nat, L: nat) returns (r: nat)
    requires 1 <= L < w && y < Pow2(w)
    requires inv == (if b then Pow2(w) - 1 - y else y)
    requires Pow2(w - L - 1) <= inv < Pow2(w - L)
    ensures r < Pow2(w - 1 - L)
    ensures y == (if b then 2 * (Pow2(L) - 1) else 1) * Pow2(w - 1 - L) + r
  {
    var A, u, P := Pow2(L), Pow2(w - 1 - L), Pow2(w);
    assert Pow2(w - L) == 2 * Pow2(w - L - 1);
    assert u == Pow2(w - L - 1);
    Pow2Add(L, w - 1 - L);
    assert w - 1 == L + (w - 1 - L);
    assert P == 2 * Pow2(w - 1);
    RunProduct(A, u, P, b);
    r := y - (if b then P - 2 * u else u);
  }

  lemma RunProduct(a: nat, u: nat, p: nat, b: bool)
    requires p == 2 * (a * u) && a >= 1
    ensures (if b then 2 * (a - 1) else 1) * u == (if b then p - 2 * u else u)
  {
    if b {
      assert 2 * (a - 1) * u == 2 * (a * u) - 2 * u;
    }
  }

  /** When the run is shorter than the word, `twos` is the regime string on top of a tail r. */
  lemma ShortRunSplit(c: Config, x: nat) returns (r: nat)
    requires c.Valid() && Zc(c, x) < c.n - 1
    ensures r < Pow2(c.n - 2 - Zc(c, x))
    ensures Twos(c, x) == (if Rc(c, x) then 2 * (Pow2(Zc(c, x)) - 1) else 1) * Pow2(c.n - 2 - Zc(c, x)) + r
  {
    var w, L, y := c.n - 1, Zc(c, x), Twos(c, x);
    var inv := Inv(c, x);
    assert inv == (if Rc(c, x) then Pow2(w) - 1 - y else y);
    assert Pow2(w - L - 1) <= inv < Pow2(w - L);
    r := RunSplitArith(y, inv, Rc(c, x), w, L);
  }

  /** `tmp` is `twos` shifted left by `zc - 1`, reduced to its low N-3 bits. */
  lemma TmpIsShift(c: Config, x: nat)
    requires c.Valid()
    ensures Tmp(c, x) == (Twos(c, x) * Pow2(Zc(c, x) - 1)) % Pow2(c.n - 3)
  {
    hide Twos, Zc;
    var v := Twos(c, x) * Pow2(Zc(c, x) - 1);
    SliceLow(ShiftLeft(Twos(c, x), ZcSub(c, x), c.n - 1), c.n - 3);
    assert c.n - 3 + 2 == c.n - 1;
    ModMod(v, c.n - 3, 2);
  }

  /** The arithmetic of a regime run that fills the whole word. */
  lemma FullRunArith(y: nat, rb: nat, p: nat, q: nat)
    requires q >= 1 && p == 2 * q
    requires (y == 2 * p - 1 && rb == 2 * y) || (y == 0 && rb == 1)
    ensures (rb * q + (y * p) % q) / p == y
  {
    if y == 0 {
      DivModUnique(0, q, 0, 0);
      DivModUnique(q, p, 0, q);
    } else {
      assert y * p == (2 * y) * q;
      DivModUnique(y * p, q, 2 * y, 0);
      assert rb * q == y * p;
      DivModUnique(y * p, p, y, 0);
    }
  }

  /** The arithmetic of a regime run followed by its terminating bit and a tail r. */
  lemma ShortRunArith(y: nat, rb: nat, u: nat, r: nat, p: nat, t: nat)
    requires y == rb * u + r && r < u && p >= 1 && t == u * p
    ensures (rb * t + (y * p) % t) / p == y
  {
    TailSplit(y, rb, u, r, p);
  }

  /**
   * `twos` is the regime string of the decoded regime followed by `tmp`,
   * cut off after N-1 bits.
   */
  lemma TwosFromFields(c: Config, x: nat)
    requires c.Valid()
    ensures Twos(c, x)
         == (FromBits(RegimeString(RegimeOf(c, x))) * Pow2(c.n - 3) + Tmp(c, x)) / Pow2(Zc(c, x) - 1)
  {
    if Zc(c, x) < c.n - 1 {
      TwosFromFieldsShort(c, x);
    } else {
      TwosFromFieldsFull(c, x);
    }
  }

  lemma TwosFromFieldsShort(c: Config, x: nat)
    requires c.Valid() && Zc(c, x) < c.n - 1
    ensures Twos(c, x)
         == (FromBits(RegimeString(RegimeOf(c, x))) * Pow2(c.n - 3) + Tmp(c, x)) / Pow2(Zc(c, x) - 1)
  {
    hide *;
    var w, L, y := c.n - 1, Zc(c, x), Twos(c, x);
    var p, t := Pow2(L - 1), Pow2(c.n - 3);
    RegimeStringValue(c, x);
    var rb := FromBits(RegimeString(RegimeOf(c, x)));
    TmpIsShift(c, x);
    assert Tmp(c, x) == (y * p) % t;
    var r := ShortRunSplit(c, x);
    var u := Pow2(w - L - 1);
    assert y == rb * u + r;
    Pow2Add(w - L - 1, L - 1);
    assert w - L - 1 + (L - 1) == c.n - 3;
    ShortRunArith(y, rb, u, r, p, t);
  }

  lemma TwosFromFieldsFull(c: Config, x: nat)
    requires c.Valid() && Zc(c, x) == c.n - 1
    ensures Twos(c, x)
         == (FromBits(RegimeString(RegimeOf(c, x))) * Pow2(c.n - 3) + Tmp(c, x)) / Pow2(Zc(c, x) - 1)
  {
    hide Tmp, RegimeOf, RegimeString, FromBits, ShiftLeft, Slice;
    var w, y := c.n - 1, Twos(c, x);
    var p, t := Pow2(w - 1), Pow2(c.n - 3);
    RegimeStringValue(c, x);
    var rb := FromBits(RegimeString(RegimeOf(c, x)));
    TmpIsShift(c, x);
    assert Tmp(c, x) == (y * p) % t;
    assert Inv(c, x) == 0;
    assert p == 2 * t;
    assert Pow2(w) == 2 * p;
    FullRunArith(y, rb, p, t);
  }

  /**
   * For a nonzero `twos`, shifting it left by `zc - 1` loses nothing: the
   * regime string on top of `tmp` is exactly `twos` times 2^(zc-1).
   */
  lemma FieldsExact(c: Config, x: nat)
    requires c.Valid() && Twos(c, x) != 0
    ensures FromBits(RegimeString(RegimeOf(c, x))) * Pow2(c.n - 3) + Tmp(c, x)
         == Twos(c, x) * Pow2(Zc(c, x) - 1)
  {
    if Zc(c, x) < c.n - 1 {
      FieldsExactShort(c, x);
    } else {
      FieldsExactFull(c, x);
    }
  }

  lemma FieldsExactShort(c: Config, x: nat)
    requires c.Valid() && Zc(c, x) < c.n - 1
    ensures FromBits(RegimeString(RegimeOf(c, x))) * Pow2(c.n - 3) + Tmp(c, x)
         == Twos(c, x) * Pow2(Zc(c, x) - 1)
  {
    hide *;
    var w, L, y := c.n - 1, Zc(c, x), Twos(c, x);
    RegimeStringValue(c, x);
    var rb := FromBits(RegimeString(RegimeOf(c, x)));
    TmpIsShift(c, x);
    var r := ShortRunSplit(c, x);
    assert w - L - 1 + (L - 1) == c.n - 3;
    ShiftedFields(y, rb, r, Tmp(c, x), w - L - 1, L - 1);
  }

  /**
   * A word made of a head above k low bits, shifted up m places and cut to
   * k + m bits, keeps the low bits whole: the head above the cut word is
   * the shifted word.
   */
  lemma ShiftedFields(y: nat, head: nat, r: nat, tmp: nat, k: nat, m: nat)
    requires y == head * Pow2(k) + r && r < Pow2(k)
    requires tmp == (y * Pow2(m)) % Pow2(k + m)
    ensures head * Pow2(k + m) + tmp == y * Pow2(m)
  {
    var u, p := Pow2(k), Pow2(m);
    Pow2Add(k, m);
    TailSplit(y, head, u, r, p);
    assert head * (u * p) + r * p == y * p;
  }

  lemma FieldsExactFull(c: Config, x: nat)
    requires c.Valid() && Zc(c, x) == c.n - 1 && Twos(c, x) != 0
    ensures FromBits(RegimeString(RegimeOf(c, x))) * Pow2(c.n - 3) + Tmp(c, x)
         == Twos(c, x) * Pow2(Zc(c, x) - 1)
  {
    hide Tmp, RegimeOf, RegimeString, FromBits, ShiftLeft, Slice;
    var w, y := c.n - 1, Twos(c, x);
    var p, t := Pow2(w - 1), Pow2(c.n - 3);
    RegimeStringValue(c, x);
    TmpIsShift(c, x);
    assert Inv(c, x) == 0;
    assert Rc(c, x);
    assert p == 2 * t;
    assert Pow2(w) == 2 * p;
    assert y == 2 * p - 1;
    assert y * p == (2 * y) * t;
    DivModUnique(y * p, t, 2 * y, 0);
  }

  /**
   * Only zero and NaR have `twos` = 0: for every other input the regime
   * run stops before the end of the word, or is a run of ones, so the
   * regime lies in [-(N-2), N-2].
   */
  lemma NonzeroRegimeRange(c: Config, x: nat)
    requires c.Valid() && Twos(c, x) != 0
    ensures -(c.n - 2) <= RegimeOf(c, x) <= c.n - 2
  {
    if Zc(c, x) == c.n - 1 && !Rc(c, x) {
      assert false;
    }
  }

  /** `twos` is zero exactly when the low N-1 input bits are, that is for zero and NaR. */
  lemma TwosZero(c: Config, x: nat)
    requires c.Valid() && x < Pow2(c.n)
    ensures Twos(c, x) == 0 <==> x == 0 || x == NaR(c)
  {
    InputSplit(c, x);
    var P, low := Pow2(c.n - 1), Low(c, x);
    if SignBit(c, x) && low != 0 {
      DivModUnique(P - low, P, 0, P - low);
    }
  }

  /** `Exp` is the part of `tmp` above the fraction bits. */
  lemma ExpIsHigh(c: Config, x: nat)
    requires c.Valid()
    ensures Exp(c, x) == Tmp(c, x) / Pow2(c.n - c.es - 3)
  {
    var t, lo := Tmp(c, x), c.n - c.es - 3;
    assert lo + c.es == c.n - 3;
    if c.es > 0 {
      SliceTop(t, lo, c.es);
    } else {
      DivModUnique(t, Pow2(lo), 0, t);
    }
  }

  /** Below the hidden bit, `Frac` is the low part of `tmp`. */
  lemma FracIsLow(c: Config, x: nat)
    requires c.Valid()
    ensures Frac(c, x) % Pow2(c.n - c.es - 3) == Tmp(c, x) % Pow2(c.n - c.es - 3)
  {
    var lo := c.n - c.es - 3;
    var low := Slice(Tmp(c, x), 0, lo);
    SliceLow(Tmp(c, x), lo);
    DivModUnique(B(NZero(c, x)) * Pow2(lo) + low, Pow2(lo), B(NZero(c, x)), low);
  }

  /** `tmp` is `Exp` on top of the fraction bits below the hidden bit. */
  lemma TmpFromExpFrac(c: Config, x: nat)
    requires c.Valid()
    ensures Tmp(c, x) == Exp(c, x) * Pow2(c.n - c.es - 3) + Frac(c, x) % Pow2(c.n - c.es - 3)
  {
    ExpIsHigh(c, x);
    FracIsLow(c, x);
    Recompose(Tmp(c, x), Pow2(c.n - c.es - 3));
  }

  lemma Recompose(t: nat, m: nat)
    requires m > 0
    ensures t == (t / m) * m + t % m
  {
  }

  /** Three adjacent fields, read as one number. */
  lemma ThreeFields(rs: seq<bool>, e: nat, a: nat, f: nat, b: nat)
    requires e < Pow2(a) && f < Pow2(b)
    ensures FromBits(rs + BitsOf(e, a) + BitsOf(f, b)) == FromBits(rs) * Pow2(a + b) + e * Pow2(b) + f
  {
    FromBitsAppend(rs + BitsOf(e, a), BitsOf(f, b));
    FromBitsAppend(rs, BitsOf(e, a));
    FromBitsOfFits(e, a);
    FromBitsOfFits(f, b);
    Pow2Add(a, b);
    Distribute(FromBits(rs), Pow2(a), e, Pow2(b));
  }

  /** The magnitude the format gives to the decoded fields is `twos`. */
  lemma MagnitudeOfFields(c: Config, x: nat)
    requires c.Valid()
    ensures Magnitude(c, RegimeOf(c, x), Exp(c, x), Frac(c, x) % Pow2(c.n - c.es - 3)) == Twos(c, x)
  {
    hide *;
    ValidWidths(c);
    var lo := c.n - c.es - 3;
    var k, e, f := RegimeOf(c, x), Exp(c, x), Frac(c, x) % Pow2(lo);
    var rs := RegimeString(k);
    ThreeFields(rs, e, c.es, f, lo);
    assert c.es + lo == c.n - 3;
    TmpFromExpFrac(c, x);
    RegimeStringValue(c, x);
    MagnitudeIsPrefix(c, k, e, f);
    TwosFromFields(c, x);
    assert FromBits(rs + BitsOf(e, c.es) + BitsOf(f, lo)) == FromBits(rs) * Pow2(c.n - 3) + Tmp(c, x);
    assert |rs| - 2 == Zc(c, x) - 1;
  }

  /**
   * Decoding is lossless: re-encoding the decoded sign, regime, exponent
   * and fraction bits by the posit format gives back every N-bit input,
   * zero and NaR included.
   */
  lemma DecodeEncodeRoundTrip(c: Config, x: nat)
    requires c.Valid() && x < Pow2(c.n)
    ensures var d := Decode(c, x);
            Encode(c, d.sign, Signed(d.reg, c.regSize), d.exp, d.frac % Pow2(c.n - c.es - 3)) == x
  {
    hide *;
    ValidWidths(c);
    var d := Decode(c, x);
    var P := Pow2(c.n - 1);
    DecodedPorts(c, x);
    TwosValue(c, x);
    InputSplit(c, x);
    RegIsRegime(c, x);
    MagnitudeOfFields(c, x);
    EncodeValue(c, d.sign, Signed(d.reg, c.regSize), d.exp, d.frac % Pow2(c.n - c.es - 3));
    SignMagnitude(x, P, Low(c, x), Twos(c, x), d.sign);
  }

  /**
   * The other direction of the round trip: the decoder reads an encoding
   * back.  A zero magnitude is read as zero or NaR; a nonzero one is read
   * with its sign, `twos` is the magnitude, and the decoded fields have
   * that same magnitude.
   */
  lemma EncodeDecodeRoundTrip(c: Config, sign: bool, k: int, e: nat, f: nat)
    requires c.Valid() && e < Pow2(c.es) && f < Pow2(c.n - c.es - 3)
    ensures var m, x := Magnitude(c, k, e, f), Encode(c, sign, k, e, f);
            var d := Decode(c, x);
            && (m == 0 ==> (if sign then d.inf else d.z))
            && (m != 0 ==> && !d.z && !d.inf && d.sign == sign && Twos(c, x) == m
                           && Magnitude(c, RegimeOf(c, x), d.exp, d.frac % Pow2(c.n - c.es - 3)) == m)
  {
    var m, x := Magnitude(c, k, e, f), Encode(c, sign, k, e, f);
    var P := Pow2(c.n - 1);
    EncodeValue(c, sign, k, e, f);
    assert Pow2(c.n) == 2 * P;
    InputSplit(c, x);
    DecodedPorts(c, x);
    TwosValue(c, x);
    MagnitudeOfFields(c, x);
    if m != 0 {
      if sign {
        DivModUnique(2 * P - m, 2 * P, 0, 2 * P - m);
        DivModUnique(x, P, 1, P - m);
        DivModUnique(m, P, 0, m);
      } else {
        DivModUnique(m, P, 0, m);
      }
    }
  }

  /** The sign, regime, exponent and fraction ports of the decoder. */
  lemma DecodedPorts(c: Config, x: nat)
    requires c.Valid() && x < Pow2(c.n)
    ensures var d := Decode(c, x);
            d.sign == SignBit(c, x) && d.reg == Reg(c, x) && d.exp == Exp(c, x) && d.frac == Frac(c, x)
  {
  }

  /** `twos` as a number: the low bits, or their negation modulo 2^(N-1). */
  lemma TwosValue(c: Config, x: nat)
    requires c.Valid()
    ensures var P := Pow2(c.n - 1);
            Twos(c, x) == if SignBit(c, x) then (P - Low(c, x)) % P else Low(c, x)
  {
  }

  /** Sign and magnitude, put back together as the format does, give the N-bit pattern. */
  lemma SignMagnitude(x: nat, P: nat, low: nat, m: nat, sign: bool)
    requires low < P && x == B(sign) * P + low
    requires m == if sign then (P - low) % P else low
    ensures x == if m == 0 then (if sign then P else 0) else if sign then (2 * P - m) % (2 * P) else m
  {
    if sign {
      if low == 0 {
        DivModUnique(P, P, 1, 0);
      } else {
        DivModUnique(P - low, P, 0, P - low);
        DivModUnique(2 * P - m, 2 * P, 0, P + low);
      }
    }
  }
}
