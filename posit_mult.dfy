/**
 * The PositMult operator: two PositDecoder instances, then the signal
 * equations that multiply the fractions, add the scale factors, split the
 * sum back into a regime and an exponent, lay the result out for a
 * sign-filling right shift that generates the regime run, round with the
 * L/G/R/S bits and apply the sign.  Each function is one signal or one
 * group of signals of the generated architecture; `Datapath` wires them.
 */
module PositMult {
  import opened Bits
  import opened SubOperators
  import opened PositFormat
  import opened PositDecoder

  // ---------------------------------------------------------------------
  // Widths
  // ---------------------------------------------------------------------

  /** Width of a scale factor `sf_A`, `sf_B`: RegSize + es. */
  function SfWidth(c: Config): nat
  {
    c.regSize + c.es
  }

  /** `mult_size`, the width of `frac_mult`: 2 FracSize. */
  function MultSize(c: Config): nat
    requires c.Valid()
  {
    2 * c.FracSize()
  }

  /** Width of `tmp1`, `tmp2` and `shifter_in`: 2 + es + mult_size - 1. */
  function PackWidth(c: Config): nat
    requires c.Valid()
  {
    2 + c.es + MultSize(c) - 1
  }

  /** `shift_size`, the width of `shifter_out`: the shifter input plus maxShift = N bits. */
  function ShiftSize(c: Config): nat
    requires c.Valid()
  {
    PackWidth(c) + c.n
  }

  /** Number of `shifter_out` bits below `tmp_ans`: shift_size - (N-1). */
  function RoundBits(c: Config): nat
    requires c.Valid()
  {
    PackWidth(c) + 1
  }

  /** The regime saturation value `'0' & (RegSize-1 ones)`. */
  function MaxRegime(c: Config): nat
    requires c.Valid()
  {
    Pow2(c.regSize - 1) - 1
  }

  function Abs(v: int): nat
  {
    if v < 0 then -v else v
  }

  // ---------------------------------------------------------------------
  // Scale factors, sign and special cases
  // ---------------------------------------------------------------------

  /** `sf <= reg & exp` (just `reg` when es = 0): the scale factor reg * 2^es + exp, in two's complement. */
  function ScaleFactor(c: Config, reg: nat, exp: nat): (sf: nat)
    requires c.Valid() && reg < Pow2(c.regSize) && exp < Pow2(c.es)
    ensures sf < Pow2(SfWidth(c))
    ensures Signed(sf, SfWidth(c)) == Signed(reg, c.regSize) * Pow2(c.es) + exp
  {
    var p := Pow2(c.es);
    MulLe(0, reg, p);
    var sf: nat := if c.es > 0 then reg * p + exp else reg;
    ScaleFactorValue(c, reg, exp, sf);
    sf
  }

  lemma ScaleFactorValue(c: Config, reg: nat, exp: nat, sf: nat)
    requires c.Valid() && reg < Pow2(c.regSize) && exp < Pow2(c.es)
    requires sf == if c.es > 0 then reg * Pow2(c.es) + exp else reg
    ensures sf < Pow2(SfWidth(c)) && Signed(sf, SfWidth(c)) == Signed(reg, c.regSize) * Pow2(c.es) + exp
  {
    var p, h := Pow2(c.es), Pow2(c.regSize - 1);
    var hp := h * p;
    var w := SfWidth(c);
    assert Pow2(c.regSize) == 2 * h;
    Pow2Add(c.regSize - 1, c.es);
    assert w - 1 == c.regSize - 1 + c.es;
    assert Pow2(w) == 2 * Pow2(w - 1);
    ScaleArith(reg, exp, p, h, hp);
    SignedValue(reg, c.regSize);
    SignedValue(sf, w);
    var sr := Signed(reg, c.regSize);
    if c.es == 0 {
      MulOne(reg, p);
      MulOne(sr, p);
    } else {
      ScaleSigned(reg, exp, p, h, hp, sr, Signed(sf, w));
    }
  }

  /** reg * p + e, as a number below 2h * p, has its top half exactly when reg has. */
  lemma ScaleArith(reg: nat, e: nat, p: nat, h: nat, hp: nat)
    requires e < p && reg < 2 * h && hp == h * p
    ensures reg * p + e < 2 * hp
    ensures reg * p + e >= hp <==> reg >= h
  {
    MulLe(reg + 1, 2 * h, p);
    if reg >= h {
      MulLe(h, reg, p);
    } else {
      MulLe(reg + 1, h, p);
    }
  }

  /** Read in two's complement, reg * p + e is the signed reg times p, plus e. */
  lemma ScaleSigned(reg: nat, e: nat, p: nat, h: nat, hp: nat, sr: int, sa: int)
    requires e < p && reg < 2 * h && hp == h * p
    requires sr == if reg >= h then reg - 2 * h else reg
    requires sa == if reg * p + e >= hp then reg * p + e - 2 * hp else reg * p + e
    ensures sa == sr * p + e
  {
    ScaleArith(reg, e, p, h, hp);
    if reg >= h {
      assert (reg - 2 * h) * p == reg * p - 2 * hp;
    }
  }

  // ---------------------------------------------------------------------
  // Fraction product and scale sum
  // ---------------------------------------------------------------------

  /** `ovf_m`: the top bit of `frac_mult`. */
  function OvfM(c: Config, fracMult: nat): (r: bool)
    requires c.Valid()
    ensures fracMult < Pow2(MultSize(c)) ==> (r <==> fracMult >= Pow2(MultSize(c) - 1))
  {
    if fracMult < Pow2(MultSize(c)) then
      TopBit(fracMult, MultSize(c));
      Bit(fracMult, MultSize(c) - 1)
    else
      Bit(fracMult, MultSize(c) - 1)
  }

  /** `normFrac`: `frac_mult & '0'` without overflow, `'0' & frac_mult` with it. */
  function NormFrac(c: Config, fracMult: nat): (r: nat)
    requires c.Valid() && fracMult < Pow2(MultSize(c))
    ensures r < Pow2(MultSize(c) + 1)
  {
    assert Pow2(MultSize(c) + 1) == 2 * Pow2(MultSize(c));
    if !OvfM(c, fracMult) then fracMult * 2 else fracMult
  }

  /**
   * `sf_mult`: both scale factors sign-extended by one bit, added, plus
   * `ovf_m`.  The sum is exact: the RegSize+es+1 bits never wrap.
   */
  function SfMult(c: Config, sfA: nat, sfB: nat, ovfM: bool): (r: nat)
    requires c.Valid() && sfA < Pow2(SfWidth(c)) && sfB < Pow2(SfWidth(c))
    ensures r < Pow2(SfWidth(c) + 1)
    ensures Signed(r, SfWidth(c) + 1) == Signed(sfA, SfWidth(c)) + Signed(sfB, SfWidth(c)) + B(ovfM)
  {
    var w := SfWidth(c);
    var o := B(ovfM);
    SumOfSext(sfA, sfB, o, w);
    (Sext(sfA, w) + Sext(sfB, w) + o) % Pow2(w + 1)
  }

  /** The (w+1)-bit sum of two sign-extended w-bit patterns and a carry is exact. */
  lemma SumOfSext(x: nat, y: nat, o: nat, w: nat)
    requires 1 <= w && x < Pow2(w) && y < Pow2(w) && o <= 1
    ensures (Sext(x, w) + Sext(y, w) + o) % Pow2(w + 1) < Pow2(w + 1)
    ensures Signed((Sext(x, w) + Sext(y, w) + o) % Pow2(w + 1), w + 1) == Signed(x, w) + Signed(y, w) + o
  {
    hide *;
    var xa, xb := Sext(x, w), Sext(y, w);
    var va, vb := Signed(xa, w + 1), Signed(xb, w + 1);
    var m := Pow2(w + 1);
    var v := va + vb + o;
    SumOfPatterns(xa, va, xb, vb, o, m);
    Pow2Succ(w - 1);
    SumRange(va, vb, o, Pow2(w - 1));
    SignedToTwos(v, w + 1);
    ToTwosIsMod(v, w + 1);
  }

  /** Two w-bit integers and a carry add up to a (w+1)-bit integer. */
  lemma SumRange(va: int, vb: int, o: nat, h: int)
    requires -h <= va < h && -h <= vb < h && o <= 1
    ensures -(2 * h) <= va + vb + o < 2 * h
  {
  }

  /** Adding two's-complement patterns adds the integers they stand for, modulo m. */
  lemma SumOfPatterns(xa: nat, va: int, xb: nat, vb: int, o: nat, m: int)
    requires m > 0 && (xa == va || xa == va + m) && (xb == vb || xb == vb + m)
    ensures (xa + xb + o) % m == (va + vb + o) % m
  {
    var v := va + vb + o;
    var t := (if xa == va then 0 else 1) + (if xb == vb then 0 else 1);
    assert xa + xb + o == v + t * m by {
      if t == 2 {
        assert xa + xb + o == v + 2 * m;
      }
    }
    ShiftByMultiple(v, t, m);
  }

  /** Adding a multiple of m shifts the quotient and keeps the remainder. */
  lemma ShiftByMultiple(v: int, t: int, m: int)
    requires m > 0
    ensures (v + t * m) / m == v / m + t
    ensures (v + t * m) % m == v % m
  {
    assert v + t * m == (v / m + t) * m + v % m;
    DivModUnique(v + t * m, m, v / m + t, v % m);
  }

  /** `sf_sign`: the top bit of `sf_mult`. */
  function SfSign(c: Config, sfMult: nat): (r: bool)
    ensures sfMult < Pow2(SfWidth(c) + 1) ==> (r <==> sfMult >= Pow2(SfWidth(c)))
  {
    if sfMult < Pow2(SfWidth(c) + 1) then
      TopBit(sfMult, SfWidth(c) + 1);
      Bit(sfMult, SfWidth(c))
    else
      Bit(sfMult, SfWidth(c))
  }

  /** `sf_sign` is the sign bit of the (SfWidth+1)-bit pattern. */
  lemma SfSignIsTop(c: Config, sfMult: nat)
    requires sfMult < Pow2(SfWidth(c) + 1)
    ensures SfSign(c, sfMult) <==> Signed(sfMult, SfWidth(c) + 1) < 0
  {
  }

  // ---------------------------------------------------------------------
  // Regime and exponent of the product
  // ---------------------------------------------------------------------

  /** `ExpBits`: the low es bits of `sf_mult`, the scale modulo 2^es. */
  function ExpBits(c: Config, sfMult: nat): (r: nat)
    requires c.Valid() && sfMult < Pow2(SfWidth(c) + 1)
    ensures r < Pow2(c.es)
    ensures r == Signed(sfMult, SfWidth(c) + 1) % Pow2(c.es)
  {
    var w := SfWidth(c) + 1;
    var v := Signed(sfMult, w);
    var t := (sfMult - v) / Pow2(w);
    SignedOffset(c, sfMult);
    ShiftByMultiple(v, t * Pow2(c.regSize + 1), Pow2(c.es));
    sfMult % Pow2(c.es)
  }

  /** A pattern of sf_mult is its integer plus 0 or 2^(RegSize+1) times 2^es. */
  lemma SignedOffset(c: Config, sfMult: nat)
    requires c.Valid() && sfMult < Pow2(SfWidth(c) + 1)
    ensures var v := Signed(sfMult, SfWidth(c) + 1);
            var t := (sfMult - v) / Pow2(SfWidth(c) + 1);
            (t == 0 || t == 1) && sfMult == v + t * Pow2(c.regSize + 1) * Pow2(c.es)
  {
    var w := SfWidth(c) + 1;
    var v := Signed(sfMult, w);
    Pow2Add(c.regSize + 1, c.es);
    assert w == c.regSize + 1 + c.es;
    var m := Pow2(w);
    if sfMult == v {
      DivModUnique(0, m, 0, 0);
    } else {
      DivModUnique(m, m, 1, 0);
    }
  }

  /**
   * `RegimeAns`: bits RegSize+es-1 .. es of `sf_mult`, negated when
   * `sf_sign` is set, which is the absolute value of the product's regime
   * floor(sf / 2^es), modulo 2^RegSize.
   */
  function RegimeAns(c: Config, sfMult: nat): (r: nat)
    requires c.Valid() && sfMult < Pow2(SfWidth(c) + 1)
    ensures r < Pow2(c.regSize)
    ensures r == Abs(Signed(sfMult, SfWidth(c) + 1) / Pow2(c.es)) % Pow2(c.regSize)
  {
    var tmp := Slice(sfMult, c.es, c.regSize);
    var r := if SfSign(c, sfMult) then Neg(tmp, c.regSize) else tmp;
    RegimeAnsValue(c, sfMult, r);
    r
  }

  lemma RegimeAnsValue(c: Config, sfMult: nat, r: nat)
    requires c.Valid() && sfMult < Pow2(SfWidth(c) + 1)
    requires var tmp := Slice(sfMult, c.es, c.regSize);
             r == if SfSign(c, sfMult) then Neg(tmp, c.regSize) else tmp
    ensures r == Abs(Signed(sfMult, SfWidth(c) + 1) / Pow2(c.es)) % Pow2(c.regSize)
  {
    hide *;
    SliceValue(sfMult, c.es, c.regSize);
    var w := SfWidth(c) + 1;
    SfSignIsTop(c, sfMult);
    var v := Signed(sfMult, w);
    var M := Pow2(c.regSize);
    var t := (sfMult - v) / Pow2(w);
    SignedOffset(c, sfMult);
    Pow2Succ(c.regSize);
    assert t * Pow2(c.regSize + 1) * Pow2(c.es) == (2 * t * M) * Pow2(c.es);
    RegimeArith(sfMult, v, t, M, Pow2(c.es), Slice(sfMult, c.es, c.regSize), SfSign(c, sfMult), r);
  }

  /** The arithmetic of `RegimeAns`: the regime bits of a pattern, negated for a negative scale, are |floor(v / P)| mod M. */
  lemma RegimeArith(x: nat, v: int, t: int, M: nat, P: nat, tmp: nat, neg: bool, r: nat)
    requires P > 0 && M > 0 && x == v + (2 * t * M) * P && tmp == (x / P) % M
    requires neg <==> v < 0
    requires r == if neg then (M - tmp) % M else tmp
    ensures r == Abs(v / P) % M
  {
    var q := v / P;
    ShiftByMultiple(v, 2 * t * M, P);
    ShiftByMultiple(q, 2 * t, M);
    FloorSign(v, P);
    if neg {
      NegOfMod(q, M);
    }
  }

  /** Floor division by a positive number keeps the sign. */
  lemma FloorSign(v: int, p: int)
    requires p > 0
    ensures v < 0 <==> v / p < 0
  {
    var q := v / p;
    assert v == q * p + v % p;
    if q < 0 {
      MulGe(-q, p);
      assert q * p == -((-q) * p);
    } else if q > 0 {
      MulGe(q, p);
    }
  }

  /** Negating a residue: (M - q mod M) mod M is (-q) mod M. */
  lemma NegOfMod(q: int, M: nat)
    requires M > 0
    ensures (M - q % M) % M == (-q) % M
  {
    var j := q / M;
    assert M - q % M == -q + (j + 1) * M;
    ShiftByMultiple(-q, j + 1, M);
  }

  /** `ovf_reg`: the top bit of `RegimeAns`. */
  function OvfReg(c: Config, regimeAns: nat): (r: bool)
    requires c.Valid()
    ensures regimeAns < Pow2(c.regSize) ==> (r <==> regimeAns > MaxRegime(c))
  {
    if regimeAns < Pow2(c.regSize) then
      TopBit(regimeAns, c.regSize);
      Bit(regimeAns, c.regSize - 1)
    else
      Bit(regimeAns, c.regSize - 1)
  }

  /** `FinalRegime`: `RegimeAns` saturated at `'0' & (RegSize-1 ones)`. */
  function FinalRegime(c: Config, regimeAns: nat): (r: nat)
    requires c.Valid() && regimeAns < Pow2(c.regSize)
    ensures r <= MaxRegime(c)
    ensures r == if regimeAns <= MaxRegime(c) then regimeAns else MaxRegime(c)
    ensures OvfReg(c, regimeAns) ==> r == MaxRegime(c)
  {
    TopBit(regimeAns, c.regSize);
    if OvfReg(c, regimeAns) then MaxRegime(c) else regimeAns
  }

  /** `ovf_regF`: `FinalRegime` equals the saturation value. */
  function OvfRegF(c: Config, finalRegime: nat): (r: bool)
    requires c.Valid()
    ensures r <==> finalRegime == Pow2(c.regSize - 1) - 1
  {
    finalRegime == MaxRegime(c)
  }

  /** `FinalExp`: zero on regime overflow, at the saturation value, or for a zero fraction product. */
  function FinalExp(c: Config, ovfReg: bool, ovfRegF: bool, nzero: bool, expBits: nat): (r: nat)
    requires expBits < Pow2(c.es)
    ensures r < Pow2(c.es)
    ensures ovfReg || ovfRegF || !nzero ==> r == 0
    ensures !ovfReg && !ovfRegF && nzero ==> r == expBits
  {
    if ovfReg || ovfRegF || !nzero then 0 else expBits
  }

  // ---------------------------------------------------------------------
  // Packing stage 1
  // ---------------------------------------------------------------------

  /** The fraction bits below the hidden bit: `normFrac(mult_size-2 downto 0)`. */
  function LowFrac(c: Config, normFrac: nat): (r: nat)
    requires c.Valid()
    ensures r < Pow2(MultSize(c) - 1)
  {
    normFrac % Pow2(MultSize(c) - 1)
  }

  /** The layout `b1 & b2 & FinalExp & normFrac(mult_size-2 downto 0)` shared by `tmp1` and `tmp2`. */
  function Layout(c: Config, b1: bool, b2: bool, finalExp: nat, normFrac: nat): (r: nat)
    requires c.Valid() && finalExp < Pow2(c.es)
    ensures r < Pow2(PackWidth(c))
    ensures r == FromBits([b1, b2] + BitsOf(finalExp, c.es) + BitsOf(LowFrac(c, normFrac), MultSize(c) - 1))
  {
    var lo := MultSize(c) - 1;
    var f := LowFrac(c, normFrac);
    assert PackWidth(c) == 2 + (c.es + lo);
    LayoutValue(b1, b2, finalExp, c.es, f, lo);
    B(b1) * Pow2(PackWidth(c) - 1) + B(b2) * Pow2(PackWidth(c) - 2) + finalExp * Pow2(lo) + f
  }

  /** Two bits, an a-bit field and a b-bit field, read as one number. */
  lemma LayoutValue(b1: bool, b2: bool, e: nat, a: nat, f: nat, b: nat)
    requires e < Pow2(a) && f < Pow2(b)
    ensures FromBits([b1, b2] + BitsOf(e, a) + BitsOf(f, b))
         == B(b1) * Pow2(a + b + 1) + B(b2) * Pow2(a + b) + e * Pow2(b) + f
  {
    hide *;
    var head := [b1, b2] + BitsOf(e, a);
    HeadValue(b1, b2, e, a);
    FromBitsAppend(head, BitsOf(f, b));
    FromBitsOfFits(f, b);
    Pow2Add(a, b);
    Pow2Succ(a + b);
    LayoutArith(B(b1), B(b2), e, f, Pow2(a), Pow2(b), Pow2(a + b), Pow2(a + b + 1));
  }

  lemma HeadValue(b1: bool, b2: bool, e: nat, a: nat)
    requires e < Pow2(a)
    ensures FromBits([b1, b2] + BitsOf(e, a)) == (2 * B(b1) + B(b2)) * Pow2(a) + e
  {
    FromBitsAppend([b1, b2], BitsOf(e, a));
    FromBitsOfFits(e, a);
    TwoBits(b1, b2);
  }

  lemma TwoBits(b1: bool, b2: bool)
    ensures FromBits([b1, b2]) == 2 * B(b1) + B(b2)
  {
    assert [b1, b2][1..] == [b2];
    assert [b2][1..] == [];
  }

  lemma LayoutArith(x1: nat, x2: nat, e: nat, f: nat, p: nat, q: nat, pq: nat, pq2: nat)
    requires pq == p * q && pq2 == 2 * pq
    ensures ((2 * x1 + x2) * p + e) * q + f == x1 * pq2 + x2 * pq + e * q + f
  {
  }

  /** `tmp1 <= nzero & '0' & FinalExp & normFrac(...)`, the shifter input for a non-negative scale. */
  function Tmp1(c: Config, nzero: bool, finalExp: nat, normFrac: nat): (r: nat)
    requires c.Valid() && finalExp < Pow2(c.es)
    ensures r < Pow2(PackWidth(c))
    ensures r == FromBits([nzero, false] + BitsOf(finalExp, c.es) + BitsOf(LowFrac(c, normFrac), MultSize(c) - 1))
  {
    Layout(c, nzero, false, finalExp, normFrac)
  }

  /** `tmp2 <= '0' & nzero & FinalExp & normFrac(...)`, the shifter input for a negative scale. */
  function Tmp2(c: Config, nzero: bool, finalExp: nat, normFrac: nat): (r: nat)
    requires c.Valid() && finalExp < Pow2(c.es)
    ensures r < Pow2(PackWidth(c))
    ensures r == FromBits([false, nzero] + BitsOf(finalExp, c.es) + BitsOf(LowFrac(c, normFrac), MultSize(c) - 1))
  {
    Layout(c, false, nzero, finalExp, normFrac)
  }

  /** `shift_neg`: `FinalRegime - 2` at saturation, else `FinalRegime - 1`, in RegSize bits. */
  function ShiftNeg(c: Config, finalRegime: nat, ovfRegF: bool): (r: nat)
    requires c.Valid() && finalRegime < Pow2(c.regSize)
    ensures r < Pow2(c.regSize)
    ensures finalRegime >= (if ovfRegF then 2 else 1) ==> r == finalRegime - (if ovfRegF then 2 else 1)
  {
    var v := finalRegime - (if ovfRegF then 2 else 1);
    if v >= 0 then
      DivModUnique(v, Pow2(c.regSize), 0, v);
      ToTwos(v, c.regSize)
    else
      ToTwos(v, c.regSize)
  }

  /** `shift_pos`: `FinalRegime - 1` at saturation, else `FinalRegime`, in RegSize bits. */
  function ShiftPos(c: Config, finalRegime: nat, ovfRegF: bool): (r: nat)
    requires c.Valid() && finalRegime < Pow2(c.regSize)
    ensures r < Pow2(c.regSize)
    ensures finalRegime >= B(ovfRegF) ==> r == finalRegime - B(ovfRegF)
  {
    var v := finalRegime - B(ovfRegF);
    if v >= 0 then
      DivModUnique(v, Pow2(c.regSize), 0, v);
      ToTwos(v, c.regSize)
    else
      ToTwos(v, c.regSize)
  }

  // ---------------------------------------------------------------------
  // Packing stage 2: rounding on the shifter output
  // ---------------------------------------------------------------------

  /** `tmp_ans`: the top N-1 bits of `shifter_out`. */
  function TmpAns(c: Config, out: nat): (r: nat)
    requires c.Valid() && out < Pow2(ShiftSize(c))
    ensures r < Pow2(c.n - 1)
    ensures r == out / Pow2(RoundBits(c))
  {
    assert RoundBits(c) + (c.n - 1) == ShiftSize(c);
    SliceTop(out, RoundBits(c), c.n - 1);
    Slice(out, RoundBits(c), c.n - 1)
  }

  /** `LSB`: the lowest bit of `tmp_ans`, set when `tmp_ans` is odd. */
  function Lsb(c: Config, out: nat): (r: bool)
    requires c.Valid()
    ensures out < Pow2(ShiftSize(c)) ==> (r <==> TmpAns(c, out) % 2 == 1)
  {
    Bit(out, RoundBits(c))
  }

  /** `G`: the guard bit, just below `tmp_ans`, set when the dropped bits reach half an LSB. */
  function Guard(c: Config, out: nat): (r: bool)
    requires c.Valid()
    ensures r <==> out % Pow2(RoundBits(c)) >= Pow2(RoundBits(c) - 1)
  {
    var k := RoundBits(c);
    TopSplit(out, k);
    assert Pow2(k) == 2 * Pow2(k - 1);
    Bit(out, k - 1)
  }

  /** `R`: the bit below the guard bit, set when the bits below `G` reach a quarter of an LSB. */
  function RoundBit(c: Config, out: nat): (r: bool)
    requires c.Valid()
    ensures r <==> out % Pow2(RoundBits(c) - 1) >= Pow2(RoundBits(c) - 2)
  {
    var k := RoundBits(c) - 1;
    TopSplit(out, k);
    assert Pow2(k) == 2 * Pow2(k - 1);
    Bit(out, k - 1)
  }

  /** `S`: the OR of all the bits below `R`, set when they are not all zero. */
  function Sticky(c: Config, out: nat): (r: bool)
    requires c.Valid()
    ensures r <==> out % Pow2(RoundBits(c) - 2) != 0
  {
    SliceLow(out, RoundBits(c) - 2);
    Slice(out, 0, RoundBits(c) - 2) != 0
  }

  /** `round <= G AND (LSB OR R OR S)`, forced to '0' when `ovf_reg OR ovf_regF`. */
  function Round(c: Config, out: nat, saturated: bool): (r: bool)
    requires c.Valid()
    ensures r ==> !saturated && Guard(c, out)
  {
    if !saturated then Guard(c, out) && (Lsb(c, out) || RoundBit(c, out) || Sticky(c, out)) else false
  }

  /**
   * The rounding is round-to-nearest, ties-to-even, of the shifter output
   * to its top N-1 bits: with D the dropped low bits and half the weight of
   * the guard bit, `round` is set exactly when D > half, or D = half and
   * `tmp_ans` is odd, unless the regime saturated.
   */
  lemma RoundIsNearestEven(c: Config, out: nat, saturated: bool)
    requires c.Valid()
    ensures var d, half := out % Pow2(RoundBits(c)), Pow2(RoundBits(c) - 1);
            Round(c, out, saturated) <==> !saturated && (d > half || (d == half && Lsb(c, out)))
  {
    var k := RoundBits(c);
    TopSplit(out, k);
    TopSplit(out, k - 1);
    assert Pow2(0) == 1;
    SliceLow(out, k - 2);
    assert Pow2(k - 1) == 2 * Pow2(k - 2);
  }

  // ---------------------------------------------------------------------
  // Output
  // ---------------------------------------------------------------------

  /**
   * `Output`: NaR when `inf`, zero when `z`, else `'0' & (tmp_ans + round)`
   * (an N-1-bit sum), two's-complement negated in N bits when `sign` is set.
   * The decoder reads it back as NaR, as zero, or, for a sum that neither
   * is zero nor wraps, with the sign `sign` and the magnitude the sum.
   */
  function Output(c: Config, inf: bool, z: bool, sign: bool, tmpAns: nat, round: bool): (r: nat)
    requires c.Valid() && tmpAns < Pow2(c.n - 1)
    ensures r < Pow2(c.n)
    ensures inf ==> r == NaR(c)
    ensures !inf && z ==> r == 0
    ensures !inf && !z ==> r == SignApply(c, sign, (tmpAns + B(round)) % Pow2(c.n - 1))
    ensures inf ==> Decode(c, r).inf
    ensures !inf && z ==> Decode(c, r).z
    ensures !inf && !z && 1 <= tmpAns + B(round) < Pow2(c.n - 1)
            ==> && r != 0 && r != NaR(c)
                && Decode(c, r).sign == sign && Twos(c, r) == tmpAns + B(round)
  {
    var P := Pow2(c.n - 1);
    assert Pow2(c.n) == 2 * P;
    if inf then NaR(c)
    else if z then 0
    else
      var m := (tmpAns + B(round)) % P;
      SignApplyDecodes(c, sign, m);
      if 1 <= tmpAns + B(round) < P then
        DivModUnique(tmpAns + B(round), P, 0, tmpAns + B(round));
        SignApply(c, sign, m)
      else SignApply(c, sign, m)
  }

  /** `'0' & m` when the sign is '0', `NOT('0' & m) + 1` when it is '1'. */
  function SignApply(c: Config, sign: bool, m: nat): (r: nat)
    requires c.Valid() && m < Pow2(c.n - 1)
    ensures r < Pow2(c.n)
    ensures r == 0 <==> m == 0
    ensures sign && m != 0 ==> r == Pow2(c.n) - m
  {
    var P := Pow2(c.n - 1);
    assert Pow2(c.n) == 2 * P;
    if sign then
      if m == 0 then
        DivModUnique(2 * P, 2 * P, 1, 0);
        Neg(m, c.n)
      else
        DivModUnique(2 * P - m, 2 * P, 0, 2 * P - m);
        Neg(m, c.n)
    else m
  }

  /**
   * What the decoder reads back from `SignApply`: a nonzero magnitude m
   * comes back as the sign and as `twos`; a zero magnitude gives zero.
   */
  lemma SignApplyDecodes(c: Config, sign: bool, m: nat)
    requires c.Valid() && m < Pow2(c.n - 1)
    ensures m == 0 ==> SignApply(c, sign, m) == 0
    ensures m != 0 ==> (Decode(c, SignApply(c, sign, m)).sign == sign
                        && Twos(c, SignApply(c, sign, m)) == m
                        && SignApply(c, sign, m) != NaR(c) && SignApply(c, sign, m) != 0)
  {
    var P := Pow2(c.n - 1);
    assert Pow2(c.n) == 2 * P;
    var o := SignApply(c, sign, m);
    InputSplit(c, o);
    if sign {
      if m == 0 {
        DivModUnique(2 * P, 2 * P, 1, 0);
      } else {
        DivModUnique(2 * P - m, 2 * P, 0, 2 * P - m);
        assert o == 2 * P - m;
        DivModUnique(o, P, 1, P - m);
        assert Low(c, o) == P - m;
        DivModUnique(m, P, 0, m);
      }
    } else {
      DivModUnique(m, P, 0, m);
    }
  }

  // ---------------------------------------------------------------------
  // The whole operator
  // ---------------------------------------------------------------------

  /** The decoder outputs the multiplier reads, within their port widths. */
  predicate Fits(c: Config, d: Decoded)
    requires c.Valid()
  {
    d.reg < Pow2(c.regSize) && d.exp < Pow2(c.es) && d.frac < Pow2(c.FracSize())
  }

  /** The signals of the sections "Sign and Special Cases" and "Multiply the fractions, add the exponent values". */
  datatype ProductSignals = ProductSignals(
    sign: bool, z: bool, inf: bool,
    fracMult: nat, ovfM: bool, normFrac: nat, sfMult: nat)

  predicate ProductFits(c: Config, p: ProductSignals)
    requires c.Valid()
  {
    p.fracMult < Pow2(MultSize(c)) && p.normFrac < Pow2(MultSize(c) + 1) && p.sfMult < Pow2(SfWidth(c) + 1)
  }

  /** Signs, special cases, the fraction product and the scale sum of two decoded operands. */
  function ProductStage(c: Config, dA: Decoded, dB: Decoded): (p: ProductSignals)
    requires c.Valid() && Fits(c, dA) && Fits(c, dB)
    ensures ProductFits(c, p)
    ensures Signed(p.sfMult, SfWidth(c) + 1)
         == Signed(dA.reg, c.regSize) * Pow2(c.es) + dA.exp
          + Signed(dB.reg, c.regSize) * Pow2(c.es) + dB.exp + B(p.ovfM)
  {
    var sfA := ScaleFactor(c, dA.reg, dA.exp);
    var sfB := ScaleFactor(c, dB.reg, dB.exp);
    var fracMult := Product(dA.frac, c.FracSize(), dB.frac, c.FracSize());
    var ovfM := OvfM(c, fracMult);
    ProductSignals(dA.sign != dB.sign, dA.z || dB.z, dA.inf || dB.inf,
                   fracMult, ovfM, NormFrac(c, fracMult), SfMult(c, sfA, sfB, ovfM))
  }

  /** The signals of the section "Compute Regime and Exponent value". */
  datatype RegimeSignals = RegimeSignals(
    sfSign: bool, nzero: bool, expBits: nat, regimeAns: nat, ovfReg: bool,
    finalRegime: nat, ovfRegF: bool, finalExp: nat)

  /** The regime and exponent of the product, unpacked from `sf_mult` and saturated. */
  function RegimeStage(c: Config, p: ProductSignals): (u: RegimeSignals)
    requires c.Valid() && ProductFits(c, p)
    ensures u.regimeAns < Pow2(c.regSize) && u.finalRegime <= MaxRegime(c) && u.finalExp < Pow2(c.es)
  {
    var sfSign := SfSign(c, p.sfMult);
    var nzero := p.fracMult != 0;
    var expBits := ExpBits(c, p.sfMult);
    var regimeAns := RegimeAns(c, p.sfMult);
    var ovfReg := OvfReg(c, regimeAns);
    var finalRegime := FinalRegime(c, regimeAns);
    var ovfRegF := OvfRegF(c, finalRegime);
    RegimeSignals(sfSign, nzero, expBits, regimeAns, ovfReg, finalRegime, ovfRegF,
                  FinalExp(c, ovfReg, ovfRegF, nzero, expBits))
  }

  /** The signals of the sections "Packing Stage 1" and "Packing Stage 2". */
  datatype PackSignals = PackSignals(
    shifterIn: nat, shifterS: nat, shifterOut: nat, tmpAns: nat, round: bool)

  /** The shifter input and shift amount chosen by `sf_sign`, the shift, and the rounding bits. */
  function PackStage(c: Config, p: ProductSignals, u: RegimeSignals): (k: PackSignals)
    requires c.Valid() && u.finalRegime <= MaxRegime(c) && u.finalExp < Pow2(c.es)
    ensures k.shifterIn < Pow2(PackWidth(c)) && k.shifterOut < Pow2(ShiftSize(c)) && k.tmpAns < Pow2(c.n - 1)
  {
    var shifterIn := if u.sfSign then Tmp2(c, u.nzero, u.finalExp, p.normFrac)
                     else Tmp1(c, u.nzero, u.finalExp, p.normFrac);
    assert MaxRegime(c) < Pow2(c.regSize);
    var shifterS := if u.sfSign then ShiftNeg(c, u.finalRegime, u.ovfRegF)
                    else ShiftPos(c, u.finalRegime, u.ovfRegF);
    var shifterOut := ShiftRightSigned(shifterIn, shifterS, PackWidth(c), c.n);
    PackSignals(shifterIn, shifterS, shifterOut, TmpAns(c, shifterOut),
                Round(c, shifterOut, u.ovfReg || u.ovfRegF))
  }

  /** All the internal signals of one multiplication and its `Output`. */
  datatype Signals = Signals(prod: ProductSignals, regime: RegimeSignals, pack: PackSignals, output: nat)

  /** Every signal of the datapath within its declared width. */
  predicate SignalsFit(c: Config, t: Signals)
    requires c.Valid()
  {
    && ProductFits(c, t.prod)
    && t.regime.regimeAns < Pow2(c.regSize) && t.regime.finalRegime <= MaxRegime(c)
    && t.regime.finalExp < Pow2(c.es)
    && t.pack.shifterOut < Pow2(ShiftSize(c)) && t.pack.tmpAns < Pow2(c.n - 1)
    && t.output < Pow2(c.n)
  }

  /** The three stages of the multiplier and its `Output`, in dataflow order, on two decoded operands. */
  function Stages(c: Config, dA: Decoded, dB: Decoded): (t: Signals)
    requires c.Valid() && Fits(c, dA) && Fits(c, dB)
    ensures SignalsFit(c, t)
  {
    var p := ProductStage(c, dA, dB);
    var u := RegimeStage(c, p);
    var k := PackStage(c, p, u);
    Signals(p, u, k, Output(c, p.inf, p.z, p.sign, k.tmpAns, k.round))
  }

  /** The two decoder instances of the port maps, then the stages. */
  function Datapath(c: Config, a: nat, b: nat): (t: Signals)
    requires c.Valid() && a < Pow2(c.n) && b < Pow2(c.n)
    ensures SignalsFit(c, t)
  {
    Stages(c, Decode(c, a), Decode(c, b))
  }

  /** The operator's `Output` for inputs `InputA` and `InputB`. */
  function Multiply(c: Config, a: nat, b: nat): (r: nat)
    requires c.Valid() && a < Pow2(c.n) && b < Pow2(c.n)
    ensures r < Pow2(c.n)
  {
    Datapath(c, a, b).output
  }
}
