/**
 * Behaviour assumed of the FloPoCo sub-operators that the posit decoder
 * and multiplier instantiate by name.  Their sources are not part of this
 * model; each function below states the function the instance computes
 * for the parameters used: LZOC (count leading zeros), Shifter with
 * dir=0 (left shift), Shifter_signed with dir=1 (right shift filling with
 * the sign bit), and IntMultiplier with wOut=0 (full product).
 */
module SubOperators {
  import opened Bits

  /**
   * LZOC with OZB = '0': the number of leading zero bits of a w-bit input,
   * w for an all-zero input.
   */
  function LeadingZeros(x: nat, w: nat): (r: nat)
    requires x < Pow2(w)
    ensures r <= w
    ensures x < Pow2(w - r)
    ensures r < w ==> Pow2(w - r - 1) <= x
    decreases w
  {
    if w == 0 then 0
    else if x >= Pow2(w - 1) then 0
    else 1 + LeadingZeros(x, w - 1)
  }

  /**
   * Counting the leading zeros of `x XOR (others => b)` measures the
   * leading run of bits of x that are equal to b.
   */
  lemma {:induction false} LeadingZerosOfXorIsRun(x: nat, w: nat, b: bool)
    requires x < Pow2(w)
    ensures LeadingZeros(XorAll(b, x, w), w) == LeadingRun(BitsOf(x, w), b)
    decreases w
  {
    if w > 0 {
      var s := BitsOf(x, w);
      var low := x % Pow2(w - 1);
      assert s[1..] == BitsOf(low, w - 1);
      TopBit(x, w);
      assert Pow2(w) == 2 * Pow2(w - 1);
      if x >= Pow2(w - 1) {
        DivModUnique(x, Pow2(w - 1), 1, x - Pow2(w - 1));
        assert low == x - Pow2(w - 1);
      } else {
        DivModUnique(x, Pow2(w - 1), 0, x);
        assert low == x;
      }
      if s[0] == b {
        LeadingZerosOfXorIsRun(low, w - 1, b);
        assert XorAll(b, low, w - 1) == XorAll(b, x, w);
      }
    }
  }

  /**
   * Shifter with dir=0 (left shift by s), the result kept within the w
   * bits of the input.
   */
  function ShiftLeft(x: nat, s: nat, w: nat): (r: nat)
    ensures r < Pow2(w)
    ensures x * Pow2(s) < Pow2(w) ==> r == x * Pow2(s)
  {
    if x * Pow2(s) < Pow2(w) then
      DivModUnique(x * Pow2(s), Pow2(w), 0, x * Pow2(s));
      (x * Pow2(s)) % Pow2(w)
    else
      (x * Pow2(s)) % Pow2(w)
  }

  /**
   * Shifter_signed with dir=1: the wIn-bit input x is placed on top of
   * maxShift zero bits and shifted right by s, the vacated top bits being
   * filled with copies of the input's top bit.  The output has
   * wIn + maxShift bits, so no shifted-out bit is lost when s <= maxShift.
   */
  function ShiftRightSigned(x: nat, s: nat, wIn: nat, maxShift: nat): (r: nat)
    requires 1 <= wIn && x < Pow2(wIn)
    ensures r < Pow2(wIn + maxShift)
  {
    ToTwos((Signed(x, wIn) * Pow2(maxShift)) / Pow2(s), wIn + maxShift)
  }

  /**
   * Bit-level reading of the signed right shift: s copies of the top bit,
   * then the input, then maxShift - s zero bits.
   */
  lemma ShiftRightSignedFill(x: nat, s: nat, wIn: nat, maxShift: nat)
    requires 1 <= wIn && x < Pow2(wIn) && s <= maxShift
    ensures ShiftRightSigned(x, s, wIn, maxShift)
         == (if Bit(x, wIn - 1) then (Pow2(s) - 1) * Pow2(wIn + maxShift - s) else 0)
            + x * Pow2(maxShift - s)
  {
    ShiftIsScaling(x, s, wIn, maxShift);
    if Bit(x, wIn - 1) {
      FillNegative(x, s, wIn, maxShift);
    } else {
      FillPositive(x, s, wIn, maxShift);
    }
  }

  /** The signed right shift by s <= maxShift is a multiplication by 2^(maxShift - s), wrapped to the output width. */
  lemma ShiftIsScaling(x: nat, s: nat, wIn: nat, maxShift: nat)
    requires 1 <= wIn && x < Pow2(wIn) && s <= maxShift
    ensures ShiftRightSigned(x, s, wIn, maxShift)
         == (Signed(x, wIn) * Pow2(maxShift - s)) % Pow2(wIn + maxShift)
  {
    ExactShift(Signed(x, wIn), s, maxShift - s);
  }

  /** A negative input, scaled and wrapped, has s ones above its bits. */
  lemma FillNegative(x: nat, s: nat, wIn: nat, maxShift: nat)
    requires 1 <= wIn && x < Pow2(wIn) && s <= maxShift && Bit(x, wIn - 1)
    ensures (Signed(x, wIn) * Pow2(maxShift - s)) % Pow2(wIn + maxShift)
         == (Pow2(s) - 1) * Pow2(wIn + maxShift - s) + x * Pow2(maxShift - s)
  {
    var d := maxShift - s;
    ShiftedFits(x, wIn, d);
    TopBit(x, wIn);
    Pow2Add(wIn, d);
    Pow2Add(s, wIn + d);
    assert wIn + maxShift - s == wIn + d && wIn + maxShift == s + (wIn + d);
    NegativeFill(x, Pow2(d), Pow2(wIn), Pow2(s), Pow2(wIn + d), Pow2(wIn + maxShift));
  }

  /** A non-negative input, scaled, fits and is not wrapped. */
  lemma FillPositive(x: nat, s: nat, wIn: nat, maxShift: nat)
    requires 1 <= wIn && x < Pow2(wIn) && s <= maxShift && !Bit(x, wIn - 1)
    ensures (Signed(x, wIn) * Pow2(maxShift - s)) % Pow2(wIn + maxShift) == x * Pow2(maxShift - s)
  {
    var d := maxShift - s;
    var v := Signed(x, wIn);
    assert v == x;
    ShiftedFits(x, wIn, d);
    Pow2Le(wIn + d, wIn + maxShift);
    SmallMod(x * Pow2(d), Pow2(wIn + maxShift));
  }

  /** The arithmetic behind a right shift of a negative input. */
  lemma NegativeFill(x: nat, p: nat, a: nat, sp: nat, q: nat, t: nat)
    requires x < a && q == a * p && t == sp * q && sp >= 1 && x * p < q
    ensures ((x - a) * p) % t == (sp - 1) * q + x * p
  {
    assert (x - a) * p == x * p - q;
    assert (sp - 1) * q == t - q;
    DivModUnique((x - a) * p, t, -1, (sp - 1) * q + x * p);
  }

  /** Multiplying by 2^(s+d) and dividing by 2^s is multiplying by 2^d. */
  lemma ExactShift(v: int, s: nat, d: nat)
    ensures (v * Pow2(s + d)) / Pow2(s) == v * Pow2(d)
  {
    Pow2Add(d, s);
    assert v * Pow2(s + d) == (v * Pow2(d)) * Pow2(s);
    DivModUnique(v * Pow2(s + d), Pow2(s), v * Pow2(d), 0);
  }

  lemma ShiftedFits(x: nat, w: nat, d: nat)
    requires x < Pow2(w)
    ensures x * Pow2(d) < Pow2(w + d)
  {
    Pow2Add(w, d);
    MulLe(x + 1, Pow2(w), Pow2(d));
  }

  /**
   * The signed right shift read on bit strings: an input starting with b
   * and then !b comes out as s+1 copies of b, then !b and the rest of the
   * input, then maxShift - s zeros.
   */
  lemma ShiftRightSignedString(b: bool, tail: seq<bool>, s: nat, maxShift: nat)
    requires s <= maxShift
    ensures ShiftRightSigned(FromBits([b, !b] + tail), s, |tail| + 2, maxShift)
         == FromBits(Repeat(b, s + 1) + [!b] + tail) * Pow2(maxShift - s)
  {
    var head := [b, !b] + tail;
    var wIn := |tail| + 2;
    var x := FromBits(head);
    BitOfFromBits(head, wIn - 1);
    ShiftRightSignedFill(x, s, wIn, maxShift);
    assert Repeat(b, s + 1) + [!b] + tail == Repeat(b, s) + head;
    FromBitsAppend(Repeat(b, s), head);
    FromBitsRepeat(b, s);
    Pow2Add(wIn, maxShift - s);
    assert wIn + maxShift - s == wIn + (maxShift - s);
    FillArith(FromBits(Repeat(b, s)), x, Pow2(wIn), Pow2(maxShift - s));
  }

  lemma FillArith(f: nat, x: nat, p: nat, q: nat)
    ensures (f * p + x) * q == f * (p * q) + x * q
  {
  }

  /** IntMultiplier with wOut=0: the full wx+wy-bit product. */
  function Product(x: nat, wx: nat, y: nat, wy: nat): (r: nat)
    requires x < Pow2(wx) && y < Pow2(wy)
    ensures r < Pow2(wx + wy)
  {
    MulBound(x, wx, y, wy);
    x * y
  }
}
