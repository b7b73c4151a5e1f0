/**
 * The PositDecoder operator: the combinational signal equations that split
 * an N-bit posit into its sign, regime, exponent and fraction and flag the
 * two special patterns.  Each function below is one signal (or one output
 * port) of the generated architecture.
 */
module PositDecoder {
  import opened Bits
  import opened SubOperators
  import opened PositFormat

  /**
   * The output ports: Sign, Reg (regSize bits, two's complement), Exp (es
   * bits, a single '0' when es = 0), Frac (FracSize bits, hidden bit on
   * top), z and inf.
   */
  datatype Decoded = Decoded(sign: bool, reg: nat, exp: nat, frac: nat, z: bool, inf: bool)

  /** `Input(N-2 downto 0)`. */
  function Low(c: Config, x: nat): (r: nat)
    requires c.Valid()
    ensures r < Pow2(c.n - 1)
  {
    x % Pow2(c.n - 1)
  }

  /** `my_sign`: `Input(N-1)`. */
  function SignBit(c: Config, x: nat): (r: bool)
    requires c.Valid()
    ensures x < Pow2(c.n) ==> (r <==> x >= Pow2(c.n - 1))
  {
    if x < Pow2(c.n) then
      TopBit(x, c.n);
      Bit(x, c.n - 1)
    else
      Bit(x, c.n - 1)
  }

  /** `nzero`: '0' when `Input(N-2 downto 0) = 0`, that is for zero and NaR only. */
  function NZero(c: Config, x: nat): (r: bool)
    requires c.Valid()
    ensures x < Pow2(c.n) ==> (r <==> x != 0 && x != NaR(c))
  {
    if x < Pow2(c.n) then
      InputSplit(c, x);
      Low(c, x) != 0
    else
      Low(c, x) != 0
  }

  /** An input is its sign bit on top of its low N-1 bits. */
  lemma InputSplit(c: Config, x: nat)
    requires c.Valid() && x < Pow2(c.n)
    ensures x == B(SignBit(c, x)) * Pow2(c.n - 1) + Low(c, x)
    ensures SignBit(c, x) <==> x >= Pow2(c.n - 1)
  {
    TopBit(x, c.n);
    TopSplit(x, c.n);
    DivModUnique(x, Pow2(c.n), 0, x);
  }

  /**
   * The `twos` equation over w bits, `(rep_s XOR y) + s`: y itself when s
   * is '0', its two's-complement negation when s is '1'.
   */
  function CondNeg(s: bool, y: nat, w: nat): (r: nat)
    requires y < Pow2(w)
    ensures r < Pow2(w)
    ensures !s ==> r == y
    ensures s ==> r == (Pow2(w) - y) % Pow2(w)
  {
    var r := (XorAll(s, y, w) + B(s)) % Pow2(w);
    if s then
      assert r == Neg(y, w);
      r
    else
      DivModUnique(y, Pow2(w), 0, y);
      r
  }

  /** `twos`: the low N-1 bits, negated when the sign bit is set. */
  function Twos(c: Config, x: nat): (r: nat)
    requires c.Valid()
    ensures r < Pow2(c.n - 1)
    ensures !SignBit(c, x) ==> r == Low(c, x)
    ensures SignBit(c, x) ==> r == (Pow2(c.n - 1) - Low(c, x)) % Pow2(c.n - 1)
  {
    CondNeg(SignBit(c, x), Low(c, x), c.n - 1)
  }

  /** `rc`, the regime check bit: `twos(N-2)`. */
  function Rc(c: Config, x: nat): (r: bool)
    requires c.Valid()
    ensures r <==> Twos(c, x) >= Pow2(c.n - 2)
  {
    TopBit(Twos(c, x), c.n - 1);
    Bit(Twos(c, x), c.n - 2)
  }

  /** `inv`: `rep_rc XOR twos`; its top bit is always '0'. */
  function Inv(c: Config, x: nat): (r: nat)
    requires c.Valid()
    ensures r < Pow2(c.n - 2)
  {
    var t := Twos(c, x);
    TopBit(t, c.n - 1);
    assert Pow2(c.n - 1) == 2 * Pow2(c.n - 2);
    XorAll(Rc(c, x), t, c.n - 1)
  }

  /**
   * `zc`, the LZOC count of `inv` over N-1 bits.  Since the top bit of
   * `inv` is '0', the count is at least 1, so `zc - 1` never underflows.
   */
  function Zc(c: Config, x: nat): (r: nat)
    requires c.Valid()
    ensures 1 <= r <= c.n - 1
  {
    var v := Inv(c, x);
    Pow2Le(c.n - 2, c.n - 1);
    LeadingZeros(v, c.n - 1)
  }

  /** `zc_sub`: `zc - 1` in zcWidth bits. */
  function ZcSub(c: Config, x: nat): (r: nat)
    requires c.Valid()
    ensures r == Zc(c, x) - 1
  {
    var r := (Zc(c, x) - 1) % Pow2(c.zcWidth);
    DivModUnique(Zc(c, x) - 1, Pow2(c.zcWidth), 0, Zc(c, x) - 1);
    r
  }

  /** `tmp`: `shifted_twos(N-4 downto 0)`, where the left Shifter shifts `twos` by `zc_sub`. */
  function Tmp(c: Config, x: nat): (r: nat)
    requires c.Valid()
    ensures r < Pow2(c.n - 3)
  {
    Slice(ShiftLeft(Twos(c, x), ZcSub(c, x), c.n - 1), 0, c.n - 3)
  }

  /** `Frac <= nzero & tmp(N-es-4 downto 0)`. */
  function Frac(c: Config, x: nat): (r: nat)
    requires c.Valid()
    ensures r < Pow2(c.FracSize())
  {
    var low := Slice(Tmp(c, x), 0, c.n - c.es - 3);
    ConcatBound(B(NZero(c, x)), 1, low, c.n - c.es - 3);
    B(NZero(c, x)) * Pow2(c.n - c.es - 3) + low
  }

  /** `Exp <= tmp(N-4 downto N-es-3)`, or `"0"` when es = 0. */
  function Exp(c: Config, x: nat): (r: nat)
    requires c.Valid()
    ensures r < Pow2(c.es)
  {
    if c.es > 0 then Slice(Tmp(c, x), c.n - c.es - 3, c.es) else 0
  }

  /** `Reg <= '0' & zc_sub when rc = '1' else NOT('0' & zc) + 1`. */
  function Reg(c: Config, x: nat): (r: nat)
    requires c.Valid()
    ensures r < Pow2(c.regSize)
  {
    assert Pow2(c.regSize) == 2 * Pow2(c.zcWidth);
    if Rc(c, x) then ZcSub(c, x) else Neg(Zc(c, x), c.regSize)
  }

  /** The whole decoder: its output ports for an N-bit input. */
  function Decode(c: Config, x: nat): (d: Decoded)
    requires c.Valid() && x < Pow2(c.n)
    ensures d.reg < Pow2(c.regSize) && d.exp < Pow2(c.es) && d.frac < Pow2(c.FracSize())
    ensures d.sign <==> x >= Pow2(c.n - 1)
    ensures d.z <==> x == 0
    ensures d.inf <==> x == NaR(c)
    ensures !(d.z && d.inf)
    ensures d.frac >= Pow2(c.FracSize() - 1) <==> !d.z && !d.inf
  {
    var sign := SignBit(c, x);
    var nzero := NZero(c, x);
    InputSplit(c, x);
    HiddenBit(c, x);
    Decoded(sign, Reg(c, x), Exp(c, x), Frac(c, x), !(sign || nzero), sign && !nzero)
  }

  /** The top bit of `Frac` is `nzero`. */
  lemma HiddenBit(c: Config, x: nat)
    requires c.Valid()
    ensures Frac(c, x) >= Pow2(c.FracSize() - 1) <==> NZero(c, x)
  {
    assert c.FracSize() - 1 == c.n - c.es - 3;
  }
}
