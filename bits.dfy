/**
 * Fixed-width unsigned bit-vectors as natural numbers.
 *
 * A w-bit signal is a `nat` below `Pow2(w)`; a single bit is a `bool`.
 * The functions here give the meaning of the VHDL operators the posit
 * datapath uses: slicing, concatenation (by multiplication with a power
 * of two), XOR with a replicated bit, `NOT x + 1`, sign extension and the
 * two's-complement reading of a bit pattern.
 */
module Bits {

  function Pow2(k: nat): (r: nat)
    ensures r >= 1
  {
    if k == 0 then 1 else 2 * Pow2(k - 1)
  }

  /** A bit as the number 0 or 1. */
  function B(b: bool): nat
  {
    if b then 1 else 0
  }

  // ---------------------------------------------------------------------
  // Arithmetic facts about powers of two, division and remainder
  // ---------------------------------------------------------------------

  lemma {:induction false} Pow2Add(a: nat, b: nat)
    ensures Pow2(a + b) == Pow2(a) * Pow2(b)
  {
    if b > 0 {
      Pow2Add(a, b - 1);
      assert Pow2(a + b) == 2 * Pow2(a + b - 1);
    }
  }

  lemma {:induction false} Pow2Le(a: nat, b: nat)
    requires a <= b
    ensures Pow2(a) <= Pow2(b)
  {
    if a < b {
      Pow2Le(a, b - 1);
    }
  }

  lemma Pow2Succ(k: nat)
    ensures Pow2(k + 1) == 2 * Pow2(k)
  {
  }

  /** Division and remainder are determined by any decomposition x = q*m + r with 0 <= r < m. */
  lemma DivModUnique(x: int, m: int, q: int, r: int)
    requires m > 0 && 0 <= r < m && x == q * m + r
    ensures x / m == q && x % m == r
  {
    var q', r' := x / m, x % m;
    assert x == q' * m + r';
    assert (q' - q) * m == r - r';
    if q' > q {
      MulGe(q' - q, m);
      assert false;
    } else if q' < q {
      MulGe(q - q', m);
      assert false;
    }
  }

  /** A value in [0, m) is its own remainder. */
  lemma SmallMod(x: int, m: int)
    requires 0 <= x < m
    ensures x % m == x && x / m == 0
  {
    DivModUnique(x, m, 0, x);
  }

  lemma MulOne(x: int, p: int)
    requires p == 1
    ensures x * p == x
  {
  }

  lemma MulGe(a: int, m: int)
    requires a >= 1 && m > 0
    ensures a * m >= m
  {
  }

  lemma MulLe(a: nat, b: nat, m: nat)
    requires a <= b
    ensures a * m <= b * m
  {
  }

  /** Bounds of a two-field concatenation: q below 2^a on top of r below 2^b. */
  lemma ConcatBound(q: nat, a: nat, r: nat, b: nat)
    requires q < Pow2(a) && r < Pow2(b)
    ensures q * Pow2(b) + r < Pow2(a + b)
  {
    Pow2Add(a, b);
    MulLe(q + 1, Pow2(a), Pow2(b));
  }

  lemma MulBound(x: nat, a: nat, y: nat, b: nat)
    requires x < Pow2(a) && y < Pow2(b)
    ensures x * y < Pow2(a + b)
  {
    Pow2Add(a, b);
    MulStrict(x, Pow2(a), y, Pow2(b));
  }

  lemma MulStrict(x: nat, p: nat, y: nat, q: nat)
    requires x < p && y < q
    ensures x * y < p * q
  {
    MulLe(x, p - 1, y);
    MulLe(y, q - 1, p - 1);
    assert (p - 1) * y == y * (p - 1);
    assert (p - 1) * (q - 1) == (q - 1) * (p - 1);
  }

  /** (x / p) / q == x / (p * q). */
  lemma DivDivGeneric(x: nat, p: nat, q: nat)
    requires p > 0 && q > 0
    ensures (x / p) / q == x / (p * q)
  {
    var q1, r1 := x / p, x % p;
    var q2, r2 := q1 / q, q1 % q;
    assert x == q1 * p + r1;
    assert q1 == q2 * q + r2;
    assert x == q2 * (p * q) + (r2 * p + r1) by {
      assert q1 * p == (q2 * q + r2) * p;
      assert (q2 * q + r2) * p == q2 * (p * q) + r2 * p;
    }
    assert r2 * p + r1 < p * q by {
      MulLe(r2, q - 1, p);
      assert (q - 1) * p == q * p - p;
      assert q * p == p * q;
    }
    DivModUnique(x, p * q, q2, r2 * p + r1);
  }

  lemma DivDiv(x: nat, a: nat, b: nat)
    ensures (x / Pow2(a)) / Pow2(b) == x / Pow2(a + b)
  {
    Pow2Add(a, b);
    DivDivGeneric(x, Pow2(a), Pow2(b));
  }

  /** x mod (p*q) mod p == x mod p. */
  lemma ModModGeneric(x: nat, p: nat, q: nat)
    requires p > 0 && q > 0
    ensures (x % (p * q)) % p == x % p
  {
    var k, r := x / (p * q), x % (p * q);
    var k', r' := r / p, r % p;
    assert x == k * (p * q) + r;
    assert r == k' * p + r';
    assert x == (k * q + k') * p + r' by {
      assert k * (p * q) == (k * q) * p;
      assert (k * q) * p + k' * p == (k * q + k') * p;
    }
    DivModUnique(x, p, k * q + k', r');
  }

  lemma ModMod(x: nat, a: nat, b: nat)
    ensures (x % Pow2(a + b)) % Pow2(a) == x % Pow2(a)
  {
    Pow2Add(a, b);
    ModModGeneric(x, Pow2(a), Pow2(b));
  }

  // ---------------------------------------------------------------------
  // Bits and slices
  // ---------------------------------------------------------------------

  /** Bit i of x: VHDL `x(i)`. */
  function Bit(x: nat, i: nat): bool
  {
    (x / Pow2(i)) % 2 == 1
  }

  /** The `width` bits of x starting at bit lo: VHDL `x(lo+width-1 downto lo)`. */
  function Slice(x: nat, lo: nat, width: nat): (r: nat)
    ensures r < Pow2(width)
  {
    (x / Pow2(lo)) % Pow2(width)
  }

  /** The top bit of a w-bit vector is set exactly when the value is at least 2^(w-1). */
  lemma TopBit(x: nat, w: nat)
    requires 1 <= w && x < Pow2(w)
    ensures Bit(x, w - 1) <==> x >= Pow2(w - 1)
  {
    var q, r := x / Pow2(w - 1), x % Pow2(w - 1);
    assert Pow2(w) == 2 * Pow2(w - 1);
    if x >= Pow2(w - 1) {
      DivModUnique(x, Pow2(w - 1), 1, x - Pow2(w - 1));
    } else {
      DivModUnique(x, Pow2(w - 1), 0, x);
    }
  }

  lemma SliceValue(x: nat, lo: nat, width: nat)
    ensures Slice(x, lo, width) == (x / Pow2(lo)) % Pow2(width)
  {
  }

  /** A slice starting at bit 0 is the remainder modulo a power of two. */
  lemma SliceLow(x: nat, width: nat)
    ensures Slice(x, 0, width) == x % Pow2(width)
  {
  }

  /** A slice of a value that fits is its quotient. */
  lemma SliceTop(x: nat, lo: nat, width: nat)
    requires x < Pow2(lo + width)
    ensures Slice(x, lo, width) == x / Pow2(lo)
  {
    Pow2Add(width, lo);
    QuotientFits(x, Pow2(lo), Pow2(width));
  }

  lemma QuotientFits(x: nat, p: nat, q: nat)
    requires p > 0 && q > 0 && x < q * p
    ensures x / p < q && (x / p) % q == x / p
  {
    var d := x / p;
    assert x == d * p + x % p;
    if d >= q {
      MulLe(q, d, p);
      assert false;
    }
    DivModUnique(d, q, 0, d);
  }

  // ---------------------------------------------------------------------
  // Two's-complement operators
  // ---------------------------------------------------------------------

  /** Bitwise complement in w bits: VHDL `NOT x`. */
  function Not(x: nat, w: nat): (r: nat)
    requires x < Pow2(w)
    ensures r < Pow2(w)
  {
    Pow2(w) - 1 - x
  }

  /** `x XOR (others => s)` over w bits. */
  function XorAll(s: bool, x: nat, w: nat): (r: nat)
    requires x < Pow2(w)
    ensures r < Pow2(w)
  {
    if s then Not(x, w) else x
  }

  /** `NOT x + 1` in w bits, the two's-complement negation. */
  function Neg(x: nat, w: nat): (r: nat)
    requires x < Pow2(w)
    ensures r < Pow2(w)
    ensures (x + r) % Pow2(w) == 0
    ensures r == (Pow2(w) - x) % Pow2(w)
  {
    var r := (Not(x, w) + 1) % Pow2(w);
    if x == 0 then
      DivModUnique(Pow2(w), Pow2(w), 1, 0);
      r
    else
      DivModUnique(Pow2(w) - x, Pow2(w), 0, Pow2(w) - x);
      DivModUnique(x + r, Pow2(w), 1, 0);
      r
  }

  /** Negating twice gives back the original bits. */
  lemma NegNeg(x: nat, w: nat)
    requires x < Pow2(w)
    ensures Neg(Neg(x, w), w) == x
  {
    var y := Neg(x, w);
    if x == 0 {
      DivModUnique(Pow2(w), Pow2(w), 1, 0);
    } else {
      DivModUnique(Pow2(w) - x, Pow2(w), 0, Pow2(w) - x);
      DivModUnique(Pow2(w) - y, Pow2(w), 0, x);
    }
  }

  /** The integer a w-bit two's-complement pattern stands for. */
  function Signed(x: nat, w: nat): (v: int)
    requires 1 <= w && x < Pow2(w)
    ensures -(Pow2(w - 1) as int) <= v < Pow2(w - 1)
    ensures v >= 0 <==> !Bit(x, w - 1)
    ensures v == x || v == x - Pow2(w)
  {
    TopBit(x, w);
    if x >= Pow2(w - 1) then x - Pow2(w) else x
  }

  /** `Signed` as a case split on the top half. */
  lemma SignedValue(x: nat, w: nat)
    requires 1 <= w && x < Pow2(w)
    ensures Signed(x, w) == if x >= Pow2(w - 1) then x - Pow2(w) else x
  {
  }

  /** The w-bit two's-complement pattern of an integer (VHDL `to_signed`, wrapping). */
  function ToTwos(v: int, w: nat): (x: nat)
    ensures x < Pow2(w)
  {
    v % Pow2(w)
  }

  lemma ToTwosIsMod(v: int, w: nat)
    ensures ToTwos(v, w) == v % Pow2(w)
  {
  }

  /** Reading back an encoded integer in range gives the integer. */
  lemma SignedToTwos(v: int, w: nat)
    requires 1 <= w && -(Pow2(w - 1) as int) <= v < Pow2(w - 1)
    ensures Signed(ToTwos(v, w), w) == v
  {
    assert Pow2(w) == 2 * Pow2(w - 1);
    if v >= 0 {
      DivModUnique(v, Pow2(w), 0, v);
    } else {
      DivModUnique(v, Pow2(w), -1, v + Pow2(w));
    }
  }

  /** Sign extension by one bit: VHDL `x(x'high) & x`. */
  function Sext(x: nat, w: nat): (r: nat)
    requires 1 <= w && x < Pow2(w)
    ensures r < Pow2(w + 1)
    ensures Signed(r, w + 1) == Signed(x, w)
  {
    TopBit(x, w);
    var r := if Bit(x, w - 1) then Pow2(w) + x else x;
    assert Pow2(w + 1) == 2 * Pow2(w);
    TopBit(r, w + 1);
    r
  }

  // ---------------------------------------------------------------------
  // Bit strings, most significant bit first
  // ---------------------------------------------------------------------

  /** The w bits of x, most significant first. */
  function BitsOf(x: nat, w: nat): (s: seq<bool>)
    ensures |s| == w
    decreases w
  {
    if w == 0 then [] else [Bit(x, w - 1)] + BitsOf(x % Pow2(w - 1), w - 1)
  }

  /** Length of the leading run of bits equal to b. */
  function LeadingRun(s: seq<bool>, b: bool): (r: nat)
    ensures r <= |s|
    ensures forall i :: 0 <= i < r ==> s[i] == b
    ensures r < |s| ==> s[r] != b
  {
    if |s| == 0 || s[0] != b then 0 else 1 + LeadingRun(s[1..], b)
  }

  /** The number a bit string stands for, most significant bit first. */
  function FromBits(s: seq<bool>): (r: nat)
    ensures r < Pow2(|s|)
  {
    if |s| == 0 then 0
    else
      var rest := FromBits(s[1..]);
      assert Pow2(|s|) == 2 * Pow2(|s| - 1);
      B(s[0]) * Pow2(|s| - 1) + rest
  }

  /** A string of k copies of b. */
  function Repeat(b: bool, k: nat): (s: seq<bool>)
    ensures |s| == k && forall i :: 0 <= i < k ==> s[i] == b
  {
    seq(k, _ => b)
  }

  lemma {:induction false} FromBitsAppend(s: seq<bool>, t: seq<bool>)
    ensures FromBits(s + t) == FromBits(s) * Pow2(|t|) + FromBits(t)
  {
    if |s| > 0 {
      var st := s + t;
      assert st[0] == s[0];
      assert st[1..] == s[1..] + t;
      FromBitsAppend(s[1..], t);
      Pow2Add(|s| - 1, |t|);
      assert |st| - 1 == (|s| - 1) + |t|;
      assert FromBits(st) == B(s[0]) * Pow2(|st| - 1) + FromBits(st[1..]);
      assert FromBits(s) == B(s[0]) * Pow2(|s| - 1) + FromBits(s[1..]);
      Distribute(B(s[0]), Pow2(|s| - 1), FromBits(s[1..]), Pow2(|t|));
    } else {
      assert s + t == t;
    }
  }

  lemma Distribute(a: nat, p: nat, x: nat, t: nat)
    ensures a * (p * t) + x * t == (a * p + x) * t
  {
  }

  lemma {:induction false} FromBitsOf(x: nat, w: nat)
    ensures FromBits(BitsOf(x, w)) == x % Pow2(w)
    decreases w
  {
    if w > 0 {
      var low := x % Pow2(w - 1);
      var s := BitsOf(x, w);
      assert s[0] == Bit(x, w - 1);
      assert s[1..] == BitsOf(low, w - 1);
      FromBitsOf(low, w - 1);
      ModOfModSmaller(x, w - 1);
      assert FromBits(s) == B(Bit(x, w - 1)) * Pow2(w - 1) + low;
      TopSplit(x, w);
    } else {
      DivModUnique(x, 1, x, 0);
    }
  }

  lemma ModOfModSmaller(x: nat, w: nat)
    ensures (x % Pow2(w)) % Pow2(w) == x % Pow2(w)
  {
    DivModUnique(x % Pow2(w), Pow2(w), 0, x % Pow2(w));
  }

  /** x mod 2^w splits into bit w-1 and x mod 2^(w-1). */
  lemma TopSplit(x: nat, w: nat)
    requires w >= 1
    ensures x % Pow2(w) == B(Bit(x, w - 1)) * Pow2(w - 1) + x % Pow2(w - 1)
  {
    var p := Pow2(w - 1);
    assert Pow2(w) == 2 * p;
    TopSplitGeneric(x, p);
  }

  lemma TopSplitGeneric(x: nat, p: nat)
    requires p >= 1
    ensures x % (2 * p) == ((x / p) % 2) * p + x % p
  {
    var q := x / p;
    var b := q % 2;
    assert x == q * p + x % p;
    assert q == (q / 2) * 2 + b;
    assert x == (q / 2) * (2 * p) + (b * p + x % p);
    DivModUnique(x, 2 * p, q / 2, b * p + x % p);
  }

  /** Bits of a value that fits, read back, give the value. */
  lemma FromBitsOfFits(x: nat, w: nat)
    requires x < Pow2(w)
    ensures FromBits(BitsOf(x, w)) == x
  {
    FromBitsOf(x, w);
    DivModUnique(x, Pow2(w), 0, x);
  }

  /** Keeping the first k bits of a string divides its value by 2^(|s|-k). */
  lemma FromBitsPrefix(s: seq<bool>, k: nat)
    requires k <= |s|
    ensures FromBits(s[..k]) == FromBits(s) / Pow2(|s| - k)
  {
    assert s == s[..k] + s[k..];
    FromBitsAppend(s[..k], s[k..]);
    DivModUnique(FromBits(s), Pow2(|s| - k), FromBits(s[..k]), FromBits(s[k..]));
  }

  lemma {:induction false} FromBitsRepeat(b: bool, k: nat)
    ensures FromBits(Repeat(b, k)) == if b then Pow2(k) - 1 else 0
  {
    if k > 0 {
      assert Repeat(b, k)[1..] == Repeat(b, k - 1);
      FromBitsRepeat(b, k - 1);
      assert Pow2(k) == 2 * Pow2(k - 1);
    }
  }

  /** A string splits at position j into its prefix, bit j and its suffix. */
  lemma FromBitsAt(s: seq<bool>, j: nat)
    requires j < |s|
    ensures FromBits(s) == FromBits(s[..j]) * Pow2(|s| - j) + B(s[j]) * Pow2(|s| - j - 1) + FromBits(s[j + 1..])
  {
    var t := s[j..];
    assert s == s[..j] + t;
    FromBitsAppend(s[..j], t);
    assert t[0] == s[j] && t[1..] == s[j + 1..];
    FromBitsHead(t);
  }

  lemma FromBitsHead(t: seq<bool>)
    requires |t| > 0
    ensures FromBits(t) == B(t[0]) * Pow2(|t| - 1) + FromBits(t[1..])
  {
  }

  /** Bit i of the value of a string is the string's entry i places from its end. */
  lemma BitOfFromBits(s: seq<bool>, i: nat)
    requires i < |s|
    ensures Bit(FromBits(s), i) == s[|s| - 1 - i]
  {
    var j := |s| - 1 - i;
    FromBitsAt(s, j);
    var hi, b, lo := FromBits(s[..j]), B(s[j]), FromBits(s[j + 1..]);
    assert |s[j + 1..]| == i;
    Pow2Add(1, i);
    BitOfSplit(FromBits(s), hi, b, lo, Pow2(i));
  }

  lemma BitOfSplit(x: nat, hi: nat, b: nat, lo: nat, p: nat)
    requires b < 2 && lo < p && x == hi * (2 * p) + b * p + lo
    ensures (x / p) % 2 == b
  {
    assert x == (hi * 2 + b) * p + lo;
    DivModUnique(x, p, hi * 2 + b, lo);
    DivModUnique(hi * 2 + b, 2, hi, b);
  }

  /** A string with a one at position j is worth at least 2^(|s|-1-j). */
  lemma FromBitsHasOne(s: seq<bool>, j: nat)
    requires j < |s| && s[j]
    ensures FromBits(s) >= Pow2(|s| - 1 - j)
  {
    hide FromBits, Pow2;
    FromBitsAt(s, j);
    MulLe(0, FromBits(s[..j]), Pow2(|s| - j));
  }

  /** A string with a zero at position j is worth less than all ones. */
  lemma FromBitsHasZero(s: seq<bool>, j: nat)
    requires j < |s| && !s[j]
    ensures FromBits(s) < Pow2(|s|) - 1
  {
    FromBitsAt(s, j);
    var hi, lo := FromBits(s[..j]), FromBits(s[j + 1..]);
    var i := |s| - j - 1;
    assert |s[j + 1..]| == i;
    assert Pow2(|s| - j) == 2 * Pow2(i);
    Pow2Add(j, |s| - j);
    FromBitsZeroAt(hi, Pow2(j), lo, Pow2(i));
  }

  lemma FromBitsZeroAt(hi: nat, a: nat, lo: nat, p: nat)
    requires hi < a && lo < p
    ensures hi * (2 * p) + lo < a * (2 * p) - 1
  {
    MulLe(hi + 1, a, 2 * p);
  }

  /** Bit j of x / 2^b is bit b + j of x. */
  lemma BitOfDiv(x: nat, b: nat, j: nat)
    ensures 0 <= x / Pow2(b) && Bit(x / Pow2(b), j) == Bit(x, b + j)
  {
    DivNonneg(x, Pow2(b));
    DivDiv(x, b, j);
  }

  /** Dividing a natural number by a positive one gives a natural number. */
  lemma DivNonneg(x: int, m: int)
    requires x >= 0 && m > 0
    ensures x / m >= 0
  {
    var q := x / m;
    DivModIdentity(x, m);
    if q < 0 {
      MulGe(-q, m);
    }
  }

  /** Below bit b, x mod 2^b has the bits of x. */
  lemma BitOfMod(x: nat, b: nat, j: nat)
    requires j < b
    ensures Bit(x % Pow2(b), j) == Bit(x, j)
  {
    var pj, e := Pow2(j), Pow2(b - j - 1);
    assert Pow2(b - j) == 2 * e;
    Pow2Add(b - j, j);
    assert b - j + j == b;
    assert Pow2(b) == e * 2 * pj;
    var m := Pow2(b);
    DivModIdentity(x, m);
    BitOfModGeneric(x, x / m, x % m, m, pj, e);
  }

  lemma DivModIdentity(x: int, m: int)
    requires m > 0
    ensures x == (x / m) * m + x % m
  {
  }

  lemma BitOfModGeneric(x: nat, hi: int, r: nat, m: nat, pj: nat, e: nat)
    requires pj >= 1 && m == e * 2 * pj && x == hi * m + r
    ensures (x / pj) % 2 == (r / pj) % 2
  {
    assert hi * m == (hi * e * 2) * pj;
    DivModIdentity(r, pj);
    assert x == (hi * e * 2 + r / pj) * pj + r % pj;
    DivModUnique(x, pj, hi * e * 2 + r / pj, r % pj);
    assert hi * e * 2 + r / pj == r / pj + (hi * e) * 2;
    DivModUnique(r / pj + (hi * e) * 2, 2, (r / pj) / 2 + hi * e, (r / pj) % 2);
  }

  /** Entry i of the w bits of x is bit w-1-i of x. */
  lemma {:induction false} BitsOfIndex(x: nat, w: nat, i: nat)
    requires i < w
    ensures BitsOf(x, w)[i] == Bit(x, w - 1 - i)
    decreases w
  {
    if i > 0 {
      BitsOfIndex(x % Pow2(w - 1), w - 1, i - 1);
      BitOfMod(x, w - 1, w - 1 - i);
    }
  }

  /** The a+b bits of x are the a bits of x / 2^b followed by the b bits of x mod 2^b. */
  lemma BitsOfSplit(x: nat, a: nat, b: nat)
    ensures 0 <= x / Pow2(b) && BitsOf(x, a + b) == BitsOf(x / Pow2(b), a) + BitsOf(x % Pow2(b), b)
  {
    DivNonneg(x, Pow2(b));
    var hi, lo := BitsOf(x / Pow2(b), a), BitsOf(x % Pow2(b), b);
    var s, t := BitsOf(x, a + b), hi + lo;
    forall i | 0 <= i < a + b
      ensures s[i] == t[i]
    {
      BitsOfIndex(x, a + b, i);
      if i < a {
        assert t[i] == hi[i];
        BitsOfIndex(x / Pow2(b), a, i);
        BitOfDiv(x, b, a - 1 - i);
        assert b + (a - 1 - i) == a + b - 1 - i;
      } else {
        assert t[i] == lo[i - a];
        BitsOfIndex(x % Pow2(b), b, i - a);
        assert b - 1 - (i - a) == a + b - 1 - i;
        BitOfMod(x, b, a + b - 1 - i);
      }
    }
  }
}
