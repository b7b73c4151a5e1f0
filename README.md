# Posit decoder and multiplier, bit-true

This project models the combinational datapath of two FloPoCo operators
that work on posits, the tapered-precision number format of the Standard
for Posit Arithmetic (2022):

- `PositDecoder` splits an N-bit posit into the following outputs: the sign, the
  zero and NaR flags `z` and `inf`, a two's-complement regime `Reg`, the
  exponent bits `Exp` and a fraction `Frac` whose top bit is the hidden bit.
- `PositMult` joins two decoders. It multiplies the fractions and adds the
  scale factors `reg * 2^es + exp`. It saturates the regime and lays the
  result out for a right shift that fills with the sign bit, so that the
  shift itself writes the regime run. It then rounds with L/G/R/S bits and
  applies the sign.

Every VHDL signal becomes a Dafny function over `nat`s below `2^width`.
Single bits are `bool`. The equations are pure dataflow, so the model is
made of functions and lemmas only. The modules are:

- `Bits`: powers of two, slices, `NOT x + 1`, sign extension, two's-complement
  reading, and bit strings (most significant bit first).
- `SubOperators`: the assumed behaviour of the FloPoCo sub-operators that the
  operators instantiate by name (see "Left out").
- `PositFormat`: the configuration `(N, es, zcWidth, regSize)` and the posit
  encoding by the format (regime string, exponent, fraction, cut off at N-1
  bits, two's complement for negatives).
- `PositDecoder`: the decoder signals. `DecoderProperties` proves what they mean.
- `PositMult`: the multiplier signals, grouped into product, regime and
  packing stages. `MultiplierProperties` proves what they mean.
- `MultiplierIdentity`: multiplying by 1.0 returns the other input. It also
  holds the worked 8-bit examples.

`intlog2` is not shown, so the two widths it yields are parameters:

- `zcWidth` is the width of the leading-zero count over N-1 bits.
- `regSize` is `sizeRegime`/`RegSize`.

`Config.Valid` requires the following:

- `N >= es + 3`, so that the decoder's slices are well formed;
- `N - 1 < 2^zcWidth`;
- `regSize = zcWidth + 1`, so that `'0' & zc_sub` has the width of `Reg`.

If `intlog2` is the bit length, the last condition holds exactly when N is a
power of two. The theorems about the full product (no result of zero or NaR
from finite operands, the identity) therefore assume `Config.PowerOfTwo`.

Four facts about the code shape the model:

- `z` is set only for the all-zero word (`Input(N-1) NOR nzero`).
- The decoder emits `Reg` as a two's-complement number.
- The regime width is `intlog2(N)`.
- The decoder needs `N >= es + 3`.

## Model

| member | source | states |
|---|---|---|
| `Bits.Neg` | Posit/PositDecoder.cpp:163 | `NOT x + 1` in w bits is `(2^w - x) mod 2^w`, and adding it to x gives 0 mod 2^w |
| `Bits.NegNeg` | Posit/PositDecoder.cpp:113-114 | negating twice in w bits gives back x |
| `Bits.Sext` | Posit/PositMult.cpp:131 | `x(x'high) & x` has the same two's-complement value as x |
| `SubOperators.LeadingZeros` | Posit/PositDecoder.cpp:130 | assumed LZOC: the count r is at most w, x is below 2^(w-r), and x is at least 2^(w-r-1) when r < w |
| `SubOperators.LeadingZerosOfXorIsRun` | Posit/PositDecoder.cpp:125-130 | the leading-zero count of `x XOR (others => b)` is the length of the leading run of bits of x that equal b |
| `SubOperators.ShiftLeft` | Posit/PositDecoder.cpp:139 | assumed Shifter with dir=0: the result fits in w bits, and it is exactly x * 2^s when that fits |
| `SubOperators.ShiftRightSigned` | Posit/PositMult.cpp:186 | assumed Shifter_signed with dir=1: the result fits in wIn + maxShift bits; `ShiftRightSignedFill` gives its bits |
| `SubOperators.ShiftRightSignedFill` | Posit/PositMult.cpp:186 | assumed Shifter_signed: shifting by s <= maxShift puts s copies of the top bit above the input and maxShift - s zeros below it |
| `SubOperators.ShiftRightSignedString` | Posit/PositMult.cpp:186 | on a string `b, not b, tail`, the shift by s gives s+1 copies of b, then `not b`, the tail and the zero padding |
| `SubOperators.Product` | Posit/PositMult.cpp:119 | assumed IntMultiplier with wOut=0: the full product fits in wx + wy bits |
| `PositFormat.MagnitudeIsPrefix` | Posit/PositDecoder.cpp:138-156 | the format's magnitude is the string regime + exponent + fraction with everything past N-1 bits dropped |
| `PositDecoder.InputSplit` | Posit/PositDecoder.cpp:106-107 | the input is `Sign` on top of `Input(N-2 downto 0)`, and `Sign` is set exactly when the input is at least 2^(N-1) |
| `PositDecoder.Low` | Posit/PositDecoder.cpp:114 | `Input(N-2 downto 0)` fits in N-1 bits; `InputSplit` puts it back under the sign bit |
| `PositDecoder.SignBit` | Posit/PositDecoder.cpp:106 | `my_sign` is set exactly for the N-bit inputs from 2^(N-1) up |
| `PositDecoder.NZero` | Posit/PositDecoder.cpp:96 | `nzero` is set exactly for the N-bit inputs that are neither zero nor NaR |
| `PositDecoder.Twos` | Posit/PositDecoder.cpp:113-114 | `twos` is `Input(N-2 downto 0)` for sign 0 and its negation mod 2^(N-1) for sign 1; `CondNegInvolution` and `TwosZero` give its inverse and its zeros |
| `PositDecoder.Rc` | Posit/PositDecoder.cpp:116 | `rc` is set exactly when `twos` >= 2^(N-2); `ZcIsRegimeRun` shows it is the bit the regime run repeats |
| `PositDecoder.CondNeg` | Posit/PositDecoder.cpp:113-114 | `twos` is `Input(N-2 downto 0)` for sign 0 and `(2^(N-1) - Input(N-2 downto 0)) mod 2^(N-1)` for sign 1 |
| `PositDecoder.Inv` | Posit/PositDecoder.cpp:125-127 | `inv = rep_rc XOR twos` always has top bit 0 |
| `PositDecoder.Zc` | Posit/PositDecoder.cpp:130-137 | since `inv` has top bit 0, the count satisfies 1 <= zc <= N-1 |
| `PositDecoder.ZcSub` | Posit/PositDecoder.cpp:138 | `zc - 1` in zcWidth bits never underflows: it equals the integer zc - 1 |
| `PositDecoder.Tmp` | Posit/PositDecoder.cpp:139-144 | `tmp` fits in N-3 bits; `TmpIsShift` gives it as `twos * 2^(zc-1)` mod 2^(N-3), and `FieldsExact` shows the shift loses no bit |
| `PositDecoder.Frac` | Posit/PositDecoder.cpp:150 | `Frac` fits in FracSize bits; `HiddenBit` and `FracIsLow` give its top bit and its low bits |
| `PositDecoder.Exp` | Posit/PositDecoder.cpp:151-156 | `Exp` fits in es bits; `ExpIsHigh` gives its bits |
| `PositDecoder.Reg` | Posit/PositDecoder.cpp:162-163 | `Reg` fits in regSize bits; `RegIsRegime` gives its signed value, zc-1 or -zc |
| `PositDecoder.Decode` | Posit/PositDecoder.cpp:96-163 | `z` exactly for the all-zero input, `inf` exactly for `'1'` followed by zeros, never both; `Sign` is bit N-1; the top bit of `Frac` is set exactly for the inputs other than zero and NaR; every port fits its width |
| `PositDecoder.HiddenBit` | Posit/PositDecoder.cpp:150 | the top bit of `Frac` is `nzero` |
| `DecoderProperties.CondNegInvolution` | Posit/PositDecoder.cpp:113-114 | applying the `twos` conditional negation twice gives back the original bits |
| `DecoderProperties.ZcIsRegimeRun` | Posit/PositDecoder.cpp:116-138 | `zc` is the length of the leading run of `twos` bits that equal `rc` |
| `DecoderProperties.RegIsRegime` | Posit/PositDecoder.cpp:162-163 | `Reg`, read as a regSize-bit two's-complement number, is zc - 1 when `rc` = 1 and -zc when `rc` = 0 |
| `DecoderProperties.TmpIsShift` | Posit/PositDecoder.cpp:137-144 | `tmp` is `twos * 2^(zc-1)` mod 2^(N-3) |
| `DecoderProperties.TwosFromFields` | Posit/PositDecoder.cpp:138-156 | `twos` is the regime string of the decoded regime followed by `tmp`, cut back by zc - 1 bits |
| `DecoderProperties.FieldsExact` | Posit/PositDecoder.cpp:138-144 | for a nonzero `twos`, the left shift by zc - 1 loses no bit |
| `DecoderProperties.NonzeroRegimeRange` | Posit/PositDecoder.cpp:162-163 | for every input other than zero and NaR, the regime lies in [-(N-2), N-2] |
| `DecoderProperties.TwosZero` | Posit/PositDecoder.cpp:96-114 | `twos` is 0 exactly for zero and NaR |
| `DecoderProperties.ExpIsHigh` | Posit/PositDecoder.cpp:151-156 | `Exp` is the es bits of `tmp` above the fraction bits, and 0 when es = 0 |
| `DecoderProperties.FracIsLow` | Posit/PositDecoder.cpp:150 | below the hidden bit, `Frac` holds the low N-es-3 bits of `tmp` |
| `DecoderProperties.MagnitudeOfFields` | Posit/PositDecoder.cpp:113-156 | the format's magnitude of the decoded regime, exponent and fraction bits is `twos` |
| `DecoderProperties.DecodeEncodeRoundTrip` | Posit/PositDecoder.cpp:91-163 | re-encoding the decoded sign, regime, exponent and fraction gives back every N-bit input, zero and NaR included |
| `DecoderProperties.EncodeDecodeRoundTrip` | Posit/PositDecoder.cpp:91-163 | decoding an encoding gives zero or NaR for a zero magnitude; otherwise it gives back the sign, `twos` is the magnitude, and the decoded fields have that magnitude |
| `PositMult.ScaleFactor` | Posit/PositMult.cpp:98-104 | `sf = reg & exp`, read as two's complement, is `reg * 2^es + exp` |
| `PositMult.SfMult` | Posit/PositMult.cpp:131 | `sf_mult` is exactly `sf_A + sf_B + ovf_m` as integers, with no wrap-around |
| `PositMult.OvfM` | Posit/PositMult.cpp:127 | `ovf_m` is set exactly when `frac_mult` >= 2^(mult_size-1) |
| `PositMult.NormFrac` | Posit/PositMult.cpp:129-130 | `normFrac` fits in mult_size+1 bits; `NormalisedProduct` gives its top two bits as 0 then 1 |
| `PositMult.SfSign` | Posit/PositMult.cpp:133 | `sf_sign` is set exactly when `sf_mult` >= 2^(RegSize+es); `SfSignIsTop` reads it as the sign of the scale sum |
| `PositMult.SfSignIsTop` | Posit/PositMult.cpp:133 | `sf_sign` is set exactly when the scale sum is negative |
| `PositMult.ExpBits` | Posit/PositMult.cpp:144-145 | `ExpBits` is the scale sum mod 2^es |
| `PositMult.RegimeAns` | Posit/PositMult.cpp:146-149 | `RegimeAns` is the absolute value of floor(scale / 2^es), mod 2^RegSize |
| `PositMult.OvfReg` | Posit/PositMult.cpp:152 | `ovf_reg` is set exactly when `RegimeAns` exceeds the saturation value 2^(RegSize-1)-1 |
| `PositMult.FinalRegime` | Posit/PositMult.cpp:151-154 | `FinalRegime` is at most 2^(RegSize-1) - 1, equals that maximum when `ovf_reg` is set, and is `RegimeAns` otherwise |
| `PositMult.OvfRegF` | Posit/PositMult.cpp:157 | `ovf_regF` is set exactly when `FinalRegime` is the saturation value; `RegimeStageSaturation` gives it as abs(q) >= N-1 |
| `PositMult.FinalExp` | Posit/PositMult.cpp:157-162 | `FinalExp` is 0 when `ovf_reg`, `ovf_regF` or `nzero = 0`, and `ExpBits` otherwise |
| `PositMult.Layout` | Posit/PositMult.cpp:168-175 | `tmp1`/`tmp2` are the two leading bits, the es bits of `FinalExp` and `normFrac(mult_size-2 downto 0)`, concatenated |
| `PositMult.LowFrac` | Posit/PositMult.cpp:168-175 | `normFrac(mult_size-2 downto 0)` fits in mult_size-1 bits; `KeptBitsAreMagnitude` shows which of them the result keeps |
| `PositMult.Tmp1` | Posit/PositMult.cpp:168-171 | `tmp1` is the bit string `nzero`, '0', `FinalExp`, `normFrac(mult_size-2 downto 0)` |
| `PositMult.Tmp2` | Posit/PositMult.cpp:172-175 | `tmp2` is the bit string '0', `nzero`, `FinalExp`, `normFrac(mult_size-2 downto 0)` |
| `PositMult.ShiftNeg` | Posit/PositMult.cpp:177-178 | `shift_neg` is `FinalRegime - 2` when `ovf_regF`, else `FinalRegime - 1`, whenever that is not negative |
| `PositMult.ShiftPos` | Posit/PositMult.cpp:179-180 | `shift_pos` is `FinalRegime - 1` when `ovf_regF`, else `FinalRegime` |
| `PositMult.TmpAns` | Posit/PositMult.cpp:191-192 | `tmp_ans` is the top N-1 bits of the shifter output |
| `PositMult.Lsb` | Posit/PositMult.cpp:198 | `LSB` is set exactly when `tmp_ans` is odd |
| `PositMult.Guard` | Posit/PositMult.cpp:199 | `G` is set exactly when the dropped bits reach half an LSB |
| `PositMult.RoundBit` | Posit/PositMult.cpp:200 | `R` is set exactly when the dropped bits below `G` reach a quarter of an LSB |
| `PositMult.Sticky` | Posit/PositMult.cpp:201 | `S` is set exactly when the dropped bits below `R` are not all zero |
| `PositMult.Round` | Posit/PositMult.cpp:203 | `round` is never set at saturation or without `G`; `RoundIsNearestEven` gives it as round-to-nearest, ties-to-even |
| `PositMult.RoundIsNearestEven` | Posit/PositMult.cpp:197-203 | `round = G AND (LSB OR R OR S)` is set exactly when the dropped bits exceed half an ulp, or equal it with `tmp_ans` odd, and never when `ovf_reg` or `ovf_regF` is set |
| `PositMult.Output` | Posit/PositMult.cpp:205-208 | the decoder reads the result as NaR when `inf` and as zero when `z`; otherwise, when `tmp_ans + round` lies in [1, 2^(N-1)), it reads a finite nonzero posit with sign `sign` and `twos` equal to `tmp_ans + round` |
| `PositMult.SignApply` | Posit/PositMult.cpp:207-208 | the signed result is zero exactly for a zero magnitude, and 2^N - m for a nonzero magnitude m with sign 1; `SignApplyDecodes` shows the decoder reads it back |
| `PositMult.SignApplyDecodes` | Posit/PositMult.cpp:207-208 | the decoder reads a signed nonzero result back with the same sign and with `twos` equal to the magnitude |
| `PositMult.ProductStage` | Posit/PositMult.cpp:99-131 | the scale sum of the product stage is the sum of the two operands' scales plus `ovf_m` |
| `PositMult.RegimeStage` | Posit/PositMult.cpp:141-162 | the regime stage's saturated regime and exponent fit their widths |
| `PositMult.Stages` | Posit/PositMult.cpp:110-208 | every signal of the three stages and `Output` fits its declared width; `StagesRounded` and `StagesMagnitude` state what it computes for finite operands |
| `PositMult.PackStage` | Posit/PositMult.cpp:164-203 | `shifter_in`, `shifter_out` and `tmp_ans` fit their widths; `TmpAnsIsMagnitude` and `PackRoundsNearestEven` give `tmp_ans` and `round` as the cut, rounded posit string |
| `PositMult.Datapath` | Posit/PositMult.cpp:89-208 | every signal fits its declared width; `MultiplyCommutes` and `StagesRounded` state its symmetry and its output |
| `PositMult.Multiply` | Posit/PositMult.cpp:89-208 | the result fits in N bits; `MultiplyRoundsNearestEven`, `MultiplyNaR`, `MultiplyZero`, `MultiplyCommutes` and `MultiplyOne` state what it computes |
| `MultiplierProperties.MultiplyNaR` | Posit/PositMult.cpp:112 | a NaR operand gives NaR, even when the other operand is zero |
| `MultiplierProperties.MultiplyZero` | Posit/PositMult.cpp:111 | a zero operand gives zero when neither operand is NaR |
| `MultiplierProperties.ProductStageCommutes` | Posit/PositMult.cpp:110-131 | `sign`, `z`, `inf`, `frac_mult` and `sf_mult` are symmetric in A and B |
| `MultiplierProperties.MultiplyCommutes` | Posit/PositMult.cpp:89-131 | swapping `InputA` and `InputB` leaves every signal from the product stage on, and `Output`, unchanged |
| `MultiplierProperties.NormalisedProduct` | Posit/PositMult.cpp:127-130 | for a product in [2^(mult_size-2), 2^mult_size), bit mult_size of `normFrac` is 0 and bit mult_size-1 is 1, with or without `ovf_m` |
| `MultiplierProperties.NormFracNormalised` | Posit/PositMult.cpp:119-130 | two fractions with their hidden bits set multiply into that range |
| `MultiplierProperties.PackStageLayout` | Posit/PositMult.cpp:168-188 | the shifter writes the regime string of the packed regime, then `FinalExp`, the fraction bits and zeros |
| `MultiplierProperties.TmpAnsIsMagnitude` | Posit/PositMult.cpp:168-199 | `tmp_ans` is the format's magnitude of the packed regime, `FinalExp` and the kept fraction bits; `LSB` is the last kept bit and `G` the first dropped bit |
| `MultiplierProperties.ScaleRange` | Posit/PositDecoder.cpp:162-163 | a decoded regime lies in [-(N-1), N-2], so a scale lies in [-(N-1) 2^es, (N-1) 2^es) |
| `MultiplierProperties.ProductRegimeRange` | Posit/PositMult.cpp:131-146 | for finite operands, the product's regime lies in [-2(N-1), 2(N-1)) |
| `MultiplierProperties.RegimeStageSaturation` | Posit/PositMult.cpp:146-162 | when N is a power of two: `sf_sign` is the sign of the regime q; `RegimeAns` = abs(q); `ovf_reg` iff abs(q) >= N; `ovf_regF` iff abs(q) >= N-1; `FinalRegime` = min(abs(q), N-1); `FinalExp` is cleared exactly at saturation |
| `MultiplierProperties.RegimeSaturation` | Posit/PositMult.cpp:146-185 | when N is a power of two, the shift amount is at most N-2 and the packing encodes q clamped to [-(N-2), N-2] |
| `MultiplierProperties.KeptBitsBounds` | Posit/PositMult.cpp:192-203 | for a regime in the posit range, the kept bits are not all zero, and rounding cannot carry out of them |
| `MultiplierProperties.PackedMagnitude` | Posit/PositMult.cpp:131-192 | when N is a power of two, `tmp_ans` is the magnitude of the clamped regime, the exponent (cleared at saturation) and the kept fraction bits |
| `MultiplierProperties.SaturationIgnoresOvershoot` | Posit/PositMult.cpp:146-203 | when N is a power of two, two product stages that differ only in `sf_mult`, whose regimes both reach N-1 or beyond on the same side, pack to the same `tmp_ans`, and neither is rounded |
| `MultiplierProperties.RoundedInRange` | Posit/PositMult.cpp:192-208 | with the regime in the posit range, `tmp_ans + round` lies in [1, 2^(N-1)): never zero, never wrapping |
| `MultiplierProperties.StagesRounded` | Posit/PositMult.cpp:110-208 | for finite decoded operands, `Output` is `tmp_ans + round` with the sign `sign_A XOR sign_B` applied |
| `MultiplierProperties.MultiplyFinite` | Posit/PositMult.cpp:89-208 | when N is a power of two, the product of two finite nonzero posits is a finite nonzero posit whose sign is the XOR of the operands' signs |
| `MultiplierProperties.PackRoundsNearestEven` | Posit/PositMult.cpp:146-203 | when N is a power of two, `tmp_ans` is the first N-1 bits of the posit string of the clamped regime, the exponent and the fraction bits, and `round` is round-to-nearest, ties-to-even on the bits cut off, off at saturation |
| `MultiplierProperties.MultiplyRoundsNearestEven` | Posit/PositMult.cpp:89-208 | when N is a power of two, the product of two finite nonzero posits has the XOR sign and a magnitude equal to the posit string of the exact fraction product and scale sum, clamped to the posit range and rounded to nearest, ties to even, to N-1 bits |
| `MultiplierProperties.MultiplyMagnitude` | Posit/PositMult.cpp:89-208 | when N is a power of two, the product's magnitude before rounding is the format's encoding of the clamped regime, the exponent and the kept fraction bits of the exact scale sum |
| `MultiplierIdentity.OneIsEncoded` | Posit/PositDecoder.cpp:96-163 | the pattern `01000...` is the format's encoding of sign 0, regime 0, exponent 0 and fraction 0 |
| `MultiplierIdentity.DecodeOne` | Posit/PositDecoder.cpp:96-163 | 1.0 decodes to `Reg` = 0, `Exp` = 0 and a `Frac` that is the hidden bit alone |
| `MultiplierIdentity.ProductByOne` | Posit/PositMult.cpp:119-130 | times 1.0's fraction, `ovf_m` = 0 and `normFrac` is the other fraction shifted up FracSize places |
| `MultiplierIdentity.MultiplyOneFinite` | Posit/PositMult.cpp:89-208 | when N is a power of two, 1.0 times a finite nonzero x is x: `round` is 0 and `tmp_ans` is `twos` of x |
| `MultiplierIdentity.MultiplyOne` | Posit/PositMult.cpp:89-208 | when N is a power of two, multiplying by 1.0 on either side returns every N-bit input unchanged |
| `MultiplierIdentity.Posit8Specials` | Posit/PositDecoder.cpp:96-101 | for N = 8 and es = 0, 0x00 decodes as zero and 0x80 as NaR |
| `MultiplierIdentity.Posit8Products` | Posit/PositMult.cpp:205-208 | for N = 8 and es = 0: 0x40 * 0x40 = 0x40, 0x40 * 0xC0 = 0xC0, 0x00 * 0x7F = 0x00, 0x80 * 0x01 = 0x80 |

## Left out

- VHDL emission, signal naming, copyright strings and `REPORT` logging: the
  model keeps only the meaning of the equations.
- Pipelining and timing (`setCriticalPath`, `manageCriticalPath`, `nextCycle`,
  `syncCycleFromSignal`): these have no functional effect.
- The FloPoCo sub-operators LZOC, Shifter, IntMultiplier and Shifter_signed
  are not part of this model. Each is a stated, unverified assumption in
  `SubOperators`:
  - `LeadingZeros` is a leading-zero count over N-1 bits.
  - `ShiftLeft` is a left shift kept within the input width.
  - `Product` is the full product.
  - `ShiftRightSigned` is an arithmetic right shift whose output is wIn + maxShift bits wide.
- `intlog2` from `utils.hpp` is not part of this model: its two results are
  the configuration parameters `zcWidth` and `regSize`.
- `PositMult::emulate` returns `InputA` unchanged. It is a placeholder, not a
  reference, and is not modelled.
- Command-line parsing and factory registration (`parseArguments`,
  `registerFactory`) and the header files: they hold no datapath logic.
- The real value of a posit (GMP/MPFR) is not modelled. The multiplier's
  result is characterised by the posit bit layout of the clamped exact scale
  sum and the kept fraction bits. It is not compared with a rational product.
- `MultiplierProperties.MultiplyFinite`, `MultiplierProperties.MultiplyMagnitude`,
  `MultiplierProperties.MultiplyRoundsNearestEven`, `MultiplierIdentity.MultiplyOne`:
  proved only when N is a power of two. For other N the generator still emits
  VHDL, but in it `'0' & zc_sub` has zcWidth+1 bits while `Reg` has
  sizeRegime bits, a width mismatch. The model does not describe those N.
- `PositMult.FinalExp`: its contract only states the choice the signal makes.
  Its meaning, that the exponent is cleared exactly when |q| >= N-1 for the
  product's regime q, is stated by `MultiplierProperties.RegimeStageSaturation`.
- `PositMult.OvfRegF`: its contract only states the comparison the signal
  makes. Its meaning, that the regime saturated (|q| >= N-1), is stated by
  `MultiplierProperties.RegimeStageSaturation`.
- `PositMult.RegimeStage`: its contract gives only the widths. Its meaning
  is stated by `MultiplierProperties.RegimeStageSaturation`.
