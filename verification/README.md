# nanoprintf in Dafny

A model of the printf engine in `nanoprintf.h` and proofs about it. The engine formats doubles with
fixed-width integer arithmetic only, inside one small buffer it also composes the text in. The
model follows that code branch by branch in one full-featured configuration: 32-bit `int`, LP64,
64-bit unsigned type, every conversion but `%n`, large and small length modifiers, no `w`
modifiers, conversions with and without hardware division. Two sizes are parameters: `B`, the width
of the conversion integer (any multiple of 4 from 8 to 512 bits), and `C`, the size of the
conversion buffer (23 to 65280 bytes). Inputs are raw IEEE 754 binary64 bit patterns.

## How it is organised

| modules | contents |
|---|---|
| Arithmetic, Rounding, Numerals, Doubles | powers and division; round half to even and its place-value forms; digits, numerals and their successor; bit patterns, exact values, the width `B` |
| Unsigned | division by ten without dividing; the integer emitter over its buffer |
| IntegerPart, FractionPart, FractionBounds, FractionError | the two base-2 to base-10 scaling loops: no wrap, exactness, error bounds, first digit |
| DigitGeneration, DecimalText, DigitBuffer, Specials | reading digits off a mantissa; the texts of styles f and e; the steps both conversions share |
| Fused, FusedBuffer | `npf_ftoa_rev`: as numbers, and as methods over the buffer |
| Shared, SharedExact, Shortest, SharedBuffer, SharedLayout, SharedConversion | `npf_etoa_rev`: runs of digits, correctness on the exact domain, `%g`, and the methods over the buffer, layout in place included |
| FloatPaths, FloatAgreement, FloatTexts | what is printed against what should be; the two `%f` conversions against each other; `%e` and `%g` as texts |
| ScientificInteger, PreparedValue, PrintedError | in and off the exact domain: `%e` and `%g` cut inside the integer part; the one fraction every style rounds; how far a printed decimal is from its double |
| HexFloat | `npf_atoa_rev` and reading its text back |
| FormatSpec, Fields, Driver | the format parser, the fields a conversion emits, `npf_vpprintf` |
| FieldFacts, IntegerFields, TextFields, FloatFields, ScientificFields | fields in their caller's terms: C types and ranges, marks, padding, letter case, and what they read back as |
| Formats | from written specifications, what stands between them and their arguments to the output |
| Sink | `npf_bufputc` and `npf_vsnprintf` |

Numbers first, memory second: the loops of the engine, bit-by-bit shifts of the division-free build
included, appear as methods with the same steps, and each is proved equal to a function on integers
or sequences about which the lemmas speak.

The *exact domain* of `B` holds the values below 2^B whose fraction is a multiple of 2^-(B-3): those
the library's own `README.md` (line 239) says are converted perfectly. `InExactDomain` in `Doubles`
reads it off the bits; `ExactValue` and `ExactHasBits` show that it is the same thing.
Claims of correct rounding of the value are about that domain, except in `ScientificInteger`; off it
`PreparedValue` says which nearby fraction is rounded. Shape, safety, error bounds, the comparison of
the two `%f` conversions and the reading back of `%e`, `%g` and `%a` are about every finite double.

## Where the code does not do what is promised

The model keeps the code as it is. Six statements that one would expect turn out to hold only under
a condition. Each has a lemma with an input that fails, and its condition is proved exactly.

* `%e` and `%g` above 2^SHIFT_BITS. A value whose binary exponent is beyond SHIFT_BITS is taken to have lost
  bits (line 1238 of `nanoprintf.h`), so an exact tie above an even digit rounds up:
  `ScientificOutputExact` and `ShortestOutputExact` say when, `EvenTieTexts` gives 9007199254741250
  with a 64-bit integer, `%.13e` and `%.14g`.
* `%e` of fewer digits than the integer part has. The tie test trusts the cut fraction (lines 1364 and
  1386), which is zero too when its bits lie below the cut, or when they are all ones and the carry wraps
  them around: the integer part alone then passes for a tie. `ScientificOutputAtInteger` and
  `ShortestOutputAtInteger` say when,
  `WideNeverVanishes` that it takes less than 64 bits, `VanishingTie` gives 26 - 2^-33 with a 32-bit
  integer and `%.0e`.
* The unconditional store of the point (line 1476) falls on a digit not yet read when a whole number
  without a point fills the buffer. It takes a conversion integer of more than 72 bits:
  `ClobbersExactly`, `FixedOutputRight`, `NarrowNeverFills`; `PointLosesDigit` gives 2^74 in 23 bytes.
* The two `%f` conversions agree on every finite double at every precision of at least 1, but at
  precision 0 they part on fractions a few units of the last bit away from one half, and on the lost
  digit above: `PathsAgree`, `OutputsAgree`; `DivergingInput` gives 1.4999999998835847 with a 32-bit
  integer. The library's `README.md` (line 251) says that no number is printed differently.
* The scaling of a fraction keeps its relative error within 3/2^B a step wherever it starts with enough
  significant bits: `ScaleError`. Behind an integer part it can start with too few, and then stays within
  the allowance exactly as far as the bits dropped do: `BehindIntegerError`. `AsleepLosesAll` gives
  1 + 2^-9 with an 8-bit integer, of which nothing is left. Below 1 the lower bound holds without exception
  (`BelowOneError`), the upper one exactly when no carry is multiplied into too small a number
  (`SteadyError`).
* Reading an integer back fails for a zero printed with precision 0, and for nothing else:
  `IntegerReadsBack`; `BlankZero` gives `%+.0d`.

## Model

| member | source | states |
|---|---|---|
| Unsigned.Div10 | nanoprintf.h:793-800 | the shift-and-add sequence returns n/10 for every 32-bit n, no intermediate result wrapping |
| Unsigned.Div10Estimate | nanoprintf.h:794-799 | before the correction the estimate q leaves a remainder of 0 to 19 |
| Unsigned.DivideByFiveDivisionFree | nanoprintf.h:1022-1029 | the form built on division by ten gives man / 5 and the carry of the division-and-remainder form |
| Unsigned.BinShr | nanoprintf.h:919-922 | shifting right bit by bit equals the shift at once |
| Unsigned.BinShl | nanoprintf.h:923-926 | and so does shifting left within 64 bits, although bits leave the word on the way |
| Unsigned.LongDivide | nanoprintf.h:807-813 | shift-and-subtract yields quotient and remainder of any 64-bit value |
| Unsigned.MaskIsMod | nanoprintf.h:829-832 | masking with 2^k - 1 is the remainder by 2^k, so bases 8 and 16 need no division |
| Unsigned.NextDigit | nanoprintf.h:822-836 | the divide, div10 and mask-and-shift variants yield the same digit and rest |
| Unsigned.WideDigits | nanoprintf.h:807-817 | what the wide phase has written, followed by the numeral of what is left, is the numeral of val |
| Unsigned.NarrowDigits | nanoprintf.h:822-838 | the 32-bit phase writes the numeral of what is left, at least one digit |
| Unsigned.UtoaRevEnd | nanoprintf.h:803-840 | writes exactly the reversed canonical numeral of val in base 8, 10 or 16, and nothing else |
| Unsigned.NumeralFits | nanoprintf.h:239-251 | no 64-bit value needs more than 22 digits, so the smallest buffer has room for them and octal's '0' |
| Numerals.NumeralValue | nanoprintf.h:803-840 | the digits of a numeral evaluate back to the number |
| Numerals.NumeralHasNoLeadingZero | nanoprintf.h:803-840 | a positive number's numeral does not end, reversed, in '0' |
| Numerals.CanonicalIsUnique | nanoprintf.h:803-840 | two digit runs of equal length and value have equal digits |
| Numerals.NumeralCased | nanoprintf.h:815-837 | the digits above 9 are small letters under a small conversion letter, capitals under a capital |
| Numerals.NumeralIsUnique | nanoprintf.h:803-840 | a numeral is the only run of digits in its letter case that denotes its number and ends, reversed, in no superfluous zero |
| Numerals.SuccessorOfDigits | nanoprintf.h:1133-1141 | adding one in the last place counts the digit run up and carries out exactly from all nines |
| DecimalText.SuccessorOfFixed | nanoprintf.h:1133-1141 | the ripple over a text with a point inside is the text of the number one unit larger |
| Rounding.RoundHalfEvenIsNearest | nanoprintf.h:1119-1130 | half-to-even rounding is the one nearest integer, the even one of two equally near |
| Rounding.RoundByGuard | nanoprintf.h:1396-1412 | rounding by the first dropped digit, with a tie only over nothing at all, is half-to-even rounding of the whole |
| Rounding.LeadExponentUnique | nanoprintf.h:1428 | a value has one exponent of the leading digit |
| Doubles.Decode | nanoprintf.h:966-983 | every bit pattern is NaN, an infinity, or a finite value in the range of binary64 |
| Doubles.DecodeIs | nanoprintf.h:966-983 | which patterns are NaN, infinities and finite, and their value, by the layout of IEEE 754 section 3.4 |
| Doubles.DecodeEncode | nanoprintf.h:966-983 | every finite magnitude with either sign is the decoding of a bit pattern |
| Doubles.UnitPowers | nanoprintf.h:1086 | 2^(B-4) leaves 1 modulo 5, which is what the scaling constants rest on |
| Doubles.ExactValue | README.md:239 | a value whose exponent is below B and that has no bit under 2^-(B-3) is an integer below 2^(2B-3) over 2^(B-3) |
| Doubles.ExactHasBits | README.md:239 | and only those values are: membership in the exact domain can be read off the bits |
| IntegerPart.StepIsWide | nanoprintf.h:1016-1036 | on W = 2*man + carry a step is exactly 2W or floor(W/5), within B+1 bits |
| IntegerPart.ScaleUpper | nanoprintf.h:1016-1036 | after any number of steps, k of them divisions, W*10^k does not exceed the true value |
| IntegerPart.ScaleLower | nanoprintf.h:1016-1036 | and falls short of it by at most a factor (1 - 4/2^B)^k |
| IntegerPart.ScaleTens | nanoprintf.h:1262-1281 | at most every third step divides |
| IntegerPart.ConvertBounds | nanoprintf.h:1241-1284 | every finite input: the state stays in B+1 bits, at most 339 decimal places are folded away, a value of at least 1 never scales to 0 |
| IntegerPart.ConvertWhole | README.md:239 | every value below 2^B, whatever its fraction: the integer part is the floor and nothing is folded away |
| IntegerPart.ConvertExact | nanoprintf.h:1241-1284 | on the exact domain the integer part is the floor of the value and nothing is folded away |
| FractionPart.ThresholdFits | nanoprintf.h:1086 | the threshold is the largest mantissa whose fivefold plus 3 still fits, with 3 to spare |
| FractionPart.StepIsWide | nanoprintf.h:1085-1098 | no step wraps; on W it is floor(W/2) or 5W + carry, which leaves no carry |
| FractionPart.ScaleStops | nanoprintf.h:1085-1098 | running out of places happens below the point with no carry, otherwise the first digit is ready |
| FractionPart.StartExact | nanoprintf.h:1063-1082 | on the exact domain the cut to B bits loses nothing |
| FractionPart.ScaleExact | nanoprintf.h:1085-1098 | and every state of the loop is exactly the fraction times ten per multiplication, over two per step |
| FractionBounds.ScaleAwake | nanoprintf.h:1348-1363 | the invariant "above the threshold, or the next fivefold has its top bit set" holds to the end, subnormals catching up with it |
| FractionBounds.ScaleTens | nanoprintf.h:1348-1363 | at most every third step multiplies once awake, and waking up is bounded by the width |
| FractionBounds.FirstDigit | nanoprintf.h:1322-1379 | every finite value below 1 and every width: the first digit is 1 to 9, at most 683 places after the point, unless the cut left nothing |
| FractionError.ScaleError | nanoprintf.h:1084-1098 | every finite input, below 1 or behind an integer part, that starts awake: after n steps W is its exact image within factors (1 - 3/2^B)^n and (1 + 3/2^B)^n |
| FractionError.NormalError | nanoprintf.h:1084-1098 | every normal value below 1 starts awake |
| FractionError.BelowOneError | nanoprintf.h:1084-1098 | every value below 1 the cut leaves anything of, subnormals included: the same lower bound, and the upper one against W plus its carry |
| FractionError.SteadyError | nanoprintf.h:1091-1092 | against W itself the upper bound holds at every number of places if and only if the start has no carry to multiply, or is at least 2^B / 15 wide |
| FractionError.BehindInteger | nanoprintf.h:1085-1098 | a fraction behind an integer part that is multiplied at once ends as exactly floor((5W + carry) / 8) |
| FractionError.BehindIntegerError | nanoprintf.h:1085-1098 | and is within the two bounds of ScaleError if and only if the three bits dropped, against the carry, are within the allowance of four steps |
| FractionError.AsleepLosesAll | nanoprintf.h:1085-1098 | an input that starts asleep, and of which nothing is left |
| DigitGeneration.GenerateValue | nanoprintf.h:1109-1118 | the digits read off and the mantissa left over divide the mantissa exactly |
| DigitGeneration.GenerateDigits | nanoprintf.h:1369-1379 | below ten units every four bits are a decimal digit, and the run keeps its place values |
| Fused.ConversionExact | nanoprintf.h:995-1130 | the fused %f on the exact domain is the value rounded half to even at prec places |
| FusedBuffer.ScaleInteger | nanoprintf.h:1015-1036 | the loop over the buffer equals the scaling, writes one '0' per division, and fails exactly when the zeros do not fit |
| FusedBuffer.EmitFraction | nanoprintf.h:1109-1118 | the fraction digits stand from the point down to buf[0] |
| FusedBuffer.RippleUp | nanoprintf.h:1133-1141 | the ripple leaves the successor of what stood there, growing a digit past the end, and fails exactly when that does not fit |
| DigitBuffer.RippledIsSuccessor | nanoprintf.h:1133-1141 | zeros for the nines passed, points kept, one digit raised: that is the successor |
| FusedBuffer.TextIsLong | nanoprintf.h:977 | a text is at least as long as its zeros, point and integer digits, so the early exits are not premature beyond the ten reserved bytes |
| FusedBuffer.FtoaRev | nanoprintf.h:963-1146 | for every bit pattern: the text of the converted number exactly when it fits, else ERR; NaN and infinities by name; every access inside the buffer |
| FusedBuffer.NarrowFits | nanoprintf.h:1044-1051 | up to 32 bits ERR exactly when ten integer digits in the text's place would not fit, which is never the text's own length |
| Specials.FtoaSpecial | nanoprintf.h:947-953 | writes the reversed name in the conversion's case and returns its negated length |
| Shared.RunShape | nanoprintf.h:1241-1389 | every finite input: the run has its digits in their places, the leading one significant, and an exponent of at most three digits |
| Shared.DropShape | nanoprintf.h:1398-1404 | dropping digits moves the count and the exponent together and keeps the leading digit |
| Shared.RoundShape | nanoprintf.h:1416-1426 | rounding keeps the digit count and moves the exponent exactly when all digits were nines |
| Shared.KeptShape | nanoprintf.h:1390-1414 | what is left after cutting, in either style |
| Shared.SignificantShape | nanoprintf.h:1216-1219 | every finite input: %e lays out at most nsig_max digits and an exponent of at most 999 |
| SharedExact.RunExact | nanoprintf.h:1310-1389 | on the exact domain digits and remainder add up to the value, and `tail` says whether anything remains |
| SharedExact.DropExact | nanoprintf.h:1396-1413 | cutting is rounding half to even when `tail` is right, and rounds even ties up when it is pessimistic |
| SharedExact.FixedExact | nanoprintf.h:1165-1480 | the shared %f computes the correctly rounded number, or both it and that number are too long for the buffer |
| SharedExact.ScientificExact | nanoprintf.h:1310-1428 | %e is correctly rounded to nsig_max digits if and only if the exponent is within SHIFT_BITS or there is no tie above an even digit |
| SharedExact.ScientificZero | nanoprintf.h:1390-1393 | zero has the digit 0 at exponent 0 |
| SharedExact.EvenTieRoundsUp | nanoprintf.h:1238 | an input on which the previous condition fails |
| Shortest.StripKeeps | nanoprintf.h:1433 | stripping removes zeros only, all of them, and not the value |
| Shortest.RoundCoarser | nanoprintf.h:1434-1447 | no double rounding: a value that rounds to trailing zeros rounds the same way without those places |
| Shortest.SecondPassFits | nanoprintf.h:1442-1447 | the text of the second run is at most five characters longer than P |
| Shortest.ShortestExact | nanoprintf.h:1428-1450 | unless such a tie goes unseen, %g picks style f exactly for -4 <= X < P with X taken after rounding, and the second run has the digits of the first |
| SharedBuffer.MoveUp | nanoprintf.h:1303-1305 | the right-alignment loop acts as memmove although the ranges overlap |
| SharedBuffer.IntegerRun | nanoprintf.h:1286-1307 | the integer digits stand at the top of the buffer, or there are more of them than bytes |
| SharedBuffer.GenerateDigits | nanoprintf.h:1241-1389 | the buffer and the variables hold exactly the generated run |
| SharedBuffer.DropDigits | nanoprintf.h:1396-1414 | moving `end` and reading the dropped digits is the cut of the run, tie test included |
| SharedBuffer.OnlyZeros | nanoprintf.h:1410 | the tie loop answers whether nothing but zeros was dropped |
| SharedBuffer.RippledRun | nanoprintf.h:1416-1426 | a ripple that ends inside the run counts it up by one |
| SharedBuffer.PassedRun | nanoprintf.h:1417-1423 | a ripple through all nines leaves a one followed by zeros |
| SharedBuffer.RoundDigits | nanoprintf.h:1416-1426 | the rounding loop in place is the rounding of the run |
| SharedBuffer.RoundedRun | nanoprintf.h:1232-1426 | one whole pass: the rounded run in the buffer, unless the integer digits overrun it |
| SharedLayout.FixedLayoutIs | nanoprintf.h:1452-1467 | composing style f from any run a conversion leaves is the text of its number |
| SharedLayout.ScientificLayoutIs | nanoprintf.h:1482-1511 | composing style e from a run is the text of its digits and exponent |
| SharedLayout.LayFixed | nanoprintf.h:1452-1480 | composing f in place over its own digits equals composing from a copy, fails exactly when too long, and loses a digit exactly when the point lands on it |
| SharedLayout.LayScientific | nanoprintf.h:1482-1512 | composing e in place equals composing from a copy and stays inside the buffer |
| SharedLayout.ExponentLength | nanoprintf.h:1217 | an exponent up to 999 takes at most five characters |
| SharedConversion.StripZeros | nanoprintf.h:1433 | the strip loop over the buffer is the stripping of the run |
| SharedConversion.SignificantPass | nanoprintf.h:1390-1450 | the first pass settles the style, and lays out style e |
| SharedConversion.EtoaRev | nanoprintf.h:1165-1516 | for every bit pattern and each of %f, %e, %g: the output function's text or ERR, names for NaN and infinities, at most two passes |
| FloatPaths.FixedOutputExact | nanoprintf.h:1452-1480 | exact domain, shared %f: ERR if and only if the correctly rounded text is longer than the buffer, otherwise that text |
| FloatPaths.FixedOutputRight | nanoprintf.h:1473-1480 | it is that text if and only if it fits and does not fill the buffer with integer digits |
| FloatPaths.ClobbersExactly | nanoprintf.h:1476 | every input: the point lands on a digit exactly for C integer digits, no zeros folded, precision 0 and no '#' |
| FloatPaths.NarrowNeverFills | nanoprintf.h:1476 | never with a conversion integer of up to 72 bits |
| FloatPaths.PointLosesDigit | nanoprintf.h:1476 | an input on which a digit is lost |
| FloatPaths.FusedTextExact | nanoprintf.h:963-1146 | exact domain, fused %f: the text is the correctly rounded one |
| FloatPaths.PathsAgreeExactly | nanoprintf.h:941-942 | exact domain, every width: the shared path reports ERR exactly when the fused text is too long, and prints the fused text if and only if that does not fill the buffer with integer digits |
| FloatPaths.FixedLength | nanoprintf.h:1473 | every input: the length of a style f text in terms of its run, whose leading place is at most one above the integer digits |
| FloatPaths.ShortestAlwaysFits | nanoprintf.h:1216-1219 | every finite input: %g reports ERR only for a precision beyond the guard or integer digits beyond the buffer |
| FloatPaths.SecondRunFits | nanoprintf.h:1434-1447 | the second run of %g always fits and never loses a digit |
| FloatAgreement.GuardMantissa | nanoprintf.h:1348-1365 | from exponent 0 the digit the shared path generates is below, at or above 5 by where W lies around one half |
| FloatAgreement.GenerateAgrees | nanoprintf.h:1109-1130 | one digit more and a decision on it equal a decision on the mantissa left over |
| FloatAgreement.PathsAgree | nanoprintf.h:1099-1103 | every finite input and width, a fraction's digits fitting the buffer: the two %f conversions compute the same number, if and only if it is not precision 0 with a fraction next to one half |
| FloatAgreement.OutputsAgree | nanoprintf.h:941-942 | every finite input and width: the shared path reports ERR exactly when the fused text is too long, and prints the fused text if and only if it neither diverges at precision 0 nor loses a digit to the point |
| FloatAgreement.DivergingInput | nanoprintf.h:1102 | an input on which they part |
| FloatTexts.ScientificInjective | nanoprintf.h:1482-1512 | a text of style e determines its digits and its exponent |
| FloatTexts.ScientificOutputExact | nanoprintf.h:1165-1512 | exact domain: %e prints the correctly rounded text if and only if there is no even tie beyond SHIFT_BITS |
| FloatTexts.ScientificOutputZero | nanoprintf.h:1390-1393 | %e of zero |
| FloatTexts.ScientificFails | nanoprintf.h:1214-1219 | %e reports ERR exactly when prec + 8 characters or the integer digits exceed the buffer |
| FloatTexts.ShortestOutputExact | nanoprintf.h:1428-1450 | exact domain: %g prints the text C11 section 7.21.6.1 paragraph 8 asks for, if and only if there is no even tie beyond SHIFT_BITS |
| FloatTexts.ShortestOutputZero | nanoprintf.h:1390-1450 | %g of zero |
| FloatTexts.EvenTieTexts | nanoprintf.h:1238 | an input whose %e and %g texts are both wrong |
| ScientificInteger.ScientificAtInteger | nanoprintf.h:1390-1414 | every value with a fraction and more integer digits than asked for: %e is correctly rounded if and only if the integer part alone is not a tie above an even digit while the fraction vanishes in the cut |
| ScientificInteger.ScientificOutputAtInteger | nanoprintf.h:1390-1512 | the same for the text |
| ScientificInteger.ShortestOutputAtInteger | nanoprintf.h:1428-1512 | and for the text of %g |
| ScientificInteger.WideNeverVanishes | nanoprintf.h:1322-1340 | from 64 bits on no fraction vanishes |
| ScientificInteger.VanishingTie | nanoprintf.h:1364 | an input with a 32-bit integer that prints 2e+01 for 3e+01 |
| PreparedValue.PreparedRun | nanoprintf.h:1310-1389 | every value with a fraction, every bound: digits and remainder are the integer part and the prepared mantissa, and only a bound leaves a remainder |
| PreparedValue.ScientificRounds | nanoprintf.h:1364-1428 | %e of every value with a fraction whose integer digits it prints: that total is rounded half to even, no second error is made |
| PreparedValue.ScientificOutputRounds | nanoprintf.h:1364-1512 | the same for the text |
| PreparedValue.SharedFixedRounds | nanoprintf.h:1364-1480 | the shared %f of every value with a fraction, at every precision that reaches its first digit: the total rounded half to even |
| PreparedValue.FusedRounds | nanoprintf.h:1060-1130 | the fused %f likewise, if and only if it does not diverge at precision 0 |
| PreparedValue.ShortestOutputRounds | nanoprintf.h:1428-1512 | %g of every value with a fraction whose integer digits it prints: the text C11 section 7.21.6.1 paragraph 8 asks for, of the total |
| PrintedError.WholeError | nanoprintf.h:1000-1058 | %f of every finite value without a converted fraction, by either path: the printed number is above the value by at most half of 10^k, k being the places folded away, and below it by at most a factor (1 - 1/2^B)(1 - 4/2^B)^k |
| PrintedError.BelowOneRounds | nanoprintf.h:1322-1428 | %e of every value below 1 the cut leaves anything of: the prepared mantissa, as a fraction, is rounded half to even and no second error is made |
| PrintedError.PreparedError | nanoprintf.h:1322-1364 | that fraction is the value within (1 - 1/2^B)(1 - 3/2^B)^n below and (1 + 3/2^B)^n and half a unit above, n = 3 - exponent: all normal values below 1, from 64 bits on all subnormals too |
| PrintedError.TotalIsClose | nanoprintf.h:1316-1364 | every value with an integer part and a fraction, every width: the total is within [-5/2, 1] units of 1 / (10 * 2^(B-4)) of the value |
| PrintedError.ScientificWholeError | nanoprintf.h:1241-1426 | %e of every finite value without a converted fraction: above it by at most half a unit of the last place kept, below it by at most that, if digits were cut, and the factors of WholeError |
| PrintedError.ShortestWholeError | nanoprintf.h:1241-1450 | %g likewise, in either style, stripped or not |
| PrintedError.FixedRounds | nanoprintf.h:1060-1130 | %f of every finite value with a converted fraction, the precision reaching its first digit: the integer part exactly, and the prepared mantissa rounded half to even |
| HexFloat.RoundHalfUpIsNearest | nanoprintf.h:1567-1574 | rounding half up is the nearest integer, the upper of two equally near |
| HexFloat.DropNibbles | nanoprintf.h:1567-1574 | the loop that looks at the last nibble's top bit rounds all that was dropped |
| HexFloat.MantissaFits | nanoprintf.h:1574-1592 | a carry out of the fraction ends in the leading digit, which is at most 2 |
| HexFloat.AtoaRev | nanoprintf.h:1545-1595 | every finite input: the text of the rounded mantissa, in at most 21 bytes; 0 for infinities and NaN |
| HexFloat.RoundTrip | nanoprintf.h:1545-1595 | at 13 places or more the text reads back as the same mantissa and exponent, for every finite double |
| HexFloat.RoundedReading | nanoprintf.h:1567-1574 | at fewer places it reads back as the mantissa rounded there |
| FormatSpec.AccumulatedSaturates | nanoprintf.h:582-597 | a digit run of any length never leaves int, and clamped to the ceiling means the smaller of its value and 65280 |
| FormatSpec.FmtNum | nanoprintf.h:589-598 | consumes exactly the digits and yields the accumulator |
| FormatSpec.ScanFlags | nanoprintf.h:616-629 | consumes exactly the flags; only which occur matters, '+' beating ' ' |
| FormatSpec.Parse | nanoprintf.h:603-782 | a specification takes at least two characters and ends within the string |
| FormatSpec.ParseFormatSpecEnd | nanoprintf.h:603-782 | the cursor-moving parser equals the specification read off the string, and never reads behind the terminator |
| FormatSpec.PrintParse | nanoprintf.h:603-782 | printing any specification and parsing it yields its meaning and stops right behind it |
| FormatSpec.PrintRejects | nanoprintf.h:725-781 | a specification that ends in a character that is no conversion's letter is none |
| FormatSpec.ConvByLetter | nanoprintf.h:728-778 | which letters are which conversion, and which ask for capitals |
| FormatSpec.ParsedByLetter | nanoprintf.h:725-781 | whatever parses ends in a letter of its conversion, and is small exactly when that is |
| FormatSpec.SaturatedMeans | nanoprintf.h:582-597 | a written number means itself up to the ceiling |
| Fields.Layout | nanoprintf.h:1977-2060 | a field is as long as the larger of its width and its natural length |
| Fields.Resolved | nanoprintf.h:1704-1757 | width and precision are at most 65280 once resolved |
| Fields.EchoesVerbatim | nanoprintf.h:1697-1701 | a string without a valid specification is emitted as it is |
| Driver.StarWidth | nanoprintf.h:1709-1713 | the magnitude of a star width in unsigned arithmetic, INT_MIN pinned to the ceiling |
| Driver.ResolveWidth | nanoprintf.h:1709-1714 | a star width w acts as min(of its magnitude, 65280), left-justified when negative |
| Driver.ResolvePrecision | nanoprintf.h:1716-1744 | a negative star precision counts as absent, and absent means the conversion's default |
| Driver.Resolve | nanoprintf.h:1704-1757 | the '0' flag is ignored for d, i, o, u, x and X when a precision is given |
| Driver.BinLen | nanoprintf.h:1602-1633 | the shift loop counts the digits of the binary numeral |
| Driver.ConvertInteger | nanoprintf.h:1843-1961 | digits, sign, prefix and precision of every integer conversion, the blank zero and octal '#' included |
| Driver.ConvertFloat | nanoprintf.h:1774-1813 | text, sign, prefix and zero padding of every float conversion, text and number told apart |
| Driver.MeasureString | nanoprintf.h:1962-1970 | a string is cut at the precision or the terminator, a null pointer is empty |
| Driver.EmitBefore | nanoprintf.h:2003-2058 | with zero padding folded into the precision's zeros, what is emitted before the payload and after it is the field's layout |
| Driver.PutBinary | nanoprintf.h:2046-2047 | bits from the top are the binary numeral in reading order |
| Driver.OneField | nanoprintf.h:1759-2060 | one conversion emits exactly its field, and adds its length |
| Driver.Vpprintf | nanoprintf.h:1692-2064 | the whole run emits exactly the rendering of format and arguments, and returns the number of characters emitted |
| FieldFacts.IntegerReadsBack | nanoprintf.h:1843-1961 | reading an integer field in its base gives the value printed, except that a blank zero reads as nothing |
| FieldFacts.BlankZero | nanoprintf.h:1843-1961 | a blank zero |
| FieldFacts.NumericLength | nanoprintf.h:256-266 | a numeric field has at most max(65280, C) + 3 characters |
| FieldFacts.LiteralNumbers | nanoprintf.h:1714-1721 | a literal width or precision takes effect as the smaller of itself and 65280 |
| FieldFacts.PrecisionNumbers | nanoprintf.h:1716-1744 | a star precision is the int behind the star width, or the first argument without one; negative counts as absent; the defaults are 6, 13 for %a, 16 for %p, else 0 |
| IntegerFields.ValueReadsBack | nanoprintf.h:1846-1927 | every value of the C type a length modifier names, as it is passed: the field reads back as it in the conversion's radix, a blank zero as nothing |
| IntegerFields.IntegerPrinted | nanoprintf.h:1843-2060 | the whole field of a value: padding on the side and of the kind the flags tell, sign, '#' prefix, the least count of digits the precision asks for, numeral |
| TextFields.StringPrinted | nanoprintf.h:1962-1970 | %s prints the prefix of the string the precision allows, or all of it |
| TextFields.CharacterPrinted | nanoprintf.h:1971-1975 | %c prints the low eight bits of its argument, %% a percent sign |
| TextFields.FloatPrinted | nanoprintf.h:1774-1813 | every float field: sign by the sign bit, %a's prefix for finite values only, infinities and NaN by name and never padded with zeros |
| TextFields.FinitePrinted | nanoprintf.h:1774-1813 | a finite value prints its output's text, or ERR, never padded with zeros |
| TextFields.FloatFieldCase | nanoprintf.h:1495 | everything in a float field is in the case of its conversion letter |
| TextFields.IntegerFieldCase | nanoprintf.h:1887-1910 | and in an integer field |
| FloatFields.FixedReadsBack | nanoprintf.h:1977-2060 | a field around a style f text reads back as its sign, number and places, whatever its padding |
| FloatFields.FloatReadsBack | nanoprintf.h:1774-1813 | %f from argument to output on the exact domain: sign of the double, correctly rounded decimal |
| FloatFields.FloatShowsPoint | nanoprintf.h:1464-1476 | it shows a point exactly for places behind it, or with '#' |
| FloatFields.HexReadsBack | nanoprintf.h:1795-1799 | %a from argument to output for every finite double: sign, then prefix, then the rounded mantissa and the exponent, zero padding included |
| ScientificFields.ScientificFieldReads | nanoprintf.h:1977-2060 | a field around a style e text reads back as its sign, digits, places and exponent, whatever its padding |
| ScientificFields.ScientificReadsBack | nanoprintf.h:1774-1813 | %e from argument to output for every finite double: sign of the double, digits and exponent of the rounded run |
| ScientificFields.ShortestReadsBack | nanoprintf.h:1774-1813 | %g from argument to output on the exact domain, no even tie going unseen: sign of the double and its value rounded to P digits, in either style, stripped or not |
| ScientificFields.ShortestReadsRun | nanoprintf.h:1774-1813 | %g from argument to output for every finite double: in style f the second run's number, in style e the digits and exponent of the run |
| Formats.FormatMeans | nanoprintf.h:603-1757 | what the driver converts with, read off the written flags, width, precision, length, letter and the star arguments |
| Formats.FormatPrints | nanoprintf.h:1692-2064 | a format of one specification prints the field of the argument behind the stars' |
| Formats.DirectivePrints | nanoprintf.h:1692-2064 | anywhere in a format a specification prints its own field and leaves the arguments behind its own |
| Formats.PiecesPrint | nanoprintf.h:1692-2064 | any number of specifications with other characters between them: each prints what it prints alone, in order, on its own arguments |
| Formats.IntegerFormat | nanoprintf.h:1692-2064 | any integer conversion, written in any way, of any value of its C type: the output reads back as that value, unless it is a zero with precision zero |
| Formats.FixedFormat | nanoprintf.h:1692-2064 | %f, written in any way, on the exact domain: the output reads back as the correctly rounded decimal, at six places when none are asked for |
| Formats.ScientificFormat | nanoprintf.h:1692-2064 | %e, written in any way, of every finite double: digits and exponent of its rounded run |
| Formats.ShortestFormat | nanoprintf.h:1692-2064 | %g, written in any way, on the exact domain, no tie unseen: its value rounded to the digits asked for, one for zero, six without a precision |
| Sink.BufPutc.Put | nanoprintf.h:1640-1644 | a character is stored and the cursor moves exactly while there is room |
| Sink.BufPutc.PutAll | nanoprintf.h:1640-1644 | of any stream the longest prefix that fits is kept, and no other byte changes |
| Sink.Vsnprintf | nanoprintf.h:2080-2097 | returns the length of the whole output whatever the buffer; the bytes left are its truncation and a terminator |

## Left out

- The preprocessor configurations other than the one above: 16-bit `int`, single precision, `w` modifiers, the CLZ intrinsics, compiled-out conversions.
- `long double` arguments wider than a double, which the code narrows first.
- `%n`, whose only effect is a store through a caller's pointer.
- `va_list`: arguments are a typed sequence, and `ArgsMatch` asks the caller to supply what the format consumes; an integer argument is 64 bits of which a conversion takes the low ones its length modifier names.
- The wrapping of `float` arguments (nanoprintf.h:2137-2314) and the reinterpretation of a double as bits.
- The callback's effects: it appends to a sequence. `Sink.Vsnprintf` hands that sequence on in order, since the engine never looks at the sink.
- String arguments without a terminator that rely on a precision: a string is its characters before the terminator.
- Overflow of the returned `int` when fields add up to more than INT_MAX characters.
- Conversion integers wider than 512 bits and buffers larger than 65280 bytes.
- The widths of the loop counters and of `npf_ftoa_dec_t`: indices are unbounded, and proved to stay inside the buffer.
- PrintedError.PreparedError: does not compare with the value a subnormal under less than 64 bits; BelowOneError bounds its scaling against what the cut keeps of it.
- PrintedError.FixedRounds: is about precisions that reach the first digit of the fraction; at the others %f prints the integer part, or one unit of the last place more, as `Fused.Conversion` has it.
- ScientificFields.ShortestReadsBack: is about the exact domain, like ShortestOutputExact, on which it rests; ShortestReadsRun is about every finite double.
