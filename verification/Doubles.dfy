/** IEEE 754 binary64 bit patterns, their exact values, and the width of the conversion integer. */
module Doubles {
  import opened Arithmetic
  import opened Rounding

  const MAN_BITS: nat := 52
  const EXP_BIAS: nat := 1023
  const BIN_BITS: nat := 64

  const HIDDEN_BIT: nat := 0x10_0000_0000_0000        // 2^52
  const SIGN_BIT: nat := 0x8000_0000_0000_0000        // 2^63
  const BIN_MODULUS: nat := 0x1_0000_0000_0000_0000   // 2^64

  /** A finite magnitude bin * 2^(exp - 52), normal or subnormal. */
  datatype Finite = Finite(bin: nat, exp: int)

  datatype Class = Number(x: Finite) | Infinity | NotANumber

  predicate IsFinite(x: Finite) {
    && x.bin < 2 * HIDDEN_BIT
    && -1022 <= x.exp <= 1023
    && (x.exp > -1022 ==> x.bin >= HIDDEN_BIT)
  }

  function Negative(bits: nat): bool { bits / SIGN_BIT != 0 }

  /** The field extraction that opens every float conversion. */
  function Decode(bits: nat): (c: Class)
    requires bits < BIN_MODULUS
    ensures c.Number? ==> IsFinite(c.x)
  {
    var field := bits / HIDDEN_BIT % 2048;
    var bin := bits % HIDDEN_BIT;
    if (field + 1) % 2048 == 0 then (if bin != 0 then NotANumber else Infinity)
    else if field != 0 then Number(Finite(bin + HIDDEN_BIT, field - EXP_BIAS))
    else Number(Finite(bin, 1 - EXP_BIAS))
  }

  /** The bits below the sign. */
  function BelowSign(bits: nat): nat { bits % 0x8000_0000_0000_0000 }

  /**
   * The interchange format of IEEE 754 section 3.4, by the order of the bit patterns: finite values
   * below the one of infinity, NaN above it; a biased exponent over 52 fraction bits.
   */
  lemma DecodeIs(bits: nat)
    requires bits < BIN_MODULUS
    ensures Negative(bits) <==> bits >= 0x8000_0000_0000_0000
    ensures var m := BelowSign(bits);
            Decode(bits) ==
            if m > 0x7FF0_0000_0000_0000 then NotANumber
            else if m == 0x7FF0_0000_0000_0000 then Infinity
            else if m < 0x10_0000_0000_0000 then Number(Finite(m, -1022))
            else Number(Finite(0x10_0000_0000_0000 + m % 0x10_0000_0000_0000, m / 0x10_0000_0000_0000 - 1023))
  {
    var m := BelowSign(bits);
    var field, bin := m / HIDDEN_BIT, m % HIDDEN_BIT;
    assert bits / HIDDEN_BIT % 2048 == field && bits % HIDDEN_BIT == bin;
    assert m == field * HIDDEN_BIT + bin && field < 2048;
  }

  function Encode(negative: bool, x: Finite): nat
    requires IsFinite(x)
  {
    (if negative then SIGN_BIT else 0) +
    if x.bin >= HIDDEN_BIT then (x.exp + EXP_BIAS - 1) * HIDDEN_BIT + x.bin else x.bin
  }

  /** Every finite magnitude with either sign is the decoding of a bit pattern. */
  lemma DecodeEncode(negative: bool, x: Finite)
    requires IsFinite(x)
    ensures Encode(negative, x) < BIN_MODULUS
    ensures Decode(Encode(negative, x)) == Number(x) && Negative(Encode(negative, x)) == negative
  {
    var sign := if negative then 2048 else 0;
    var field := if x.bin >= HIDDEN_BIT then x.exp + EXP_BIAS else 0;
    var frac := if x.bin >= HIDDEN_BIT then x.bin - HIDDEN_BIT else x.bin;
    var bits := Encode(negative, x);
    assert bits == (sign + field) * HIDDEN_BIT + frac;
    assert bits / HIDDEN_BIT == sign + field && bits % HIDDEN_BIT == frac;
  }

  /** The constants above are the powers of two they stand for. */
  lemma BitConstants()
    ensures Pow(2, MAN_BITS) == HIDDEN_BIT
    ensures Pow(2, BIN_BITS) == BIN_MODULUS
    ensures Pow(2, BIN_BITS - 1) == SIGN_BIT
  {
    assert Pow(2, 4) == 16;
    assert Pow(2, 1) == 2;
    hide *;
    PowAdd(2, 4, 4);
    PowAdd(2, 8, 8);
    PowAdd(2, 16, 16);
    PowAdd(2, 32, 16);
    PowAdd(2, 48, 4);
    PowAdd(2, 32, 32);
    PowAdd(2, 63, 1);
  }

  // ---------------------------------------------------------------------------------------------
  // The exact value, as a fraction.

  /** The value is Num / Den; Den is a power of two and is 1 for every value from 2^52 on. */
  function Num(x: Finite): nat {
    x.bin * Pow(2, if x.exp > MAN_BITS then x.exp - MAN_BITS else 0)
  }

  function Den(x: Finite): (d: nat)
    ensures d > 0
  {
    Pow(2, if x.exp < MAN_BITS then MAN_BITS - x.exp else 0)
  }

  // ---------------------------------------------------------------------------------------------
  // The conversion integer of B bits.

  predicate IsWidth(B: nat) { B % 4 == 0 && 8 <= B <= 512 }

  /** 2^(B-4), the weight of the lowest of the top four bits: 2^B is sixteen of these. */
  function Unit(B: nat): (u: nat)
    requires IsWidth(B)
    ensures u >= 16
  {
    PowMonotone(2, 4, B - 4);
    Pow(2, B - 4)
  }

  lemma UnitPowers(B: nat)
    requires IsWidth(B)
    ensures Pow(2, B - 3) == 2 * Unit(B)
    ensures Pow(2, B - 1) == 8 * Unit(B)
    ensures Pow(2, B) == 16 * Unit(B)
    ensures Unit(B) % 5 == 1
  {
    PowSixteenModFive(B - 4);
    assert Pow(2, B) == 2 * Pow(2, B - 1) == 4 * Pow(2, B - 2) == 8 * Pow(2, B - 3);
  }

  function ShiftBits(B: nat): int { Min(B, MAN_BITS + 1) - 1 }

  /**
   * v is exactly representable by B integer bits and B-3 fraction bits, and V is v * 2^(B-3):
   * the numbers the library's documentation calls converted perfectly.
   */
  ghost predicate IsExact(B: nat, x: Finite, V: nat)
    requires IsWidth(B)
  {
    Num(x) * Pow(2, B - 3) == V * Den(x) && V < Pow(2, B) * Pow(2, B - 3)
  }

  /** The lowest k bits of n are zero. */
  predicate HasZeroBits(n: nat, k: int)
    decreases k
  {
    k <= 0 || (n % 2 == 0 && HasZeroBits(n / 2, k - 1))
  }

  /** The exact domain by the bits: the exponent is below B, and no bit lies under 2^-(B-3). */
  predicate InExactDomain(B: nat, x: Finite)
    requires IsWidth(B)
  {
    x.exp < B && HasZeroBits(x.bin, MAN_BITS - x.exp - (B - 3))
  }

  lemma {:induction false} ZeroBitsDivide(n: nat, k: nat)
    ensures HasZeroBits(n, k) <==> n % Pow(2, k) == 0
    decreases k
  {
    if k == 0 {
      assert n % 1 == 0;
    } else {
      ZeroBitsDivide(n / 2, k - 1);
      var p := Pow(2, k - 1);
      assert Pow(2, k) == 2 * p;
      hide Pow;
      DivDiv(n, 2, p);
    }
  }

  /** A value with those bits is V / 2^(B-3) for an integer V below 2^(2B-3). */
  lemma ExactValue(B: nat, x: Finite) returns (V: nat)
    requires IsWidth(B) && IsFinite(x) && InExactDomain(B, x)
    ensures IsExact(B, x, V)
  {
    var d := MAN_BITS - x.exp - (B - 3);
    var K := Pow(2, B - 3);
    ExactBelow(B, x);
    assert Den(x) > 0;
    if x.exp >= MAN_BITS {
      V := Num(x) * K;
      assert Num(x) * K == V * Den(x);
    } else if d <= 0 {
      PowAdd(2, -d, MAN_BITS - x.exp);
      V := Num(x) * Pow(2, -d);
      assert Num(x) == x.bin * 1;
      hide *;
      MulAssoc(Num(x), Pow(2, -d), Den(x));
    } else {
      ZeroBitsDivide(x.bin, d);
      PowAdd(2, d, B - 3);
      var p := Pow(2, d);
      V := x.bin / p;
      assert Num(x) == x.bin * 1 && Den(x) == p * K;
      hide *;
      DivModEquation(x.bin, p);
      MulAssoc(V, p, K);
    }
    ExactBound(Num(x), Den(x), V, K, Pow(2, B));
    IsExactWhen(B, x, V);
  }

  lemma IsExactWhen(B: nat, x: Finite, V: nat)
    requires IsWidth(B) && Num(x) * Pow(2, B - 3) == V * Den(x) && V < Pow(2, B) * Pow(2, B - 3)
    ensures IsExact(B, x, V)
  {
  }

  lemma ExactBound(n: nat, d: nat, V: nat, K: nat, m: nat)
    requires d > 0 && K > 0 && n * K == V * d && n < m * d
    ensures V < m * K
  {
    MulMonotone(n + 1, m * d, K);
    assert (n + 1) * K == n * K + K && (m * d) * K == (m * K) * d;
    MulCancelLess(V, m * K, d);
  }

  /** The value is below 2^B exactly when its exponent is below B, zero aside. */
  lemma ExactBelow(B: nat, x: Finite)
    requires IsWidth(B) && IsFinite(x)
    ensures Num(x) < Pow(2, B) * Den(x) <==> x.exp < B
  {
    var e := if x.exp > MAN_BITS then x.exp - MAN_BITS else 0;
    var f := if x.exp < MAN_BITS then MAN_BITS - x.exp else 0;
    assert Num(x) == x.bin * Pow(2, e) && Den(x) == Pow(2, f);
    assert x.exp >= B ==> x.bin >= HIDDEN_BIT;
    assert x.bin < 2 * HIDDEN_BIT && Pow(2, MAN_BITS + 1) == 2 * Pow(2, MAN_BITS);
    hide *;
    BitConstants();
    PowAdd(2, B, f);
    var p, bound := Pow(2, e), Pow(2, B + f);
    if x.exp < B {
      PowAdd(2, MAN_BITS + 1, e);
      PowMonotone(2, MAN_BITS + 1 + e, B + f);
      TimesBelow(x.bin, 2 * HIDDEN_BIT, p, bound);
    } else {
      PowAdd(2, MAN_BITS, e);
      PowMonotone(2, B + f, MAN_BITS + e);
      TimesAbove(HIDDEN_BIT, x.bin, p, bound);
    }
  }

  lemma TimesBelow(n: nat, m: nat, p: nat, bound: nat)
    requires n < m && p > 0 && m * p <= bound
    ensures n * p < bound
  {
    MulMonotone(n + 1, m, p);
    assert (n + 1) * p == n * p + p;
  }

  lemma TimesAbove(m: nat, n: nat, p: nat, bound: nat)
    requires m <= n && bound <= m * p
    ensures bound <= n * p
  {
    MulMonotone(m, n, p);
  }

  /** And the other way round: only those values are. */
  lemma ExactHasBits(B: nat, x: Finite, V: nat)
    requires IsWidth(B) && IsFinite(x) && IsExact(B, x, V)
    ensures InExactDomain(B, x)
  {
    var d, K := MAN_BITS - x.exp - (B - 3), Pow(2, B - 3);
    ExactBelow(B, x);
    ExactBound(V, K, Num(x), Den(x), Pow(2, B));
    if d > 0 {
      PowAdd(2, d, B - 3);
      var p := Pow(2, d);
      assert Num(x) == x.bin * 1 && Den(x) == p * K;
      MulAssoc(V, p, K);
      MulCancel(x.bin, V * p, K);
      DivModUnique(x.bin, p, V, 0);
      ZeroBitsDivide(x.bin, d);
    }
  }

  /** On the exact domain the value is V / 2^(B-3), so rounding it is rounding that fraction. */
  lemma RoundInUnits(x: Finite, V: nat, K: nat, ten: nat)
    requires K > 0 && Num(x) * K == V * Den(x)
    ensures RoundHalfEven(Num(x) * ten, Den(x)) == RoundHalfEven(V * ten, K)
  {
    ScaleBoth(Num(x), Den(x), V, K, ten);
    RoundRatio(Num(x) * ten, Den(x), V * ten, K);
  }

  lemma ScaleBoth(n: nat, d: nat, V: nat, K: nat, ten: nat)
    requires n * K == V * d
    ensures (n * ten) * K == (V * ten) * d
  {
    assert (n * ten) * K == (n * K) * ten == (V * d) * ten;
  }
}
