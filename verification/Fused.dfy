/**
 * npf_ftoa_rev, the fused %f conversion: as a number. Conversion yields the integer the digits
 * written to the buffer denote, in units of 10^-prec, and Text what the buffer ends up holding.
 */
module Fused {
  import opened Arithmetic
  import opened Rounding
  import opened DecimalText
  import opened Doubles
  import opened DigitGeneration
  import I = IntegerPart
  import F = FractionPart

  /** The fraction digits of the buffer before rounding, and what is left of the mantissa. */
  datatype Fraction = Fraction(digits: nat, rem: nat, exp: int)

  function Nudged(B: nat, s: F.Scaled): nat
    requires IsWidth(B)
  {
    if s.man != 16 * Unit(B) - 1 then s.man + s.carry else s.man
  }

  function FractionDigits(B: nat, x: Finite, prec: nat): Fraction
    requires IsWidth(B) && IsFinite(x) && x.exp < MAN_BITS
  {
    var s := F.Scale(B, F.Start(B, x), prec);
    if s.zeros < prec then
      var r := Generate(B, Nudged(B, s), 0, 0, prec - s.zeros, true);
      Fraction(r.g, r.rem, s.exp)
    else
      Fraction(0, Nudged(B, s), s.exp)
  }

  /** Half rounds to the even last digit, more than half rounds up. */
  predicate RemainderRounds(u: nat, rem: nat, last: nat) { rem >= 8 * u && (rem == 8 * u ==> last % 2 == 1) }

  function RoundsUp(B: nat, f: Fraction, last: nat): bool
    requires IsWidth(B)
  {
    f.exp >= 0 && RemainderRounds(Unit(B), f.rem, last)
  }

  function Conversion(B: nat, x: Finite, prec: nat): nat
    requires IsWidth(B) && IsFinite(x)
  {
    var i := I.Convert(B, x);
    if I.HasFraction(B, x) then
      var f := FractionDigits(B, x, prec);
      var n := Tenfold(i.man, prec) + f.digits;
      if RoundsUp(B, f, n) then n + 1 else n
    else
      Tenfold(Tenfold(i.man + i.carry, i.tens), prec)
  }

  function Text(B: nat, x: Finite, prec: nat, alt: bool): seq<char>
    requires IsWidth(B) && IsFinite(x)
  {
    Fixed(Conversion(B, x, prec), prec, prec > 0 || alt)
  }

  /** Where the point and the zeros above it end, and the integer digits begin. */
  function Lead(B: nat, x: Finite, prec: nat, alt: bool): nat
    requires IsWidth(B)
  {
    prec + (if prec > 0 || alt then 1 else 0) + I.Convert(B, x).tens
  }

  /**
   * The capacity checks, in one place. A conversion integer of at most 32 bits reserves room for
   * ten integer digits whatever the value; a wider one fails only when the text does not fit.
   */
  predicate Fits(B: nat, C: nat, x: Finite, prec: nat, alt: bool)
    requires IsWidth(B) && IsFinite(x)
  {
    && (B <= 32 ==> Lead(B, x, prec, alt) + 10 <= C)
    && |Text(B, x, prec, alt)| <= C
  }

  // ---------------------------------------------------------------------------------------------
  // On the exact domain the conversion is the correctly rounded decimal.

  lemma ConversionExact(B: nat, x: Finite, prec: nat, V: nat)
    requires IsWidth(B) && IsFinite(x) && IsExact(B, x, V)
    ensures Conversion(B, x, prec) == RoundAt(Num(x), Den(x), prec)
  {
    RoundAtUp(Num(x), Den(x), prec);
    I.ConvertExact(B, x, V);
    if x.exp >= MAN_BITS {
      ConversionOfInteger(I.Convert(B, x), Num(x), prec);
    } else {
      RoundInUnits(x, V, Pow(2, B - 3), Pow(10, prec));
      FractionExact(B, x, prec, V);
    }
  }

  lemma ConversionOfInteger(i: I.Scaled, n: nat, prec: nat)
    requires i == I.Scaled(n, 0, 0)
    ensures Tenfold(Tenfold(i.man + i.carry, i.tens), prec) == RoundHalfEven(n * Pow(10, prec), 1)
  {
    assert Pow(10, 0) == 1;
    assert Tenfold(n, 0) == n;
    RoundInteger(n * Pow(10, prec));
  }

  lemma RoundInteger(n: nat)
    ensures RoundHalfEven(n, 1) == n
  {
  }

  /** How the scaling of an exact fraction ends: with the first digit ready, or out of places. */
  lemma ScaledFraction(B: nat, x: Finite, prec: nat, V: nat)
    requires IsWidth(B) && IsFinite(x) && IsExact(B, x, V) && x.exp < MAN_BITS
    ensures var s := F.Scale(B, F.Start(B, x), prec);
            && F.IsState(B, s) && F.IsExactly(s, V % Pow(2, B - 3))
            && (s.zeros < prec ==> s.exp == 4 && s.digit)
            && (s.zeros >= prec ==> s.zeros == prec && s.exp <= 0 && !s.digit)
  {
    F.StartExact(B, x, V);
    F.StartFits(B, x);
    F.ScaleFits(B, F.Start(B, x), prec);
    F.ScaleExact(B, F.Start(B, x), prec, V % Pow(2, B - 3));
    if prec > 0 { F.ScaleStops(B, F.Start(B, x), prec); }
  }

  /** The integer part of V / K, K = 2^(B-3), in units of 10^-prec, and V / K itself rounded to them. */
  function WholeUnits(B: nat, V: nat, prec: nat): nat
    requires IsWidth(B)
  {
    Tenfold(V / Pow(2, B - 3), prec)
  }

  function NearestUnits(B: nat, V: nat, prec: nat): nat
    requires IsWidth(B)
  {
    RoundHalfEven(Tenfold(V, prec), Pow(2, B - 3))
  }

  /** The digits f over the integer part of V / K, rounded as the code rounds them, are right. */
  ghost predicate IsRounded(B: nat, V: nat, prec: nat, f: Fraction)
    requires IsWidth(B)
  {
    var n := WholeUnits(B, V, prec) + f.digits;
    NearestUnits(B, V, prec) == if RoundsUp(B, f, n) then n + 1 else n
  }

  lemma FractionExact(B: nat, x: Finite, prec: nat, V: nat)
    requires IsWidth(B) && IsFinite(x) && IsExact(B, x, V) && x.exp < MAN_BITS
    ensures IsRounded(B, V, prec, FractionDigits(B, x, prec))
  {
    ScaledFraction(B, x, prec, V);
    var s := F.Scale(B, F.Start(B, x), prec);
    if s.zeros < prec { ReadyRounds(B, s, V, prec); } else { StoppedRounds(B, s, V, prec); }
  }

  lemma ReadyRounds(B: nat, s: F.Scaled, V: nat, prec: nat)
    requires IsWidth(B) && F.IsState(B, s) && s.exp == 4 && s.digit && s.zeros < prec
    requires F.IsExactly(s, V % Pow(2, B - 3))
    ensures var r := Generate(B, Nudged(B, s), 0, 0, prec - s.zeros, true);
            IsRounded(B, V, prec, Fraction(r.g, r.rem, 4))
  {
    assert B >= 8;
    hide *;
    ReadyFraction(B, s, V % Pow(2, B - 3), prec);
    var r := Generate(B, Nudged(B, s), 0, 0, prec - s.zeros, true);
    RoundParts(B, V, prec, r.g, r.rem / 8);
    RoundedFromParts(B, V, prec, Fraction(r.g, r.rem, 4), r.rem / 8);
  }

  lemma StoppedRounds(B: nat, s: F.Scaled, V: nat, prec: nat)
    requires IsWidth(B) && F.IsState(B, s) && s.exp <= 0 && !s.digit && s.zeros == prec
    requires F.IsExactly(s, V % Pow(2, B - 3))
    ensures IsRounded(B, V, prec, Fraction(0, Nudged(B, s), s.exp))
  {
    var q := (V % Pow(2, B - 3)) * Pow(10, prec);
    F.StoppedMantissa(B, s, V % Pow(2, B - 3), Pow(10, prec));
    NudgeOfWhole(B, s);
    hide *;
    RoundParts(B, V, prec, 0, q);
    RoundedFromParts(B, V, prec, Fraction(0, Nudged(B, s), s.exp), q);
  }

  lemma NudgeOfWhole(B: nat, s: F.Scaled)
    requires IsWidth(B) && s.carry == 0
    ensures Nudged(B, s) == s.man
  {
  }

  /** Comparing what is left over with half a unit is comparing the mantissa with its top bit. */
  lemma RoundedFromParts(B: nat, V: nat, prec: nat, f: Fraction, rem: nat)
    requires IsWidth(B) && f.exp <= 4
    requires f.exp >= 0 ==> f.rem == 8 * rem
    requires f.exp < 0 ==> rem < Unit(B)
    requires IsSplit(B, V, prec, f.digits, rem)
    ensures IsRounded(B, V, prec, f)
  {
    hide WholeUnits, NearestUnits, Unit;
  }

  /** Above the digits there is rem / 2^(B-3) more, by which the value is rounded. */
  ghost predicate IsSplit(B: nat, V: nat, prec: nat, digits: nat, rem: nat)
    requires IsWidth(B)
  {
    var n := WholeUnits(B, V, prec) + digits;
    NearestUnits(B, V, prec) == if rem > Unit(B) || (rem == Unit(B) && n % 2 == 1) then n + 1 else n
  }

  lemma RoundParts(B: nat, V: nat, prec: nat, digits: nat, rem: nat)
    requires IsWidth(B) && rem < 2 * Unit(B)
    requires (V % Pow(2, B - 3)) * Pow(10, prec) == digits * (2 * Unit(B)) + rem
    ensures IsSplit(B, V, prec, digits, rem)
  {
    UnitPowers(B);
    var ten, K := Pow(10, prec), Pow(2, B - 3);
    var whole, Q := V / K, V % K;
    assert WholeUnits(B, V, prec) == whole * ten && NearestUnits(B, V, prec) == RoundHalfEven(V * ten, K);
    hide WholeUnits, NearestUnits, Pow, RoundHalfEven, Tenfold, Unit;
    DivModEquation(V, K);
    PartsOfValue(whole, Q, ten, K, digits, rem);
    RoundFromParts(V * ten, K, whole * ten + digits, rem);
  }

  lemma ReadyFraction(B: nat, s: F.Scaled, Q: nat, prec: nat)
    requires IsWidth(B) && F.IsState(B, s) && s.exp == 4 && s.digit && s.zeros < prec && F.IsExactly(s, Q)
    ensures var r := Generate(B, Nudged(B, s), 0, 0, prec - s.zeros, true);
            && Q * Pow(10, prec) == r.g * (2 * Unit(B)) + r.rem / 8
            && r.rem % 16 == 0 && r.rem < 16 * Unit(B)
  {
    F.ReadyMantissa(s, Q);
    var nd := prec - s.zeros;
    GenerateValue(B, s.man, 0, 0, nd, true);
    PowAdd(10, s.zeros, nd);
    var r := Generate(B, s.man, 0, 0, nd, true);
    DigitsOfFraction(Q, Pow(10, s.zeros), Pow(10, nd - 1), Pow(10, prec), s.man, r.g, Unit(B), r.rem);
  }

  lemma DigitsOfFraction(Q: nat, a: nat, b: nat, ten: nat, man: nat, digits: nat, u: nat, rem: nat)
    requires man == 5 * (Q * a) && ten == a * (10 * b) && rem % 16 == 0
    requires digits * u + rem / 16 == (0 * (10 * b)) * u + man * b
    ensures Q * ten == digits * (2 * u) + rem / 8
  {
    assert Q * (a * (10 * b)) == (Q * a) * (10 * b) == 10 * ((Q * a) * b);
    assert (5 * (Q * a)) * b == 5 * ((Q * a) * b);
    assert digits * (2 * u) == 2 * (digits * u);
  }

  lemma PartsOfValue(whole: nat, Q: nat, ten: nat, K: nat, digits: nat, rem: nat)
    requires Q * ten == digits * K + rem
    ensures (whole * K + Q) * ten == (whole * ten + digits) * K + rem
  {
    assert (whole * K) * ten == (whole * ten) * K;
  }
}
