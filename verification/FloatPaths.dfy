/**
 * What the two conversions print, compared with the decimal they should print and with each other.
 */
module FloatPaths {
  import opened Arithmetic
  import opened Rounding
  import opened Numerals
  import opened DecimalText
  import opened Doubles
  import opened Shared
  import opened SharedExact
  import opened Shortest
  import opened SharedBuffer
  import opened SharedLayout
  import opened SharedConversion
  import I = IntegerPart
  import Fused
  import FusedBuffer

  /** The correctly rounded decimal in style f. */
  function RightFixed(x: Finite, prec: nat, alt: bool): seq<char> {
    Fixed(RoundAt(Num(x), Den(x), prec), prec, prec > 0 || alt)
  }

  // ---------------------------------------------------------------------------------------------
  // %f on the exact domain.

  /** The point is stored over a digit only for whole texts whose integer digits fill the buffer. */
  predicate FillsBuffer(C: nat, x: Finite, prec: nat, alt: bool) {
    prec == 0 && !alt && |DecNumeral(Num(x) / Den(x))| == C
  }

  lemma OverrunIsLong(B: nat, C: nat, x: Finite, prec: nat, alt: bool)
    requires IsWidth(B) && IsFinite(x) && InExactDomain(B, x) && IsCapacity(C) && Overruns(B, C, x)
    ensures C < |RightFixed(x, prec, alt)|
  {
    var V := ExactValue(B, x);
    I.ConvertExact(B, x, V);
    var man := I.Convert(B, x).man;
    hide InExactDomain, RoundAt, Numeral, Fixed, I.Convert, IsExact, Pow;
    WholeBelow(Num(x), Den(x));
    FloorOverWhole(man, Num(x), Den(x), prec);
    LongText(RoundAt(Num(x), Den(x), prec), man, prec, prec > 0 || alt);
  }

  lemma WholeBelow(n: nat, d: nat)
    requires d > 0
    ensures (n / d) * d <= n
  {
    DivModEquation(n, d);
  }

  lemma FixedLonger(n: nat, prec: nat, alt: bool)
    ensures |Fixed(n, prec, prec > 0)| <= |Fixed(n, prec, prec > 0 || alt)|
  {
    hide Digits, Numeral, High;
  }

  /** The length of a text of style f, in terms of the run it was laid out from. */
  lemma FixedLength(B: nat, C: nat, x: Finite, prec: nat, alt: bool)
    requires IsWidth(B) && IsFinite(x) && IsCapacity(C)
    ensures var r := Rounded(B, x, FixedBound(C, prec));
            && |Fixed(FixedConversion(B, C, x, prec), prec, prec > 0 || alt)| ==
               r.nsig + r.dec + prec + (if prec > 0 || alt then 1 else 0)
            && WholePlaces(I.Convert(B, x), true) <= r.nsig + r.dec <= WholePlaces(I.Convert(B, x), true) + 1
            && r.dec + prec >= 0
  {
    RoundedLayout(B, C, x, prec, alt);
    RoundedPlaces(B, x, FixedBound(C, prec));
    hide Rounded, FixedConversion, Fixed, Digits, IsFinite, I.Convert, WholePlaces;
  }

  /** Rounding moves the leading digit up by at most one place. */
  lemma RoundedPlaces(B: nat, x: Finite, b: Bound)
    requires IsWidth(B) && IsFinite(x) && IsBound(b)
    ensures var r, i := Rounded(B, x, b), I.Convert(B, x);
            && (b.fixed || i.man > 0 ==> WholePlaces(i, b.fixed) <= r.nsig + r.dec <= WholePlaces(i, b.fixed) + 1)
  {
    var g := GenerateRun(B, x, b);
    RunShape(B, x, b);
    KeptShape(B, x, b);
    if b.fixed || I.Convert(B, x).man > 0 { SomeDigits(B, x, b); }
    hide GenerateRun, I.Convert, Pow, IsFinite, WholePlaces, Round;
    DropShape(OrZero(g), Excess(OrZero(g), b));
    RoundShape(Kept(B, x, b));
  }

  lemma SomeDigits(B: nat, x: Finite, b: Bound)
    requires IsWidth(B) && IsFinite(x) && IsBound(b) && (b.fixed || I.Convert(B, x).man > 0)
    ensures GenerateRun(B, x, b).nsig >= 1 && OrZero(GenerateRun(B, x, b)) == GenerateRun(B, x, b)
  {
    RunShape(B, x, b);
    IntegerDigitsFit'(B, x, b);
    hide GenerateRun, IsFinite;
  }

  lemma IntegerDigitsFit'(B: nat, x: Finite, b: Bound)
    requires IsWidth(B) && IsFinite(x) && (b.fixed || I.Convert(B, x).man > 0)
    ensures WholePlaces(I.Convert(B, x), b.fixed) >= 1
  {
    hide I.Convert, Numeral;
  }

  /** With no fraction digits the kept run ends where the integer scaling did. */
  lemma KeptAtPoint(B: nat, C: nat, x: Finite)
    requires IsWidth(B) && IsFinite(x) && IsCapacity(C)
    ensures Kept(B, x, FixedBound(C, 0)).dec == I.Convert(B, x).tens
  {
    var b := FixedBound(C, 0);
    var g := GenerateRun(B, x, b);
    RunShape(B, x, b);
    WholeRunEnds(B, x, b);
    KeptIs(B, x, b);
    hide GenerateRun, I.Convert, IsFinite, HasLead, IsRun;
    DroppedTo(OrZero(g), Excess(OrZero(g), b));
  }

  lemma KeptIs(B: nat, x: Finite, b: Bound)
    requires IsWidth(B) && IsFinite(x) && IsBound(b)
    ensures var r := OrZero(GenerateRun(B, x, b));
            r.nsig > Excess(r, b) && Kept(B, x, b) == Drop(r, Excess(r, b))
  {
    RunShape(B, x, b);
    hide GenerateRun;
  }

  lemma DroppedTo(r: Run, drop: int)
    requires drop < r.nsig
    ensures Drop(r, drop).dec == r.dec + Max(0, drop)
  {
  }

  lemma WholeRunEnds(B: nat, x: Finite, b: Bound)
    requires IsWidth(B) && IsFinite(x) && IsBound(b) && b.fixed
    ensures !I.HasFraction(B, x) ==> GenerateRun(B, x, b).dec == I.Convert(B, x).tens
    ensures I.HasFraction(B, x) ==> I.Convert(B, x).tens == 0 && GenerateRun(B, x, b).dec <= 0
  {
    RunShape(B, x, b);
  }

  /** A whole number without a point, of as many digits as the buffer holds. */
  predicate LosesDigit(B: nat, C: nat, x: Finite, prec: nat, alt: bool)
    requires IsWidth(B)
  {
    prec == 0 && !alt && I.Convert(B, x).tens == 0 && |DecNumeral(I.Convert(B, x).man)| == C
  }

  /** Every input: when a text fits, its point falls on a digit exactly when it has C integer digits. */
  lemma ClobbersExactly(B: nat, C: nat, x: Finite, prec: nat, alt: bool)
    requires IsWidth(B) && IsFinite(x) && IsCapacity(C)
    requires |Fixed(FixedConversion(B, C, x, prec), prec, prec > 0 || alt)| <= C
    ensures Clobbers(B, C, x, prec, alt) <==> LosesDigit(B, C, x, prec, alt)
  {
    FixedLength(B, C, x, prec, alt);
    if prec == 0 {
      var k := Kept(B, x, FixedBound(C, 0));
      KeptAtPoint(B, C, x);
      KeptShape(B, x, FixedBound(C, 0));
      KeptPlaces(B, x, FixedBound(C, 0));
      RoundShape(k);
      hide Kept, Round, I.Convert, Fixed, FixedConversion, IsFinite, HasLead, IsRun, Numeral;
    }
  }

  lemma KeptPlaces(B: nat, x: Finite, b: Bound)
    requires IsWidth(B) && IsFinite(x) && IsBound(b) && b.fixed
    ensures Kept(B, x, b).nsig + Kept(B, x, b).dec == WholePlaces(I.Convert(B, x), true)
  {
    var g := GenerateRun(B, x, b);
    RunShape(B, x, b);
    KeptIs(B, x, b);
    hide GenerateRun, I.Convert, IsFinite, WholePlaces;
    DropShape(OrZero(g), Excess(OrZero(g), b));
  }

  lemma ConvertDigitsExact(B: nat, x: Finite, V: nat)
    requires IsWidth(B) && IsFinite(x) && IsExact(B, x, V)
    ensures I.Convert(B, x).man == Num(x) / Den(x) && I.Convert(B, x).tens == 0
  {
    I.ConvertExact(B, x, V);
  }

  /**
   * The shared %f on the exact domain: ERR exactly when the correctly rounded decimal is longer
   * than the buffer, and otherwise that decimal, except that a text of exactly C integer digits and
   * no point loses its last digit to the store of the point.
   */
  lemma FixedOutputExact(B: nat, C: nat, x: Finite, prec: nat, alt: bool)
    requires IsWidth(B) && IsFinite(x) && InExactDomain(B, x) && IsCapacity(C)
    ensures var t := RightFixed(x, prec, alt);
            FixedOutput(B, C, x, prec, alt) ==
            if |t| > C then TooLong
            else Printed(if FillsBuffer(C, x, prec, alt) then t[0 := '.'] else t)
  {
    var V := ExactValue(B, x);
    var n := FixedConversion(B, C, x, prec);
    FixedExact(B, C, x, prec, V);
    ConvertDigitsExact(B, x, V);
    if Overruns(B, C, x) { OverrunIsLong(B, C, x, prec, alt); }
    hide InExactDomain, IsFinite, IsExact, I.Convert, Overruns, Clobbers, FixedConversion, RoundAt, Fixed,
        Numeral, Num, Den;
    FixedLonger(n, prec, alt);
    FixedLonger(RoundAt(Num(x), Den(x), prec), prec, alt);
    if |Fixed(n, prec, prec > 0 || alt)| <= C { ClobbersExactly(B, C, x, prec, alt); }
  }

  lemma FirstCharacter(n: nat)
    ensures Fixed(n, 0, false)[0] != '.'
  {
    FusedBuffer.FixedAtZero(n, false);
    FusedBuffer.LowestDigit(n);
    hide Numeral, Fixed;
  }

  /** The shared %f prints the right decimal if and only if it fits and does not fill the buffer. */
  lemma FixedOutputRight(B: nat, C: nat, x: Finite, prec: nat, alt: bool)
    requires IsWidth(B) && IsFinite(x) && InExactDomain(B, x) && IsCapacity(C)
    ensures FixedOutput(B, C, x, prec, alt) == Printed(RightFixed(x, prec, alt)) <==>
            |RightFixed(x, prec, alt)| <= C && !FillsBuffer(C, x, prec, alt)
  {
    var V := ExactValue(B, x);
    FixedOutputExact(B, C, x, prec, alt);
    if prec == 0 && !alt { FirstCharacter(RoundAt(Num(x), Den(x), 0)); }
    hide InExactDomain, Num, Den, IsExact, IsFinite, RoundAt, Fixed, FixedOutput, Numeral;
    var t := RightFixed(x, prec, alt);
    if FillsBuffer(C, x, prec, alt) && |t| >= 1 { assert t[0 := '.'][0] == '.'; }
  }

  /** The fused %f on the exact domain: what it prints is the same decimal. */
  lemma FusedTextExact(B: nat, x: Finite, prec: nat, alt: bool)
    requires IsWidth(B) && IsFinite(x) && InExactDomain(B, x)
    ensures Fused.Text(B, x, prec, alt) == RightFixed(x, prec, alt)
  {
    var V := ExactValue(B, x);
    Fused.ConversionExact(B, x, prec, V);
  }

  /** A conversion integer of up to 72 bits has at most 22 digits, fewer than the smallest buffer. */
  lemma NarrowNeverFills(B: nat, C: nat, x: Finite)
    requires IsWidth(B) && IsFinite(x) && IsCapacity(C) && B <= 72
    ensures |DecNumeral(I.Convert(B, x).man)| < C && !Overruns(B, C, x)
  {
    I.ConvertBounds(B, x);
    var man := I.Convert(B, x).man;
    NumeralLength(man, 10, 0);
    SeventyTwoBits(B);
    hide I.Convert, Numeral, IsFinite, Pow;
    if |DecNumeral(man)| > 22 { PowMonotone(10, 22, |DecNumeral(man)| - 1); }
  }

  lemma SeventyTwoBits(B: nat)
    requires IsWidth(B) && B <= 72
    ensures 16 * Unit(B) <= Pow(10, 22)
  {
    UnitPowers(B);
    assert Pow(2, 4) == 16 && Pow(10, 4) == 10000 && Pow(10, 2) == 100;
    hide *;
    PowMonotone(2, B, 72);
    PowAdd(2, 4, 4);
    PowAdd(2, 8, 8);
    PowAdd(2, 16, 16);
    PowAdd(2, 32, 32);
    PowAdd(2, 64, 8);
    PowAdd(10, 4, 4);
    PowAdd(10, 8, 8);
    PowAdd(10, 16, 4);
    PowAdd(10, 20, 2);
  }

  /**
   * The two %f conversions on the exact domain: the shared one reports ERR exactly when the fused
   * text is longer than the buffer; any other text it prints too, if and only if that text does
   * not fill the buffer with integer digits.
   */
  lemma PathsAgreeExactly(B: nat, C: nat, x: Finite, prec: nat, alt: bool)
    requires IsWidth(B) && IsFinite(x) && InExactDomain(B, x) && IsCapacity(C)
    ensures var t, out := Fused.Text(B, x, prec, alt), FixedOutput(B, C, x, prec, alt);
            && (out == TooLong <==> |t| > C)
            && (Fused.Fits(B, C, x, prec, alt) ==> (out == Printed(t) <==> !FillsBuffer(C, x, prec, alt)))
            && (B > 32 && !Fused.Fits(B, C, x, prec, alt) ==> out == TooLong)
  {
    FusedTextExact(B, x, prec, alt);
    FixedOutputExact(B, C, x, prec, alt);
    FixedOutputRight(B, C, x, prec, alt);
    hide InExactDomain, RightFixed, Fused.Text, FixedOutput, FillsBuffer, IsFinite;
  }

  lemma WholeText(x: Finite)
    requires Den(x) == 1
    ensures RightFixed(x, 0, false) == DecNumeral(Num(x)) && Num(x) / Den(x) == Num(x)
  {
    assert Pow(10, 0) == 1;
    assert Tenfold(Num(x), 0) == Num(x);
    Fused.RoundInteger(Num(x));
    hide Num, Pow, Numeral;
    FusedBuffer.FixedAtZero(Num(x), false);
  }

  /** 2^74 has 23 digits: a 128-bit integer and a 23-byte buffer print it with its last digit lost. */
  lemma PointLosesDigit()
    ensures var x := Finite(HIDDEN_BIT, 74);
            && IsFinite(x) && |RightFixed(x, 0, false)| == 23
            && FixedOutput(128, 23, x, 0, false) == Printed(RightFixed(x, 0, false)[0 := '.'])
            && FixedOutput(128, 23, x, 0, false) != Printed(RightFixed(x, 0, false))
  {
    var x, n := Finite(HIDDEN_BIT, 74), 18889465931478580854784;
    TwentyThreeDigits(n);
    assert Pow(2, 22) == 4194304 by {
      assert Pow(2, 4) == 16;
      PowAdd(2, 4, 4);
      PowAdd(2, 8, 8);
      PowAdd(2, 16, 4);
      PowAdd(2, 20, 2);
    }
    assert Num(x) == n && Den(x) == 1 && IsFinite(x);
    WholeText(x);
    assert InExactDomain(128, x);
    hide *;
    FixedOutputExact(128, 23, x, 0, false);
    FixedOutputRight(128, 23, x, 0, false);
    FillsIs(23, x);
  }

  lemma FillsIs(C: nat, x: Finite)
    ensures FillsBuffer(C, x, 0, false) <==> |DecNumeral(Num(x) / Den(x))| == C
  {
  }

  lemma TwentyThreeDigits(n: nat)
    requires n == 18889465931478580854784
    ensures |DecNumeral(n)| == 23
  {
    assert Pow(10, 4) == 10000 && Pow(10, 2) == 100 && Pow(10, 3) == 1000;
    hide *;
    PowAdd(10, 4, 4);
    PowAdd(10, 8, 8);
    PowAdd(10, 16, 4);
    PowAdd(10, 20, 2);
    PowAdd(10, 20, 3);
    NumeralLengthIs(n, 23);
  }

  // ---------------------------------------------------------------------------------------------
  // %e and %g: every finite input fits.

  /** The run of %f has no more places above the point than the first pass of %g found. */
  lemma PlacesOfPasses(B: nat, C: nat, x: Finite, sig: nat, prec: nat)
    requires IsWidth(B) && IsFinite(x) && IsCapacity(C) && 1 <= sig <= MAX_CAPACITY
    ensures var r, s := Rounded(B, x, FixedBound(C, prec)), Significant(B, x, sig);
            r.nsig + r.dec <= Max(s.nsig + s.dec + 1, 2)
  {
    RoundedPlaces(B, x, FixedBound(C, prec));
    RoundedPlaces(B, x, SignificantBound(sig));
    SignificantIsRounded(B, x, sig);
    PlacesOfZero(B, x);
    hide Rounded, Significant, I.Convert, IsFinite;
  }

  lemma PlacesOfZero(B: nat, x: Finite)
    requires IsWidth(B) && IsFinite(x)
    ensures var i := I.Convert(B, x);
            if i.man == 0 then WholePlaces(i, true) == 1 else WholePlaces(i, true) == WholePlaces(i, false)
  {
    I.ConvertBounds(B, x);
    hide I.Convert;
    if I.Convert(B, x).man == 0 { OneDigit(0); NoTens(B, x); }
  }

  lemma NoTens(B: nat, x: Finite)
    requires IsWidth(B) && IsFinite(x) && I.Convert(B, x).man == 0
    ensures I.Convert(B, x).tens == 0
  {
    I.ConvertBounds(B, x);
  }

  /**
   * Every finite input: %g never reports ERR for lack of room once its significant digits are
   * within the guard, and its second run never loses a digit to the point.
   */
  lemma ShortestAlwaysFits(B: nat, C: nat, x: Finite, prec: nat, alt: bool, adj: nat)
    requires IsWidth(B) && IsFinite(x) && IsCapacity(C) && IsCase(adj)
    ensures ShortestOutput(B, C, x, prec, alt, adj) == TooLong <==> Precision(prec) > C - 7 || Overruns(B, C, x)
  {
    var sig := Precision(prec);
    if sig <= C - 7 && !Overruns(B, C, x) {
      SignificantShape(B, x, sig);
      var r := Significant(B, x, sig);
      match Choose(r, sig, !alt) {
        case F(fp) => SecondRunFits(B, C, x, sig, alt, fp);
        case E(run, pe, e) =>
      }
    }
  }

  lemma SecondRunFits(B: nat, C: nat, x: Finite, sig: nat, alt: bool, fp: nat)
    requires IsWidth(B) && IsFinite(x) && IsCapacity(C) && 1 <= sig <= C - 7 && !Overruns(B, C, x)
    requires Significant(B, x, sig).nsig >= 1 && Choose(Significant(B, x, sig), sig, !alt) == F(fp)
    ensures FixedOutput(B, C, x, fp, alt) == Printed(Fixed(FixedConversion(B, C, x, fp), fp, fp > 0 || alt))
  {
    var s := Significant(B, x, sig);
    SignificantShape(B, x, sig);
    ChosenPrecision(s, sig, alt, fp);
    PlacesOfPasses(B, C, x, sig, fp);
    FixedLength(B, C, x, fp, alt);
    hide Rounded, Significant, I.Convert, IsFinite, Fixed, FixedConversion, Overruns, Choose, WholePlaces;
  }

  lemma ChosenPrecision(s: Run, sig: nat, alt: bool, fp: nat)
    requires 1 <= s.nsig && sig >= 1 && Choose(s, sig, !alt) == F(fp) && s.nsig <= sig
    ensures var X := s.dec + s.nsig - 1; -4 <= X < sig && fp <= sig - 1 - X
  {
  }
}
