/** The texts of %e and %g on the exact domain, against C11 section 7.21.6.1 paragraph 8. */
module FloatTexts {
  import opened Arithmetic
  import opened Rounding
  import opened Numerals
  import opened DecimalText
  import opened Doubles
  import opened Shared
  import opened SharedExact
  import opened Shortest
  import opened SharedLayout
  import opened SharedConversion
  import opened FloatPaths

  // ---------------------------------------------------------------------------------------------
  // A text of style e determines its mantissa digits and its exponent.

  /** The digits of the exponent, of which there are at least two. */
  function ExponentDigits(x: int): seq<char> {
    var a := if x < 0 then -x else x;
    DecNumeral(a) + if a < 10 then ['0'] else []
  }

  lemma ExponentParts(x: int, adj: nat)
    requires IsCase(adj) && -999 <= x <= 999
    ensures var d := ExponentDigits(x);
            && ExponentText(x, adj) == d + [if x < 0 then '-' else '+'] + [('E' as int + adj) as char]
            && Value(d, 10) == (if x < 0 then -x else x) && |d| <= 3
  {
    var a := if x < 0 then -x else x;
    ExponentLength(x, adj);
    if a < 10 {
      OneDigitValue(a);
    } else {
      NumeralValue(a, 10, 0);
      assert ExponentDigits(x) == DecNumeral(a);
    }
    hide Numeral, Value;
  }

  /** A zero above the only digit does not change the number. */
  lemma OneDigitValue(a: nat)
    requires a < 10
    ensures Value(DecNumeral(a) + ['0'], 10) == a
  {
    assert DecNumeral(a) + ['0'] == Dec(a, 2) by { DecDigit(0, a, 1); DecDigit(0, 0, 0); }
    DigitsValue(a, 2, 10, 0);
    assert Pow(10, 2) == 100;
  }

  lemma ExponentInjective(x: int, y: int, adj: nat)
    requires IsCase(adj) && -999 <= x <= 999 && -999 <= y <= 999
    requires ExponentText(x, adj) == ExponentText(y, adj)
    ensures x == y
  {
    ExponentParts(x, adj);
    ExponentParts(y, adj);
    hide *;
    var s, d, e := ExponentText(x, adj), ExponentDigits(x), ExponentDigits(y);
    assert d == s[..|s| - 2] == e;
    assert s[|s| - 2] == (if x < 0 then '-' else '+');
    assert s[|s| - 2] == (if y < 0 then '-' else '+');
  }

  /** The letter marks where the exponent ends. */
  lemma SameLength(a: seq<char>, b: seq<char>, s: seq<char>, t: seq<char>, letter: char)
    requires IsExponentLike(a, letter) && IsExponentLike(b, letter) && letter != '+' && letter != '-'
    requires a + s == b + t
    ensures |a| == |b|
  {
    assert (a + s)[3] == a[3] && (b + t)[3] == b[3];
  }

  predicate IsExponentLike(s: seq<char>, letter: char) {
    4 <= |s| <= 5 && s[|s| - 1] == letter && (s[|s| - 2] == '+' || s[|s| - 2] == '-')
  }

  lemma ScientificInjective(n: nat, x: int, m: nat, y: int, pe: nat, point: bool, adj: nat)
    requires IsCase(adj) && -999 <= x <= 999 && -999 <= y <= 999
    requires n < Pow(10, pe + 1) && m < Pow(10, pe + 1)
    requires Scientific(n, pe, point, x, adj) == Scientific(m, pe, point, y, adj)
    ensures n == m && x == y
  {
    var a, b := ExponentText(x, adj), ExponentText(y, adj);
    ExponentShape(x, adj);
    ExponentShape(y, adj);
    ScientificParts(n, pe, point, x, adj);
    ScientificParts(m, pe, point, y, adj);
    hide *;
    var s, t := MantissaText(n, pe, point), MantissaText(m, pe, point);
    SameLength(a, b, s, t, ('E' as int + adj) as char);
    assert a == (a + s)[..|a|] && b == (b + t)[..|b|];
    assert s == (a + s)[|a|..] && t == (b + t)[|b|..];
    ExponentInjective(x, y, adj);
    MantissaInjective(n, m, pe, point);
  }

  lemma ExponentShape(x: int, adj: nat)
    requires IsCase(adj) && -999 <= x <= 999
    ensures IsExponentLike(ExponentText(x, adj), ('E' as int + adj) as char)
    ensures ('E' as int + adj) as char != '+' && ('E' as int + adj) as char != '-'
  {
    ExponentParts(x, adj);
    var a := if x < 0 then -x else x;
    if a < 10 { OneDigit(a); } else { TwoDigits(a); }
    hide Value;
  }

  function MantissaText(n: nat, pe: nat, point: bool): seq<char> {
    Dec(n, pe) + (if point then ['.'] else []) + [DigitChar(High(n, pe) % 10, 0)]
  }

  lemma ScientificParts(n: nat, pe: nat, point: bool, x: int, adj: nat)
    requires IsCase(adj)
    ensures Scientific(n, pe, point, x, adj) == ExponentText(x, adj) + MantissaText(n, pe, point)
  {
    ScientificIs(n, pe, point, x, adj);
    hide Scientific, ExponentText, Digits;
  }

  lemma MantissaInjective(n: nat, m: nat, pe: nat, point: bool)
    requires n < Pow(10, pe + 1) && m < Pow(10, pe + 1) && MantissaText(n, pe, point) == MantissaText(m, pe, point)
    ensures n == m
  {
    MantissaDigits(n, m, pe, point);
    DigitsValue(n, pe, 10, 0);
    DigitsValue(m, pe, 10, 0);
    TopOfRun(n, pe + 1);
    TopOfRun(m, pe + 1);
    var p := Pow(10, pe);
    assert High(n, pe) == n / p && High(m, pe) == m / p;
    assert n % p == m % p;
    hide *;
    SameParts(n, m, p, n / p, m / p, n % p);
  }

  lemma SameParts(n: nat, m: nat, p: nat, a: nat, b: nat, r: nat)
    requires p > 0 && a == n / p && b == m / p && a < 10 && b < 10 && a % 10 == b % 10 && r == n % p == m % p
    ensures n == m
  {
    DivModEquation(n, p);
    DivModEquation(m, p);
  }

  lemma MantissaDigits(n: nat, m: nat, pe: nat, point: bool)
    requires MantissaText(n, pe, point) == MantissaText(m, pe, point)
    ensures Dec(n, pe) == Dec(m, pe) && High(n, pe) % 10 == High(m, pe) % 10
  {
    var s := MantissaText(n, pe, point);
    DigitCharValue(High(n, pe) % 10, 0);
    DigitCharValue(High(m, pe) % 10, 0);
    hide Digits, High, DigitChar;
    assert Dec(n, pe) == s[..pe] == Dec(m, pe);
    assert s[|s| - 1] == DigitChar(High(n, pe) % 10, 0);
    assert s[|s| - 1] == DigitChar(High(m, pe) % 10, 0);
  }

  // ---------------------------------------------------------------------------------------------
  // %e

  /** The correctly rounded decimal in style e. */
  function RightScientific(x: Finite, prec: nat, alt: bool, adj: nat, lead: int): seq<char>
    requires IsCase(adj)
  {
    ScientificOf(RoundSignificant(Num(x), Den(x), prec + 1, lead), prec, alt, adj)
  }

  /** Mantissa digits and the exponent of the leading one, in style e. */
  function ScientificOf(m: (nat, int), prec: nat, alt: bool, adj: nat): seq<char>
    requires IsCase(adj)
  {
    Scientific(m.0, prec, prec > 0 || alt, m.1, adj)
  }

  predicate IsMantissa(m: (nat, int), sig: nat) { m.0 < Pow(10, sig) && -999 <= m.1 <= 999 }

  lemma RightBounds(B: nat, x: Finite, sig: nat, V: nat, lead: int)
    requires IsWidth(B) && IsFinite(x) && IsExact(B, x, V) && 1 <= sig <= MAX_CAPACITY && x.bin > 0
    requires IsLeadExponent(Num(x), Den(x), lead)
    ensures IsMantissa(RoundSignificant(Num(x), Den(x), sig, lead), sig)
  {
    var lead' := KeptExact(B, x, sig, V);
    LeadExponentUnique(Num(x), Den(x), lead, lead');
    KeptShape(B, x, SignificantBound(sig));
    var d, n := Kept(B, x, SignificantBound(sig)), RoundAt(Num(x), Den(x), sig - 1 - lead);
    assert -998 <= lead <= 998 by { assert d.dec + d.nsig - 1 == lead; }
    hide *;
    KeptFits(d, sig, Num(x), Den(x), lead, x.exp <= ShiftBits(B));
    SignificantFits(Num(x), Den(x), sig, lead);
  }

  lemma KeptFits(d: Run, sig: nat, n: nat, k: nat, lead: int, visible: bool)
    requires k > 0 && RoundsTo(d, sig, n, k, lead, visible)
    ensures RoundAt(n, k, sig - 1 - lead) <= Pow(10, sig)
  {
    hide RoundAt, Tenfold, Pow, IsEvenTie;
    RoundedFits(d.g + d.carry, d.nsig, RoundAt(n, k, sig - 1 - lead), sig);
  }

  lemma RoundedFits(g: nat, nsig: nat, n: nat, sig: nat)
    requires nsig <= sig && g <= Pow(10, nsig) && n <= Tenfold(g, sig - nsig)
    ensures n <= Pow(10, sig)
  {
    PowAdd(10, nsig, sig - nsig);
    MulMonotone(g, Pow(10, nsig), Pow(10, sig - nsig));
  }

  lemma SignificantFits(n: nat, d: nat, sig: nat, lead: int)
    requires d > 0 && sig >= 1 && -998 <= lead <= 998 && RoundAt(n, d, sig - 1 - lead) <= Pow(10, sig)
    ensures IsMantissa(RoundSignificant(n, d, sig, lead), sig)
  {
    hide RoundAt, Pow;
    PowMonotone(10, sig - 1, sig);
  }

  /** Two texts of style e are equal exactly when their digits and exponents are. */
  lemma TextsEqual(n: nat, x: int, m: nat, y: int, pe: nat, point: bool, adj: nat)
    requires IsCase(adj) && -999 <= x <= 999 && -999 <= y <= 999
    requires n < Pow(10, pe + 1) && m < Pow(10, pe + 1)
    ensures Scientific(n, pe, point, x, adj) == Scientific(m, pe, point, y, adj) <==> (n, x) == (m, y)
  {
    if Scientific(n, pe, point, x, adj) == Scientific(m, pe, point, y, adj) {
      ScientificInjective(n, x, m, y, pe, point, adj);
    }
  }

  /** What %e prints, by its digits and its exponent. */
  lemma ScientificOutputIs(B: nat, C: nat, x: Finite, prec: nat, alt: bool, adj: nat)
    requires IsWidth(B) && IsFinite(x) && IsCapacity(C) && IsCase(adj)
    requires prec + 1 <= C - 7 && !Overruns(B, C, x)
    ensures var m := Mantissa(Significant(B, x, prec + 1), prec + 1);
            && IsMantissa(m, prec + 1)
            && ScientificOutput(B, C, x, prec, alt, adj) == Printed(ScientificOf(m, prec, alt, adj))
  {
    SignificantShape(B, x, prec + 1);
    var r := Significant(B, x, prec + 1);
    RunText(r, prec, alt, adj);
    ScientificOutputUnfolds(B, C, x, prec, alt, adj);
    hide *;
  }

  /** %e reports ERR exactly when its longest text, of 7 characters more than it has places, might not fit. */
  lemma ScientificFails(B: nat, C: nat, x: Finite, prec: nat, alt: bool, adj: nat)
    requires IsWidth(B) && IsFinite(x) && IsCapacity(C) && IsCase(adj)
    ensures ScientificOutput(B, C, x, prec, alt, adj) == TooLong <==> prec + 8 > C || Overruns(B, C, x)
  {
    if prec + 1 <= C - 7 { SignificantShape(B, x, prec + 1); }
    hide Significant, ScientificText, IsFinite, Pow, Overruns;
  }

  lemma ScientificOutputUnfolds(B: nat, C: nat, x: Finite, prec: nat, alt: bool, adj: nat)
    requires IsWidth(B) && IsFinite(x) && IsCapacity(C) && IsCase(adj)
    requires prec + 1 <= C - 7 && !Overruns(B, C, x)
    ensures var r := Significant(B, x, prec + 1);
            && r.nsig <= prec + 1
            && ScientificOutput(B, C, x, prec, alt, adj) == Printed(ScientificText(r, prec, alt, r.dec + r.nsig - 1, adj))
  {
    SignificantShape(B, x, prec + 1);
    hide Significant, ScientificText, IsFinite, Pow, Overruns;
  }

  lemma RunText(r: Run, prec: nat, alt: bool, adj: nat)
    requires IsRun(r) && r.nsig <= prec + 1 && -999 <= r.dec + r.nsig - 1 <= 999 && IsCase(adj)
    ensures var m := Mantissa(r, prec + 1);
            IsMantissa(m, prec + 1) && ScientificText(r, prec, alt, r.dec + r.nsig - 1, adj) == ScientificOf(m, prec, alt, adj)
  {
    TenfoldBound(r.g, r.nsig, prec + 1 - r.nsig);
    assert r.nsig + (prec + 1 - r.nsig) == prec + 1;
    hide Tenfold, Scientific, Pow;
  }

  /**
   * %e on the exact domain: the correctly rounded decimal with prec+1 significant digits, unless
   * the binary exponent is beyond SHIFT_BITS and the value is exactly half way above an even digit.
   */
  lemma ScientificOutputExact(B: nat, C: nat, x: Finite, prec: nat, alt: bool, adj: nat) returns (lead: int)
    requires IsWidth(B) && IsFinite(x) && InExactDomain(B, x) && IsCapacity(C) && IsCase(adj)
    requires x.bin > 0 && prec + 1 <= C - 7 && !Overruns(B, C, x)
    ensures IsLeadExponent(Num(x), Den(x), lead)
    ensures ScientificOutput(B, C, x, prec, alt, adj) == Printed(RightScientific(x, prec, alt, adj, lead)) <==>
            x.exp <= ShiftBits(B) || !IsEvenTie(Num(x), Den(x), prec - lead)
  {
    var V := ExactValue(B, x);
    lead := ScientificExact(B, x, prec + 1, V);
    RightBounds(B, x, prec + 1, V, lead);
    ScientificOutputIs(B, C, x, prec, alt, adj);
    RightIs(x, prec, alt, adj, lead);
    hide *;
    OutputsEqual(Mantissa(Significant(B, x, prec + 1), prec + 1), RoundSignificant(Num(x), Den(x), prec + 1,
        lead), prec, alt, adj);
  }

  lemma RightIs(x: Finite, prec: nat, alt: bool, adj: nat, lead: int)
    requires IsCase(adj)
    ensures RightScientific(x, prec, alt, adj, lead) ==
            ScientificOf(RoundSignificant(Num(x), Den(x), prec + 1, lead), prec, alt, adj)
  {
  }

  lemma OutputsEqual(a: (nat, int), b: (nat, int), pe: nat, alt: bool, adj: nat)
    requires IsCase(adj) && IsMantissa(a, pe + 1) && IsMantissa(b, pe + 1)
    ensures Printed(ScientificOf(a, pe, alt, adj)) == Printed(ScientificOf(b, pe, alt, adj)) <==> a == b
  {
    TextsEqual(a.0, a.1, b.0, b.1, pe, pe > 0 || alt, adj);
  }

  lemma ScientificOutputZero(B: nat, C: nat, x: Finite, prec: nat, alt: bool, adj: nat)
    requires IsWidth(B) && IsFinite(x) && IsCapacity(C) && IsCase(adj) && x.bin == 0 && prec + 1 <= C - 7
    ensures ScientificOutput(B, C, x, prec, alt, adj) == Printed(Scientific(0, prec, prec > 0 || alt, 0, adj))
  {
    ZeroConverts(B, C, x);
    ScientificZero(B, x, prec + 1);
    ScientificOutputIs(B, C, x, prec, alt, adj);
    hide Significant, Scientific, ScientificOutput, IsFinite;
  }

  lemma ZeroConverts(B: nat, C: nat, x: Finite)
    requires IsWidth(B) && IsFinite(x) && IsCapacity(C) && x.bin == 0
    ensures !Overruns(B, C, x)
  {
    ZeroFraction(B, x);
  }

  // ---------------------------------------------------------------------------------------------
  // %g

  /** The text C11 section 7.21.6.1 paragraph 8 asks of %g, given the rounded digits R * 10^(X+1-sig). */
  function RightShortest(n: nat, d: nat, sig: nat, alt: bool, adj: nat, R: nat, X: int): seq<char>
    requires IsCase(adj) && sig >= 1 && d > 0
  {
    if -4 <= X < sig then
      var right := RoundAt(n, d, sig - 1 - X);
      var (m, p) := if alt then (right, sig - 1 - X) else StripFixed(right, sig - 1 - X);
      Fixed(m, p, p > 0 || alt)
    else
      var (m, pe) := if alt then (R, sig - 1) else StripFixed(R, sig - 1);
      Scientific(m, pe, pe > 0 || alt, X, adj)
  }

  /**
   * %g on the exact domain prints exactly that text: style f if and only if the exponent X of the
   * value rounded to P significant digits is in [-4, P), with precision P-1-X, else style e with
   * P-1; trailing zeros and a bare point are gone unless '#' keeps them. It does not, as %e does
   * not, exactly for a tie over an even digit beyond SHIFT_BITS.
   */
  lemma ShortestOutputExact(B: nat, C: nat, x: Finite, prec: nat, alt: bool, adj: nat) returns (lead: int)
    requires IsWidth(B) && IsFinite(x) && InExactDomain(B, x) && IsCapacity(C) && IsCase(adj)
    requires x.bin > 0 && Precision(prec) <= C - 7 && !Overruns(B, C, x)
    ensures IsLeadExponent(Num(x), Den(x), lead)
    ensures var sig := Precision(prec);
            var m := RoundSignificant(Num(x), Den(x), sig, lead);
            ShortestOutput(B, C, x, prec, alt, adj) == Printed(RightShortest(Num(x), Den(x), sig, alt, adj, m.0, m.1)) <==>
            SeesTies(B, x, sig, lead)
  {
    var V := ExactValue(B, x);
    lead := ShortestExact(B, C, x, Precision(prec), !alt, V);
    hide *;
    if SeesTies(B, x, Precision(prec), lead) {
      ShortestRight(B, C, x, Num(x), Den(x), prec, alt, adj, lead);
    } else {
      ShortestWrong(B, C, x, prec, alt, adj, lead, V);
    }
  }

  lemma ShortestRight(B: nat, C: nat, x: Finite, n: nat, d: nat, prec: nat, alt: bool, adj: nat, lead: int)
    requires IsWidth(B) && IsFinite(x) && IsCapacity(C) && IsCase(adj) && d > 0
    requires Precision(prec) <= C - 7 && !Overruns(B, C, x)
    requires var sig := Precision(prec);
             var (R, X) := RoundSignificant(n, d, sig, lead);
             var s := Significant(B, x, sig);
             s.nsig >= 1 && IsShortest(B, C, x, n, d, sig, !alt, Choose(s, sig, !alt), R, X)
    ensures var sig := Precision(prec);
            var m := RoundSignificant(n, d, sig, lead);
            ShortestOutput(B, C, x, prec, alt, adj) == Printed(RightShortest(n, d, sig, alt, adj, m.0, m.1))
  {
    var sig := Precision(prec);
    var (R, X) := RoundSignificant(n, d, sig, lead);
    var s := Significant(B, x, sig);
    SignificantShape(B, x, sig);
    match Choose(s, sig, !alt) {
      case F(fp) =>
        SecondRunFits(B, C, x, sig, alt, fp);
        ShortestIsF(B, C, x, n, d, sig, alt, adj, fp, R, X);
      case E(run, pe, e) =>
        ShortestIsE(B, C, x, n, d, sig, alt, adj, run, pe, e, R, X);
    }
  }

  lemma ShortestIsF(B: nat, C: nat, x: Finite, n: nat, d: nat, sig: nat, alt: bool, adj: nat, fp: nat, R: nat, X: int)
    requires IsWidth(B) && IsFinite(x) && IsCapacity(C) && IsCase(adj) && d > 0 && sig >= 1
    requires IsShortest(B, C, x, n, d, sig, !alt, F(fp), R, X)
    ensures Fixed(FixedConversion(B, C, x, fp), fp, fp > 0 || alt) == RightShortest(n, d, sig, alt, adj, R, X)
  {
    hide FixedConversion, Fixed, RoundAt, StripFixed, IsFinite, Num, Den;
  }

  lemma ShortestIsE(B: nat, C: nat, x: Finite, n: nat, d: nat, sig: nat, alt: bool, adj: nat, run: Run, pe: nat, e: int, R: nat, X: int)
    requires IsWidth(B) && IsFinite(x) && IsCapacity(C) && IsCase(adj) && d > 0 && sig >= 1 && 1 <= run.nsig <= pe + 1
    requires IsShortest(B, C, x, n, d, sig, !alt, E(run, pe, e), R, X)
    ensures ScientificText(run, pe, alt, e, adj) == RightShortest(n, d, sig, alt, adj, R, X)
  {
    hide Scientific, RoundAt, IsFinite, Num, Den, Pow;
    if alt {
    } else {
      StripFixedIs(run.g, sig - run.nsig, sig - 1);
      TenfoldZero(run.g);
    }
  }

  // ---------------------------------------------------------------------------------------------
  // The ties %g does not see: always in style e, and always visible in the text.

  lemma UnseenTieIsLarge(B: nat, x: Finite, sig: nat, lead: int)
    requires IsWidth(B) && IsFinite(x) && InExactDomain(B, x) && !SeesTies(B, x, sig, lead)
    ensures lead >= sig
  {
    assert x.exp > MAN_BITS && Den(x) == 1 by { assert Pow(2, 0) == 1; }
    NoHalfOfOne(Num(x), sig - 1 - lead);
  }

  lemma NoHalfOfOne(n: nat, s: int)
    ensures s >= 0 ==> !IsEvenTie(n, 1, s)
  {
    hide Tenfold;
  }

  /** A decimal without its trailing zeros, and with them back. */
  lemma {:induction false} StripFixedKeeps(n: nat, prec: nat)
    ensures var (m, p) := StripFixed(n, prec); p <= prec && n == Tenfold(m, prec - p)
    decreases prec
  {
    if prec > 0 && n % 10 == 0 {
      StripFixedKeeps(n / 10, prec - 1);
      var (m, p) := StripFixed(n / 10, prec - 1);
      TenfoldOnce(m, prec - 1 - p);
    } else {
      TenfoldZero(n);
    }
  }

  /** Texts of style e with different digits behind the point have different lengths. */
  lemma SamePrecision(n: nat, x: int, pe: nat, m: nat, y: int, pe': nat, adj: nat)
    requires IsCase(adj) && -999 <= x <= 999 && -999 <= y <= 999
    requires Scientific(n, pe, pe > 0, x, adj) == Scientific(m, pe', pe' > 0, y, adj)
    ensures pe == pe'
  {
    var a, b := ExponentText(x, adj), ExponentText(y, adj);
    ExponentShape(x, adj);
    ExponentShape(y, adj);
    ScientificParts(n, pe, pe > 0, x, adj);
    ScientificParts(m, pe', pe' > 0, y, adj);
    MantissaLength(n, pe, pe > 0);
    MantissaLength(m, pe', pe' > 0);
    hide *;
    SameLength(a, b, MantissaText(n, pe, pe > 0), MantissaText(m, pe', pe' > 0), ('E' as int + adj) as char);
  }

  lemma MantissaLength(n: nat, pe: nat, point: bool)
    ensures |MantissaText(n, pe, point)| == pe + 1 + if point then 1 else 0
  {
  }

  /** Rounding leaves the leading digit at or one above its place. */
  lemma SignificantLead(B: nat, x: Finite, sig: nat, V: nat, lead: int)
    requires IsWidth(B) && IsFinite(x) && IsExact(B, x, V) && 1 <= sig <= MAX_CAPACITY && x.bin > 0
    requires IsLeadExponent(Num(x), Den(x), lead)
    ensures var r := Significant(B, x, sig); lead <= r.dec + r.nsig - 1 && IsRun(r) && HasLead(r)
  {
    var lead' := KeptExact(B, x, sig, V);
    LeadExponentUnique(Num(x), Den(x), lead, lead');
    SignificantOfKept(B, x, sig);
    RoundShape(Kept(B, x, SignificantBound(sig)));
    hide Kept, Significant, Round, IsLeadExponent, RoundAt, IsEvenTie, Tenfold, Num, Den, Pow;
  }

  lemma ShortestOutputE(B: nat, C: nat, x: Finite, prec: nat, alt: bool, adj: nat)
    requires IsWidth(B) && IsFinite(x) && IsCapacity(C) && IsCase(adj)
    requires Precision(prec) <= C - 7 && !Overruns(B, C, x)
    requires var r := Significant(B, x, Precision(prec)); 1 <= r.nsig <= Precision(prec) <= r.dec + r.nsig - 1
    ensures var sig := Precision(prec);
            var r := Significant(B, x, sig);
            ShortestOutput(B, C, x, prec, alt, adj) == Printed(LargeText(r, sig, alt, adj))
  {
    hide Significant, ScientificText, Overruns, IsFinite;
  }

  /** Style e as %g chooses it for a run whose leading digit is beyond the precision. */
  function LargeText(r: Run, sig: nat, alt: bool, adj: nat): seq<char>
    requires IsCase(adj) && 1 <= r.nsig <= sig
  {
    if alt then ScientificText(r, sig - 1, true, r.dec + r.nsig - 1, adj)
    else ScientificText(Strip(r), Strip(r).nsig - 1, false, r.dec + r.nsig - 1, adj)
  }

  lemma PlainTextsDiffer(r: Run, sig: nat, m: (nat, int), adj: nat)
    requires IsCase(adj) && IsRun(r) && 1 <= r.nsig <= sig && -999 <= r.dec + r.nsig - 1 <= 999
    requires IsMantissa(m, sig) && Mantissa(r, sig) != m
    ensures LargeText(r, sig, true, adj) != Scientific(m.0, sig - 1, true, m.1, adj)
  {
    TenfoldBound(r.g, r.nsig, sig - r.nsig);
    assert sig - 1 + 1 == sig && r.nsig + (sig - r.nsig) == sig;
    hide Scientific, Tenfold, Pow;
    TextsEqual(Tenfold(r.g, sig - r.nsig), r.dec + r.nsig - 1, m.0, m.1, sig - 1, true, adj);
  }

  lemma StrippedBound(m: nat, sig: nat)
    requires m < Pow(10, sig) && sig >= 1
    ensures var (k, pe) := StripFixed(m, sig - 1); pe <= sig - 1 && m == Tenfold(k, sig - 1 - pe) && k < Pow(10, pe + 1)
  {
    StripFixedKeeps(m, sig - 1);
    var (k, pe) := StripFixed(m, sig - 1);
    PowAdd(10, pe + 1, sig - 1 - pe);
    assert m == k * Pow(10, sig - 1 - pe);
    MulCancelLess(k, Pow(10, pe + 1), Pow(10, sig - 1 - pe));
  }

  lemma StrippedTextsDiffer(r: Run, sig: nat, m: (nat, int), adj: nat)
    requires IsCase(adj) && IsRun(r) && HasLead(r) && 1 <= r.nsig <= sig && -999 <= r.dec + r.nsig - 1 <= 999
    requires IsMantissa(m, sig) && Mantissa(r, sig) != m
    ensures var (k, pe) := StripFixed(m.0, sig - 1); LargeText(r, sig, false, adj) != Scientific(k, pe, pe > 0, m.1, adj)
  {
    var s, x := Strip(r), r.dec + r.nsig - 1;
    var (k, pe) := StripFixed(m.0, sig - 1);
    StripKeeps(r);
    StripPads(r, sig);
    StrippedBound(m.0, sig);
    TenfoldZero(s.g);
    assert s.nsig - 1 + 1 == s.nsig && s.g < Pow(10, s.nsig);
    hide Scientific, Tenfold, Pow, StripFixed, Strip;
    if LargeText(r, sig, false, adj) == Scientific(k, pe, pe > 0, m.1, adj) {
      SamePrecision(s.g, x, s.nsig - 1, k, m.1, pe, adj);
      ScientificInjective(s.g, x, k, m.1, pe, pe > 0, adj);
    }
  }

  lemma RightShortestE(n: nat, d: nat, sig: nat, alt: bool, adj: nat, R: nat, X: int)
    requires IsCase(adj) && 1 <= sig <= X && d > 0
    ensures RightShortest(n, d, sig, alt, adj, R, X) ==
            if alt then Scientific(R, sig - 1, true, X, adj)
            else var (k, pe) := StripFixed(R, sig - 1); Scientific(k, pe, pe > 0, X, adj)
  {
    hide Scientific, StripFixed;
  }

  lemma RoundedLead(n: nat, d: nat, sig: nat, lead: int)
    requires d > 0 && sig >= 1
    ensures RoundSignificant(n, d, sig, lead).1 >= lead
  {
    hide RoundAt, Pow;
  }

  /** A run whose digits are right is laid out as it should be. */
  lemma LargeTextRight(r: Run, sig: nat, alt: bool, m: (nat, int), adj: nat)
    requires IsCase(adj) && IsRun(r) && HasLead(r) && 1 <= r.nsig <= sig && Mantissa(r, sig) == m
    ensures LargeText(r, sig, alt, adj) ==
            if alt then Scientific(m.0, sig - 1, true, m.1, adj)
            else var (k, pe) := StripFixed(m.0, sig - 1); Scientific(k, pe, pe > 0, m.1, adj)
  {
    StripKeeps(r);
    StripPads(r, sig);
    TenfoldZero(Strip(r).g);
    StripFixedIs(Strip(r).g, sig - Strip(r).nsig, sig - 1);
    hide Scientific, Tenfold, Pow, StripFixed, Strip;
  }

  /**
   * %g of n / d with more integer digits than asked for is in style e, and the right text if and
   * only if the digits of the first pass are right.
   */
  lemma ShortestLarge(B: nat, C: nat, x: Finite, n: nat, d: nat, prec: nat, alt: bool, adj: nat, lead: int)
    requires IsWidth(B) && IsFinite(x) && IsCapacity(C) && IsCase(adj) && d > 0
    requires Precision(prec) <= C - 7 && !Overruns(B, C, x) && Precision(prec) <= lead
    requires IsMantissa(RoundSignificant(n, d, Precision(prec), lead), Precision(prec))
    requires var r := Significant(B, x, Precision(prec)); HasLead(r) && lead <= r.dec + r.nsig - 1
    ensures var sig := Precision(prec);
            var m := RoundSignificant(n, d, sig, lead);
            ShortestOutput(B, C, x, prec, alt, adj) == Printed(RightShortest(n, d, sig, alt, adj, m.0, m.1)) <==>
            Mantissa(Significant(B, x, sig), sig) == m
  {
    var sig := Precision(prec);
    SignificantShape(B, x, sig);
    RoundedLead(n, d, sig, lead);
    var r, m := Significant(B, x, sig), RoundSignificant(n, d, sig, lead);
    hide *;
    ShortestOutputE(B, C, x, prec, alt, adj);
    RightShortestE(n, d, sig, alt, adj, m.0, m.1);
    if Mantissa(r, sig) == m {
      LargeTextRight(r, sig, alt, m, adj);
    } else if alt {
      PlainTextsDiffer(r, sig, m, adj);
    } else {
      StrippedTextsDiffer(r, sig, m, adj);
    }
  }

  lemma ShortestWrong(B: nat, C: nat, x: Finite, prec: nat, alt: bool, adj: nat, lead: int, V: nat)
    requires IsWidth(B) && IsFinite(x) && InExactDomain(B, x) && IsExact(B, x, V) && IsCapacity(C) && IsCase(adj)
    requires x.bin > 0 && Precision(prec) <= C - 7 && !Overruns(B, C, x)
    requires IsLeadExponent(Num(x), Den(x), lead) && !SeesTies(B, x, Precision(prec), lead)
    ensures var sig := Precision(prec);
            var m := RoundSignificant(Num(x), Den(x), sig, lead);
            ShortestOutput(B, C, x, prec, alt, adj) != Printed(RightShortest(Num(x), Den(x), sig, alt, adj, m.0, m.1))
  {
    var sig := Precision(prec);
    assert sig <= MAX_CAPACITY;
    hide *;
    WrongMantissa(B, x, sig, V, lead);
    UnseenTieIsLarge(B, x, sig, lead);
    RightBounds(B, x, sig, V, lead);
    SignificantLead(B, x, sig, V, lead);
    ShortestLarge(B, C, x, Num(x), Den(x), prec, alt, adj, lead);
  }

  lemma WrongMantissa(B: nat, x: Finite, sig: nat, V: nat, lead: int)
    requires IsWidth(B) && IsFinite(x) && IsExact(B, x, V) && 1 <= sig <= MAX_CAPACITY && x.bin > 0
    requires IsLeadExponent(Num(x), Den(x), lead) && !SeesTies(B, x, sig, lead)
    ensures Mantissa(Significant(B, x, sig), sig) != RoundSignificant(Num(x), Den(x), sig, lead)
  {
    var lead' := ScientificExact(B, x, sig, V);
    LeadExponentUnique(Num(x), Den(x), lead, lead');
    hide Mantissa, Significant, RoundSignificant, IsEvenTie, IsLeadExponent, Num, Den, IsExact;
  }

  /** 9007199254741250 with a 64-bit integer: neither "%.13e" nor "%.14g" prints what half to even asks for. */
  lemma EvenTieTexts(adj: nat, alt: bool)
    requires IsCase(adj)
    ensures var x := Finite(4503599627370625, 53);
            var m := RoundSignificant(Num(x), Den(x), 14, 15);
            && IsLeadExponent(Num(x), Den(x), 15)
            && ScientificOutput(64, 64, x, 13, alt, adj) != Printed(RightScientific(x, 13, alt, adj, 15))
            && ShortestOutput(64, 64, x, 14, alt, adj) != Printed(RightShortest(Num(x), Den(x), 14, alt, adj, m.0, m.1))
  {
    var x := Finite(4503599627370625, 53);
    EvenTieInput(x);
    NarrowNeverFills(64, 64, x);
    EvenTiePrints(x, adj, alt);
  }

  lemma EvenTiePrints(x: Finite, adj: nat, alt: bool)
    requires IsCase(adj) && IsFinite(x) && x.bin > 0 && InExactDomain(64, x) && !Overruns(64, 64, x)
    requires x.exp > ShiftBits(64) && IsLeadExponent(Num(x), Den(x), 15) && IsEvenTie(Num(x), Den(x), -2)
    ensures var m := RoundSignificant(Num(x), Den(x), 14, 15);
            && ScientificOutput(64, 64, x, 13, alt, adj) != Printed(RightScientific(x, 13, alt, adj, 15))
            && ShortestOutput(64, 64, x, 14, alt, adj) != Printed(RightShortest(Num(x), Den(x), 14, alt, adj, m.0, m.1))
  {
    assert Precision(14) == 14;
    TieIsUnseen(x);
    hide *;
    var lead := ScientificOutputExact(64, 64, x, 13, alt, adj);
    LeadExponentUnique(Num(x), Den(x), lead, 15);
    var lead' := ShortestOutputExact(64, 64, x, 14, alt, adj);
    LeadExponentUnique(Num(x), Den(x), lead', 15);
  }

  lemma TieIsUnseen(x: Finite)
    requires x.exp > ShiftBits(64) && IsEvenTie(Num(x), Den(x), -2)
    ensures !SeesTies(64, x, 14, 15)
  {
    hide Num, Den;
  }

  // ---------------------------------------------------------------------------------------------
  // %g of zero.

  lemma {:induction false} ZeroHasZeroBits(k: int)
    ensures HasZeroBits(0, k)
    decreases k
  {
    if k > 0 { ZeroHasZeroBits(k - 1); }
  }

  lemma ZeroRounds(B: nat, C: nat, x: Finite, prec: nat)
    requires IsWidth(B) && IsFinite(x) && IsCapacity(C) && x.bin == 0 && prec + 3 <= C
    ensures FixedConversion(B, C, x, prec) == 0
  {
    ZeroHasZeroBits(MAN_BITS - x.exp - (B - 3));
    var V := ExactValue(B, x);
    assert Num(x) == 0 && Den(x) > 0;
    NothingRounds(Den(x), prec);
    ShortZero(prec);
    hide Num, Den, RoundAt, FixedConversion, Fixed, HasZeroBits;
    FixedExact(B, C, x, prec, V);
  }

  lemma NothingRounds(d: nat, s: nat)
    requires d > 0
    ensures RoundAt(0, d, s) == 0
  {
    assert Tenfold(0, s) == 0;
    DivModUnique(0, d, 0, 0);
    hide Tenfold;
  }

  lemma ShortZero(prec: nat)
    ensures |Fixed(0, prec, prec > 0)| <= prec + 2
  {
    DivModUnique(0, Pow(10, prec), 0, 0);
    OneDigit(0);
    hide Pow, Digits, Numeral;
  }

  /** "0", or with '#' as many zeros behind the point as the precision asks for. */
  lemma ShortestOutputZero(B: nat, C: nat, x: Finite, prec: nat, alt: bool, adj: nat)
    requires IsWidth(B) && IsFinite(x) && IsCapacity(C) && IsCase(adj) && x.bin == 0 && Precision(prec) <= C - 7
    ensures var p := if alt then Precision(prec) - 1 else 0;
            ShortestOutput(B, C, x, prec, alt, adj) == Printed(Fixed(0, p, p > 0 || alt))
  {
    var sig, p := Precision(prec), if alt then Precision(prec) - 1 else 0;
    ZeroConverts(B, C, x);
    ZeroStyle(B, x, sig, alt);
    SecondRunFits(B, C, x, sig, alt, p);
    ZeroRounds(B, C, x, p);
    hide Significant, FixedConversion, Fixed, FixedOutput, Overruns, Choose, IsFinite;
  }

  lemma ZeroStyle(B: nat, x: Finite, sig: nat, alt: bool)
    requires IsWidth(B) && IsFinite(x) && x.bin == 0 && 1 <= sig <= MAX_CAPACITY
    ensures var r := Significant(B, x, sig);
            r.nsig >= 1 && Choose(r, sig, !alt) == F(if alt then sig - 1 else 0)
  {
    ScientificZero(B, x, sig);
    SignificantShape(B, x, sig);
    var r := Significant(B, x, sig);
    if HasLead(r) { TenfoldOfLead(r, sig); }
    hide Significant, Tenfold, Pow;
  }

  lemma TenfoldOfLead(r: Run, sig: nat)
    requires r.nsig <= sig && HasLead(r)
    ensures Tenfold(r.g, sig - r.nsig) > 0
  {
    MulPositive(r.g, Pow(10, sig - r.nsig));
  }
}
