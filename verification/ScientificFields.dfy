/** Whole fields of %e and %g, as a caller finds them in the output: they read back as what was converted. */
module ScientificFields {
  import opened Arithmetic
  import opened Rounding
  import opened Numerals
  import opened DecimalText
  import opened Doubles
  import opened FormatSpec
  import opened Shared
  import opened SharedExact
  import Shortest
  import opened SharedConversion
  import opened Fields
  import opened FieldFacts
  import opened FloatTexts
  import opened FloatFields
  import FloatPaths
  import HexFloat
  import SharedLayout

  // ---------------------------------------------------------------------------------------------
  // Style e.

  lemma ExponentIsText(x: int)
    ensures var d := ExponentDigits(x); d != [] && forall i :: 0 <= i < |d| ==> '0' <= d[i] <= '9'
  {
    NumeralIsText(if x < 0 then -x else x);
    hide Numeral;
  }

  /** The exponent of a reversed text of style e, whatever mantissa follows. */
  lemma ExponentReads(x: int, adj: nat, body: string)
    requires IsCase(adj) && -999 <= x <= 999
    ensures var u := ExponentText(x, adj) + body;
            var k := HexFloat.DigitCount(u);
            && HasExponent(u) && u[k + 2..] == body
            && (if u[k] == '-' then 0 - Value(u[..k], 10) else Value(u[..k], 10)) == x
  {
    var d, sign, letter := ExponentDigits(x), if x < 0 then '-' else '+', ('E' as int + adj) as char;
    ExponentParts(x, adj);
    ExponentIsText(x);
    assert letter in "eE" && sign in "+-";
    assert ExponentText(x, adj) + body == d + ([sign, letter] + body);
    hide ExponentText, ExponentDigits, Value, HexFloat.DigitCount;
    HexFloat.DigitCountIs(d, [sign, letter] + body);
    var u := d + ([sign, letter] + body);
    assert u[..|d|] == d && u[|d|] == sign && u[|d| + 1] == letter && u[|d| + 2..] == body;
  }

  /** The digits of a mantissa, the point taken out and zeros put on top. */
  lemma DecimalMantissaReads(n: nat, pe: nat, point: bool, k: nat)
    requires n < Pow(10, pe + 1) && (pe > 0 ==> point)
    ensures var body := MantissaText(n, pe, point) + Zeros(k);
            var d := HexFloat.SplitAtPoint(body).0;
            && d != [] && IsDigitRun(d, 10) && Value(d, 10) == n
            && (if '.' in body then HexFloat.SplitAtPoint(body).1 else 0) == pe
  {
    var low, top := Dec(n, pe), [DigitChar(High(n, pe) % 10, 0)];
    MantissaDigit(n, pe);
    DecHasNoPoint(n, pe);
    DigitIsNoPoint(High(n, pe) % 10);
    var body := MantissaText(n, pe, point) + Zeros(k);
    MantissaRun(low, top, k, n);
    hide Digits, High, Value, DigitChar, IsDigitRun, HexFloat.SplitAtPoint, Pow;
    assert body == low + (if point then ['.'] else []) + (top + Zeros(k));
    HexFloat.SplitIs(low, top + Zeros(k), point);
    if point { assert body[pe] == '.'; }
  }

  lemma DigitIsNoPoint(d: nat)
    requires d < 10
    ensures DigitChar(d, 0) != '.'
  {
  }

  lemma MantissaDigit(n: nat, pe: nat)
    requires n < Pow(10, pe + 1)
    ensures var low, top := Dec(n, pe), [DigitChar(High(n, pe) % 10, 0)];
            && IsDigitRun(low, 10) && IsDigitRun(top, 10)
            && Value(low, 10) + Pow(10, |low|) * Value(top, 10) == n
  {
    var p, h := Pow(10, pe), High(n, pe);
    assert h == n / p;
    SharedLayout.TopOfRun(n, pe + 1);
    assert h < 10 && h % 10 == h;
    hide *;
    DigitsRun(n, pe, 10, 0);
    DigitsValue(n, pe, 10, 0);
    DivModEquation(n, p);
    OneDigitRun(h);
    assert p * h == h * p;
  }

  lemma OneDigitRun(d: nat)
    requires d < 10
    ensures IsDigitRun([DigitChar(d, 0)], 10) && Value([DigitChar(d, 0)], 10) == d
  {
    DigitCharValue(d, 0);
    assert [DigitChar(d, 0)][1..] == [];
  }

  lemma MantissaRun(low: seq<char>, top: seq<char>, k: nat, n: nat)
    requires IsDigitRun(low, 10) && IsDigitRun(top, 10) && Value(low, 10) + Pow(10, |low|) * Value(top, 10) == n
    ensures var d := low + (top + Zeros(k)); IsDigitRun(d, 10) && Value(d, 10) == n
  {
    hide *;
    RunsAppend(low, top, k, Value(top, 10));
  }

  lemma ScientificEdges(n: nat, pe: nat, point: bool, x: int, adj: nat)
    requires IsCase(adj) && -999 <= x <= 999
    ensures var t := Reversed(Scientific(n, pe, point, x, adj)); t != "" && t[0] !in " +-" && t[|t| - 1] != ' '
  {
    var s, d := ExponentText(x, adj), ExponentDigits(x);
    ScientificParts(n, pe, point, x, adj);
    ExponentParts(x, adj);
    ExponentIsText(x);
    DigitIsNoMark(High(n, pe) % 10, 0);
    var t := Scientific(n, pe, point, x, adj);
    assert t[0] == s[0] == d[0];
    assert t[|t| - 1] == DigitChar(High(n, pe) % 10, 0);
    hide Scientific, ExponentText, ExponentDigits, Digits, High, Value;
  }

  /** A field around a style e text, padded in any way, reads back as its sign, digits and exponent. */
  lemma ScientificFieldReads(f: Field, n: nat, pe: nat, point: bool, x: int, adj: nat)
    requires IsCase(adj) && -999 <= x <= 999 && n < Pow(10, pe + 1) && (pe > 0 ==> point)
    requires IsSign(f.sign) && f.prefix == "" && f.payload == Reversed(Scientific(n, pe, point, x, adj))
    ensures ReadDecimal(Layout(f)) == Some(DecimalReading(f.sign == "-", n, pe, x))
  {
    var t := Scientific(n, pe, point, x, adj);
    ScientificEdges(n, pe, point, x, adj);
    ScientificParts(n, pe, point, x, adj);
    hide *;
    var k := FieldParts(f);
    assert f.prefix + (Zeros(k) + f.payload) == Zeros(k) + f.payload;
    ReversedZeros(k, t);
    assert t + Zeros(k) == ExponentText(x, adj) + (MantissaText(n, pe, point) + Zeros(k));
    ReadsScientific(Layout(f), n, pe, point, x, adj, k);
  }

  lemma ReadsScientific(s: string, n: nat, pe: nat, point: bool, x: int, adj: nat, k: nat)
    requires IsCase(adj) && -999 <= x <= 999 && n < Pow(10, pe + 1) && (pe > 0 ==> point)
    requires Reversed(SkipSign(Trimmed(s))) == ExponentText(x, adj) + (MantissaText(n, pe, point) + Zeros(k))
    ensures ReadDecimal(s) == Some(DecimalReading(IsNegative(Trimmed(s)), n, pe, x))
  {
    ExponentReads(x, adj, MantissaText(n, pe, point) + Zeros(k));
    DecimalMantissaReads(n, pe, point, k);
    hide SkipSign, Value, IsDigitRun, Pow, MantissaText, ExponentText, HexFloat.DigitCount, HexFloat.SplitAtPoint,
        HasExponent, Trimmed, IsNegative;
  }

  /** What %e leaves in its field. */
  lemma ScientificFieldIs(cfg: Config, spec: Spec, bits: nat, x: Finite, m: (nat, int))
    requires IsConfig(cfg) && spec.conv.FloatSci? && bits < BIN_MODULUS && IsCase(spec.adj) && Decode(bits) == Number(x)
    requires ScientificOutput(cfg.B, cfg.C, x, spec.prec, spec.alt, spec.adj) ==
             Printed(ScientificOf(m, spec.prec, spec.alt, spec.adj))
    ensures var f := FloatField(cfg, spec, bits);
            && f.sign == SignText(Negative(bits), spec.prepend) && f.prefix == ""
            && f.payload == Reversed(Scientific(m.0, spec.prec, spec.prec > 0 || spec.alt, m.1, spec.adj))
  {
    hide Decode, Negative, ScientificOutput, Scientific;
  }

  /**
   * %e, argument to output, for every finite double: the field reads back as the sign of the
   * double and the digits and exponent of the rounded run, whatever flags and width.
   */
  lemma ScientificReadsBack(cfg: Config, spec: Spec, bits: nat, x: Finite)
    requires IsConfig(cfg) && spec.conv.FloatSci? && bits < BIN_MODULUS && IsCase(spec.adj)
    requires spec.prepend in ['\0', ' ', '+']
    requires Decode(bits) == Number(x) && spec.prec + 1 <= cfg.C - 7 && !Overruns(cfg.B, cfg.C, x)
    ensures var m := Mantissa(Significant(cfg.B, x, spec.prec + 1), spec.prec + 1);
            ReadDecimal(Layout(FloatField(cfg, spec, bits))) ==
            Some(DecimalReading(Negative(bits), m.0, spec.prec, m.1))
  {
    var m := Mantissa(Significant(cfg.B, x, spec.prec + 1), spec.prec + 1);
    SignIsSign(Negative(bits), spec.prepend);
    ScientificOutputIs(cfg.B, cfg.C, x, spec.prec, spec.alt, spec.adj);
    ScientificFieldIs(cfg, spec, bits, x, m);
    assert IsMantissa(m, spec.prec + 1);
    hide *;
    MantissaBounds(m, spec.prec + 1);
    ScientificFieldReads(FloatField(cfg, spec, bits), m.0, spec.prec, spec.prec > 0 || spec.alt, m.1, spec.adj);
  }

  lemma MantissaBounds(m: (nat, int), sig: nat)
    requires IsMantissa(m, sig)
    ensures m.0 < Pow(10, sig) && -999 <= m.1 <= 999
  {
  }

  // ---------------------------------------------------------------------------------------------
  // Whichever style %g chooses.

  /** The decimal d is R * 10^(X + 1 - sig): the digits R of which the leading one is at 10^X. */
  ghost predicate Denotes(d: DecimalReading, sig: nat, R: nat, X: int) {
    d.places - d.exponent <= sig - 1 - X && Tenfold(d.digits, sig - 1 - X - d.places + d.exponent) == R
  }

  /** A decimal text without trailing zeros, or with all of them. */
  predicate IsCutDown(n: nat, places: nat, full: nat, all: nat) {
    places <= all && Tenfold(n, all - places) == full
  }

  lemma CutDown(full: nat, all: nat, keep: bool)
    ensures var c := if keep then (full, all) else Shortest.StripFixed(full, all); IsCutDown(c.0, c.1, full, all)
  {
    StripFixedKeeps(full, all);
    TenfoldZero(full);
  }

  /** The field of %g, whatever text it holds. */
  lemma ShortestFieldIs(cfg: Config, spec: Spec, bits: nat, x: Finite, t: seq<char>)
    requires IsConfig(cfg) && spec.conv.FloatShortest? && bits < BIN_MODULUS && IsCase(spec.adj)
    requires Decode(bits) == Number(x)
    requires ShortestOutput(cfg.B, cfg.C, x, spec.prec, spec.alt, spec.adj) == Printed(t)
    ensures var f := FloatField(cfg, spec, bits);
            f.sign == SignText(Negative(bits), spec.prepend) && f.prefix == "" && f.payload == Reversed(t)
  {
    hide Decode, Negative, ShortestOutput;
  }

  lemma ShortestFieldReads(f: Field, n: nat, d: nat, sig: nat, alt: bool, adj: nat, lead: int)
    requires IsCase(adj) && sig >= 1 && d > 0 && IsSign(f.sign) && f.prefix == ""
    requires IsMantissa(RoundSignificant(n, d, sig, lead), sig)
    requires var m := RoundSignificant(n, d, sig, lead);
             f.payload == Reversed(RightShortest(n, d, sig, alt, adj, m.0, m.1))
    ensures var m, r := RoundSignificant(n, d, sig, lead), ReadDecimal(Layout(f));
            r.Some? && r.value.negative == (f.sign == "-") && Denotes(r.value, sig, m.0, m.1)
  {
    var m := RoundSignificant(n, d, sig, lead);
    var all := if -4 <= m.1 < sig then sig - 1 - m.1 else sig - 1;
    var c := if alt then (m.0, all) else Shortest.StripFixed(m.0, all);
    Shortest.SignificantAsFixed(n, d, sig, lead);
    hide *;
    CutDown(m.0, all, alt);
    RightIsCut(n, d, sig, alt, adj, m.0, m.1);
    CutFieldReads(f, c.0, c.1, alt, adj, m, sig);
  }

  lemma CutFieldReads(f: Field, n: nat, places: nat, alt: bool, adj: nat, m: (nat, int), sig: nat)
    requires IsCase(adj) && sig >= 1 && IsSign(f.sign) && f.prefix == "" && IsMantissa(m, sig)
    requires IsCutDown(n, places, m.0, if -4 <= m.1 < sig then sig - 1 - m.1 else sig - 1)
    requires f.payload ==
             Reversed(if -4 <= m.1 < sig then Fixed(n, places, places > 0 || alt)
                      else Scientific(n, places, places > 0 || alt, m.1, adj))
    ensures var d := ReadDecimal(Layout(f));
            d.Some? && d.value.negative == (f.sign == "-") && Denotes(d.value, sig, m.0, m.1)
  {
    hide ReadDecimal, Layout, Fixed, Scientific, Tenfold, Pow, Reversed;
    if -4 <= m.1 < sig {
      FixedReadsBack(f, n, places, places > 0 || alt);
    } else {
      CutBound(n, places, m.0, sig);
      ScientificFieldReads(f, n, places, places > 0 || alt, m.1, adj);
    }
  }

  lemma RightIsCut(n: nat, d: nat, sig: nat, alt: bool, adj: nat, R: nat, X: int)
    requires IsCase(adj) && sig >= 1 && d > 0 && (X < sig ==> RoundAt(n, d, sig - 1 - X) == R)
    ensures var all := if -4 <= X < sig then sig - 1 - X else sig - 1;
            var c := if alt then (R, all) else Shortest.StripFixed(R, all);
            RightShortest(n, d, sig, alt, adj, R, X) ==
            if -4 <= X < sig then Fixed(c.0, c.1, c.1 > 0 || alt) else Scientific(c.0, c.1, c.1 > 0 || alt, X, adj)
  {
    hide Fixed, Scientific, Shortest.StripFixed, RoundAt;
  }

  lemma CutBound(n: nat, places: nat, full: nat, sig: nat)
    requires sig >= 1 && full < Pow(10, sig) && IsCutDown(n, places, full, sig - 1)
    ensures n < Pow(10, places + 1)
  {
    PowAdd(10, places + 1, sig - 1 - places);
    MulCancelLess(n, Pow(10, places + 1), Pow(10, sig - 1 - places));
  }

  /**
   * %g, argument to output, on the exact domain: unless a tie goes unseen, the field reads back as
   * the sign of the double and the value rounded to P significant digits, in either style, with
   * trailing zeros or without.
   */
  lemma ShortestReadsBack(cfg: Config, spec: Spec, bits: nat, x: Finite) returns (lead: int)
    requires IsConfig(cfg) && spec.conv.FloatShortest? && bits < BIN_MODULUS && IsCase(spec.adj)
    requires spec.prepend in ['\0', ' ', '+']
    requires Decode(bits) == Number(x) && InExactDomain(cfg.B, x) && x.bin > 0
    requires Shortest.Precision(spec.prec) <= cfg.C - 7 && !Overruns(cfg.B, cfg.C, x)
    ensures IsLeadExponent(Num(x), Den(x), lead)
    ensures var sig := Shortest.Precision(spec.prec);
            var m, d := RoundSignificant(Num(x), Den(x), sig, lead), ReadDecimal(Layout(FloatField(cfg, spec, bits)));
            Shortest.SeesTies(cfg.B, x, sig, lead) ==>
              d.Some? && d.value.negative == Negative(bits) && Denotes(d.value, sig, m.0, m.1)
  {
    var sig := Shortest.Precision(spec.prec);
    var V := ExactValue(cfg.B, x);
    lead := ShortestOutputExact(cfg.B, cfg.C, x, spec.prec, spec.alt, spec.adj);
    RightBounds(cfg.B, x, sig, V, lead);
    SignIsSign(Negative(bits), spec.prepend);
    var m := RoundSignificant(Num(x), Den(x), sig, lead);
    hide *;
    if Shortest.SeesTies(cfg.B, x, sig, lead) {
      ShortestFieldIs(cfg, spec, bits, x, RightShortest(Num(x), Den(x), sig, spec.alt, spec.adj, m.0, m.1));
      ShortestFieldReads(FloatField(cfg, spec, bits), Num(x), Den(x), sig, spec.alt, spec.adj, lead);
    }
  }

  /** In style f the number of the second pass, in style e the digits of the run. */
  predicate IsReadAs(B: nat, C: nat, x: Finite, negative: bool, style: Shortest.Style, read: Option<DecimalReading>)
    requires IsWidth(B) && IsFinite(x) && IsCapacity(C)
  {
    match style
    case F(fp) => read == Some(DecimalReading(negative, FixedConversion(B, C, x, fp), fp, 0))
    case E(run, pe, e) =>
      run.nsig <= pe + 1 && read == Some(DecimalReading(negative, Tenfold(run.g, pe + 1 - run.nsig), pe, e))
  }

  /** Every finite double: what the field of %g reads back as, by the style and the run chosen. */
  lemma ShortestReadsRun(cfg: Config, spec: Spec, bits: nat, x: Finite)
    requires IsConfig(cfg) && spec.conv.FloatShortest? && bits < BIN_MODULUS && IsCase(spec.adj)
    requires spec.prepend in ['\0', ' ', '+'] && Decode(bits) == Number(x)
    requires Shortest.Precision(spec.prec) <= cfg.C - 7 && !Overruns(cfg.B, cfg.C, x)
    ensures var r := Significant(cfg.B, x, Shortest.Precision(spec.prec));
            r.nsig >= 1 &&
            IsReadAs(cfg.B, cfg.C, x, Negative(bits), Shortest.Choose(r, Shortest.Precision(spec.prec), !spec.alt),
                     ReadDecimal(Layout(FloatField(cfg, spec, bits))))
  {
    var sig := Shortest.Precision(spec.prec);
    SignificantShape(cfg.B, x, sig);
    var r := Significant(cfg.B, x, sig);
    ChosenRun(r, sig, !spec.alt);
    assert IsFinite(x) && IsWidth(cfg.B) && IsCapacity(cfg.C) && 1 <= sig <= cfg.C - 7 && IsFloat(spec.conv);
    hide *;
    ShortestByStyle(cfg, spec, x);
    StyleReads(cfg, spec, bits, x, sig, Shortest.Choose(r, sig, !spec.alt));
  }

  lemma StyleReads(cfg: Config, spec: Spec, bits: nat, x: Finite, sig: nat, style: Shortest.Style)
    requires IsConfig(cfg) && spec.conv.FloatShortest? && bits < BIN_MODULUS && IsCase(spec.adj)
    requires spec.prepend in ['\0', ' ', '+'] && Decode(bits) == Number(x)
    requires sig == Shortest.Precision(spec.prec) <= cfg.C - 7 && !Overruns(cfg.B, cfg.C, x)
    requires Significant(cfg.B, x, sig).nsig >= 1 && style == Shortest.Choose(Significant(cfg.B, x, sig), sig, !spec.alt)
    requires style.E? ==> IsRun(style.run) && style.run.nsig <= style.pe + 1 && -999 <= style.x <= 999
    requires var out := ShortestOutput(cfg.B, cfg.C, x, spec.prec, spec.alt, spec.adj);
             match style
             case F(fp) => out == FixedOutput(cfg.B, cfg.C, x, fp, spec.alt)
             case E(run, pe, e) => out == Printed(ScientificText(run, pe, spec.alt, e, spec.adj))
    ensures IsReadAs(cfg.B, cfg.C, x, Negative(bits), style, ReadDecimal(Layout(FloatField(cfg, spec, bits))))
  {
    var read := ReadDecimal(Layout(FloatField(cfg, spec, bits)));
    assert IsWidth(cfg.B) && IsCapacity(cfg.C) && IsFloat(spec.conv);
    if style.F? {
      var fp := style.prec;
      assert Shortest.Choose(Significant(cfg.B, x, sig), sig, !spec.alt) == Shortest.F(fp);
      assert ShortestOutput(cfg.B, cfg.C, x, spec.prec, spec.alt, spec.adj) == FixedOutput(cfg.B, cfg.C, x, fp, spec.alt);
      hide *;
      FloatPaths.SecondRunFits(cfg.B, cfg.C, x, sig, spec.alt, fp);
      StyleFReads(cfg, spec, bits, x, fp, FixedConversion(cfg.B, cfg.C, x, fp));
      ReadAsFixed(cfg.B, cfg.C, x, Negative(bits), fp, read);
    } else {
      var run, pe, e := style.run, style.pe, style.x;
      assert ShortestOutput(cfg.B, cfg.C, x, spec.prec, spec.alt, spec.adj) == Printed(ScientificText(run, pe, spec.alt, e, spec.adj));
      hide *;
      StyleEReads(cfg, spec, bits, x, run, pe, e);
      ReadAsRun(cfg.B, cfg.C, x, Negative(bits), run, pe, e, read);
    }
  }

  lemma ReadAsFixed(B: nat, C: nat, x: Finite, negative: bool, fp: nat, read: Option<DecimalReading>)
    requires IsWidth(B) && IsFinite(x) && IsCapacity(C)
    requires read == Some(DecimalReading(negative, FixedConversion(B, C, x, fp), fp, 0))
    ensures IsReadAs(B, C, x, negative, Shortest.F(fp), read)
  {
  }

  lemma ReadAsRun(B: nat, C: nat, x: Finite, negative: bool, run: Run, pe: nat, e: int, read: Option<DecimalReading>)
    requires IsWidth(B) && IsFinite(x) && IsCapacity(C) && run.nsig <= pe + 1
    requires read == Some(DecimalReading(negative, Tenfold(run.g, pe + 1 - run.nsig), pe, e))
    ensures IsReadAs(B, C, x, negative, Shortest.E(run, pe, e), read)
  {
  }

  lemma StyleFReads(cfg: Config, spec: Spec, bits: nat, x: Finite, fp: nat, n: nat)
    requires IsConfig(cfg) && spec.conv.FloatShortest? && bits < BIN_MODULUS && IsCase(spec.adj)
    requires spec.prepend in ['\0', ' ', '+'] && Decode(bits) == Number(x)
    requires ShortestOutput(cfg.B, cfg.C, x, spec.prec, spec.alt, spec.adj) == Printed(Fixed(n, fp, fp > 0 || spec.alt))
    ensures ReadDecimal(Layout(FloatField(cfg, spec, bits))) == Some(DecimalReading(Negative(bits), n, fp, 0))
  {
    assert IsFloat(spec.conv);
    hide *;
    SignIsSign(Negative(bits), spec.prepend);
    ShortestFieldIs(cfg, spec, bits, x, Fixed(n, fp, fp > 0 || spec.alt));
    FixedReadsBack(FloatField(cfg, spec, bits), n, fp, fp > 0 || spec.alt);
  }

  lemma StyleEReads(cfg: Config, spec: Spec, bits: nat, x: Finite, run: Run, pe: nat, e: int)
    requires IsConfig(cfg) && spec.conv.FloatShortest? && bits < BIN_MODULUS && IsCase(spec.adj)
    requires spec.prepend in ['\0', ' ', '+'] && Decode(bits) == Number(x)
    requires IsRun(run) && run.nsig <= pe + 1 && -999 <= e <= 999
    requires ShortestOutput(cfg.B, cfg.C, x, spec.prec, spec.alt, spec.adj) ==
             Printed(ScientificText(run, pe, spec.alt, e, spec.adj))
    ensures ReadDecimal(Layout(FloatField(cfg, spec, bits))) ==
            Some(DecimalReading(Negative(bits), Tenfold(run.g, pe + 1 - run.nsig), pe, e))
  {
    assert IsFloat(spec.conv);
    hide *;
    SignIsSign(Negative(bits), spec.prepend);
    ShortestFieldIs(cfg, spec, bits, x, ScientificText(run, pe, spec.alt, e, spec.adj));
    RunFieldReads(FloatField(cfg, spec, bits), run, pe, spec.alt, e, spec.adj);
  }

  lemma ShortestByStyle(cfg: Config, spec: Spec, x: Finite)
    requires IsConfig(cfg) && IsFinite(x) && IsCase(spec.adj)
    requires Shortest.Precision(spec.prec) <= cfg.C - 7 && !Overruns(cfg.B, cfg.C, x)
    requires Significant(cfg.B, x, Shortest.Precision(spec.prec)).nsig >= 1
    ensures var sig := Shortest.Precision(spec.prec);
            var out := ShortestOutput(cfg.B, cfg.C, x, spec.prec, spec.alt, spec.adj);
            match Shortest.Choose(Significant(cfg.B, x, sig), sig, !spec.alt)
            case F(fp) => out == FixedOutput(cfg.B, cfg.C, x, fp, spec.alt)
            case E(run, pe, e) => run.nsig <= pe + 1 && out == Printed(ScientificText(run, pe, spec.alt, e, spec.adj))
  {
    SignificantShape(cfg.B, x, Shortest.Precision(spec.prec));
    hide Significant, FixedOutput, ScientificText, Overruns, IsFinite;
  }

  lemma ChosenRun(r: Run, sig: nat, strip: bool)
    requires IsRun(r) && 1 <= r.nsig <= sig && (HasLead(r) || r == Run(0, 1, 0, 0, true)) && -999 <= r.dec + r.nsig - 1 <= 999
    ensures match Shortest.Choose(r, sig, strip)
            case F(_) => true
            case E(run, pe, e) => IsRun(run) && run.nsig <= pe + 1 && -999 <= e <= 999
  {
    if HasLead(r) { Shortest.StripKeeps(r); }
  }

  lemma RunFieldReads(f: Field, run: Run, pe: nat, alt: bool, e: int, adj: nat)
    requires IsCase(adj) && -999 <= e <= 999 && IsRun(run) && run.nsig <= pe + 1
    requires IsSign(f.sign) && f.prefix == "" && f.payload == Reversed(ScientificText(run, pe, alt, e, adj))
    ensures ReadDecimal(Layout(f)) == Some(DecimalReading(f.sign == "-", Tenfold(run.g, pe + 1 - run.nsig), pe, e))
  {
    TenfoldBound(run.g, run.nsig, pe + 1 - run.nsig);
    assert run.nsig + (pe + 1 - run.nsig) == pe + 1;
    var n := Tenfold(run.g, pe + 1 - run.nsig);
    assert f.payload == Reversed(Scientific(n, pe, pe > 0 || alt, e, adj));
    hide *;
    ScientificFieldReads(f, n, pe, pe > 0 || alt, e, adj);
  }
}
