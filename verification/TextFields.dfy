/**
 * Fields that are not integers, mark by mark: strings and characters, the sign, prefix and padding
 * of floats, what infinities and NaN print as, and the letter case of everything printed.
 */
module TextFields {
  import opened Arithmetic
  import opened Numerals
  import opened DecimalText
  import opened Doubles
  import opened FormatSpec
  import opened Shared
  import opened SharedConversion
  import opened Specials
  import opened Fields
  import opened FieldFacts
  import Shortest
  import HexFloat

  // ---------------------------------------------------------------------------------------------
  // Strings and characters.

  /** Blanks, zeros and the payload, on the sides and in the number the flags and the width tell. */
  ghost predicate IsPadded(t: string, f: Field, a: nat, k: nat, b: nat) {
    && t == Spaces(a) + f.sign + f.prefix + Zeros(k) + f.payload + Spaces(b)
    && |t| == Max(f.width, |f.sign| + |f.prefix| + f.zeros + |f.payload|)
    && (a > 0 ==> !f.left && !f.zeroPad) && (b > 0 ==> f.left)
    && k >= f.zeros && (k > f.zeros ==> f.zeroPad && !f.left)
  }

  lemma LayoutPads(f: Field) returns (a: nat, k: nat, b: nat)
    ensures IsPadded(Layout(f), f, a, k, b)
  {
    a, k, b := LayoutShape(f);
    assert |Layout(f)| == Max(f.width, Natural(f));
  }

  /** %s prints the string up to its precision, or all of it without one; a null pointer is empty. */
  lemma StringPrinted(spec: Spec, arg: Arg) returns (a: nat, k: nat, b: nat)
    requires IsArg(arg, CharsKind)
    ensures var f := StringField(spec, arg);
            var s := if arg.Chars? then arg.s else "";
            && IsPadded(Layout(f), f, a, k, b) && f.sign == "" && f.prefix == "" && f.zeros == 0
            && f.payload <= s && |f.payload| == (if spec.precOpt != Absent then Min(|s|, spec.prec) else |s|)
            && f.width == spec.width && f.left == spec.left && f.zeroPad == (spec.zeroPad && !spec.left)
  {
    a, k, b := LayoutPads(StringField(spec, arg));
  }

  /** %c prints the low eight bits of its argument, %% a percent sign. */
  lemma CharacterPrinted(cfg: Config, spec: Spec, arg: Arg) returns (a: nat, k: nat, b: nat)
    requires IsConfig(cfg) && IsCase(spec.adj) && (spec.conv.Percent? || (spec.conv.Character? && IsArg(arg, WordKind)))
    ensures var f := FieldOf(cfg, spec, arg);
            && IsPadded(Layout(f), f, a, k, b) && f.sign == "" && f.prefix == ""
            && f.payload == [if spec.conv.Percent? then '%' else (arg.bits % 256) as char]
            && f.zeros == Max(0, spec.prec - 1)
            && f.width == spec.width && f.left == spec.left && f.zeroPad == (spec.zeroPad && !spec.left)
  {
    a, k, b := LayoutPads(FieldOf(cfg, spec, arg));
  }

  // ---------------------------------------------------------------------------------------------
  // Floats.

  /** The sign of a float: '-' exactly with the sign bit, zeros, infinities and NaN included. */
  function FloatSign(spec: Spec, bits: nat): string {
    if bits >= 0x8000_0000_0000_0000 then "-"
    else if spec.prepend == '+' then "+"
    else if spec.prepend == ' ' then " "
    else ""
  }

  /** The names of what is no number. */
  function Named(adj: nat, small: string, capital: string): string { if adj == 0 then capital else small }

  /**
   * Every float field: sign, for a finite %a the prefix, and the text; infinities and NaN by name
   * and never padded with zeros, whatever the flags.
   */
  lemma FloatPrinted(cfg: Config, spec: Spec, bits: nat) returns (a: nat, k: nat, b: nat)
    requires IsConfig(cfg) && IsFloat(spec.conv) && bits < BIN_MODULUS && IsCase(spec.adj)
    requires spec.prepend in ['\0', ' ', '+']
    ensures var f, m := FloatField(cfg, spec, bits), BelowSign(bits);
            && IsPadded(Layout(f), f, a, k, b) && f.sign == FloatSign(spec, bits) && f.zeros == 0
            && f.width == spec.width && f.left == spec.left
            && f.prefix == (if spec.conv.FloatHex? && m < 0x7FF0_0000_0000_0000 then Named(spec.adj, "0x", "0X") else "")
            && (m == 0x7FF0_0000_0000_0000 ==> f.payload == Named(spec.adj, "inf", "INF") && k == 0)
            && (m > 0x7FF0_0000_0000_0000 ==> f.payload == Named(spec.adj, "nan", "NAN") && k == 0)
            && (f.zeroPad ==> spec.zeroPad && !spec.left && m < 0x7FF0_0000_0000_0000)
  {
    var f := FloatField(cfg, spec, bits);
    a, k, b := LayoutPads(f);
    DecodeIs(bits);
    SpecialsDiffer(spec.adj);
    ReversedNames();
    hide Layout, Decode, FiniteOutput, HexFloat.Text, SpecialText, IsFinite;
  }

  lemma ReversedNames()
    ensures Reversed("fni") == "inf" && Reversed("FNI") == "INF" && Reversed("nan") == "nan" && Reversed("NAN") == "NAN"
    ensures Reversed("rre") == "err" && Reversed("RRE") == "ERR"
  {
  }

  /** A finite value prints its text, padded with zeros on demand, or ERR, never padded with zeros. */
  lemma FinitePrinted(cfg: Config, spec: Spec, bits: nat, x: Finite)
    requires IsConfig(cfg) && IsFloat(spec.conv) && bits < BIN_MODULUS && IsCase(spec.adj) && Decode(bits) == Number(x)
    ensures var f := FloatField(cfg, spec, bits);
            if spec.conv.FloatHex? then
              f.payload == Reversed(HexFloat.Text(x, spec.prec, spec.alt, spec.adj)) && f.zeroPad == (spec.zeroPad && !spec.left)
            else
              var conv := if spec.conv.FloatDec? then FloatF else if spec.conv.FloatSci? then FloatE else FloatG;
              match FiniteOutput(cfg.B, cfg.C, x, conv, spec.prec, spec.alt, spec.adj)
              case Printed(t) => f.payload == Reversed(t) && f.zeroPad == (spec.zeroPad && !spec.left)
              case TooLong => f.payload == Named(spec.adj, "err", "ERR") && !f.zeroPad
  {
    SpecialsDiffer(spec.adj);
    ReversedNames();
    hide Decode, FiniteOutput, HexFloat.Text, SpecialText;
  }

  // ---------------------------------------------------------------------------------------------
  // Letter case: no small letter under a capital conversion, no capital under a small one.

  predicate IsOneCase(s: string, adj: nat) {
    forall i :: 0 <= i < |s| ==> if adj == LOWER then !('A' <= s[i] <= 'Z') else !('a' <= s[i] <= 'z')
  }

  lemma CasedIsOneCase(s: string, adj: nat)
    requires IsCased(s, adj)
    ensures IsOneCase(s, adj)
  {
  }

  /** Decimal digits have no case. */
  lemma DigitsHaveNoCase(s: string, adj: nat)
    requires forall i :: 0 <= i < |s| ==> '0' <= s[i] <= '9' || s[i] in ".+-"
    ensures IsOneCase(s, adj)
  {
  }

  lemma OneCaseAppend(s: string, t: string, adj: nat)
    requires IsOneCase(s, adj) && IsOneCase(t, adj)
    ensures IsOneCase(s + t, adj)
  {
  }

  lemma OneCaseReversed(s: string, adj: nat)
    requires IsOneCase(s, adj)
    ensures IsOneCase(Reversed(s), adj)
  {
  }

  lemma FixedCase(n: nat, prec: nat, point: bool, adj: nat)
    ensures IsOneCase(Fixed(n, prec, point), adj)
  {
    DigitsAreText(n, prec);
    NumeralIsText(High(n, prec));
    hide Digits, Numeral, High;
    DigitsHaveNoCase(Fixed(n, prec, point), adj);
  }

  lemma JoinCase(s: string, t: string, u: string, v: string, adj: nat)
    requires IsOneCase(s, adj) && IsOneCase(t, adj) && IsOneCase(u, adj) && IsOneCase(v, adj)
    ensures IsOneCase(s + t + u + v, adj)
  {
    hide IsOneCase;
    OneCaseAppend(s, t, adj);
    OneCaseAppend(s + t, u, adj);
    OneCaseAppend(s + t + u, v, adj);
  }

  lemma PointCase(point: bool, adj: nat)
    ensures IsOneCase(if point then ['.'] else [], adj)
  {
  }

  lemma LetterCase(sign: char, letter: char, adj: nat)
    requires IsCase(adj) && sign in "+-" && 'A' <= letter <= 'Z'
    ensures IsOneCase([sign, (letter as int + adj) as char], adj)
    ensures IsOneCase([sign] + [(letter as int + adj) as char], adj)
  {
  }

  lemma NumeralCase(a: nat, adj: nat)
    ensures IsOneCase(DecNumeral(a), adj) && IsOneCase(DecNumeral(a) + ['0'], adj) && IsOneCase(DecNumeral(a) + [], adj)
  {
    NumeralIsText(a);
    hide Numeral;
    DigitsHaveNoCase(DecNumeral(a), adj);
    DigitsHaveNoCase(DecNumeral(a) + ['0'], adj);
    assert DecNumeral(a) + [] == DecNumeral(a);
  }

  lemma ExponentCase(x: int, adj: nat)
    requires IsCase(adj)
    ensures IsOneCase(ExponentText(x, adj), adj)
  {
    var a := if x < 0 then -x else x;
    NumeralCase(a, adj);
    LetterCase(if x < 0 then '-' else '+', 'E', adj);
    hide Numeral, IsOneCase;
    var digits := DecNumeral(a) + (if a < 10 then ['0'] else []);
    OneCaseAppend(digits, [if x < 0 then '-' else '+'] + [('E' as int + adj) as char], adj);
    assert ExponentText(x, adj) == digits + ([if x < 0 then '-' else '+'] + [('E' as int + adj) as char]);
  }

  lemma DecCase(n: nat, k: nat, adj: nat)
    ensures IsOneCase(Dec(n, k), adj)
  {
    DigitsAreText(n, k);
    hide Digits;
    DigitsHaveNoCase(Dec(n, k), adj);
  }

  lemma DigitCase(d: nat, adj: nat)
    requires d < 10
    ensures IsOneCase([DigitChar(d, 0)], adj)
  {
  }

  lemma ScientificCase(n: nat, pe: nat, point: bool, x: int, adj: nat)
    requires IsCase(adj)
    ensures IsOneCase(Scientific(n, pe, point, x, adj), adj)
  {
    ExponentCase(x, adj);
    DecCase(n, pe, adj);
    PointCase(point, adj);
    DigitCase(High(n, pe) % 10, adj);
    hide IsOneCase, ExponentText, Digits, High, DigitChar;
    JoinCase(ExponentText(x, adj), Dec(n, pe), if point then ['.'] else [], [DigitChar(High(n, pe) % 10, 0)], adj);
  }

  lemma HexCase(x: Finite, prec: nat, alt: bool, adj: nat)
    requires IsCase(adj)
    ensures IsOneCase(HexFloat.Text(x, prec, alt, adj), adj)
  {
    var p := Min(prec, HexFloat.FRACTION_NIBBLES);
    var m, e := HexFloat.Mantissa(x, p), HexFloat.Exponent(x);
    hide *;
    HexMantissaCase(m, p, p > 0 || alt, adj);
    HexExponentCase(e, adj);
    OneCaseAppend(HexFloat.ExponentText(e, adj), HexFloat.MantissaText(m, p, p > 0 || alt, adj), adj);
    HexTextIs(x, prec, alt, adj);
  }

  lemma HexTextIs(x: Finite, prec: nat, alt: bool, adj: nat)
    requires IsCase(adj)
    ensures var p := Min(prec, HexFloat.FRACTION_NIBBLES);
            HexFloat.Text(x, prec, alt, adj) ==
            HexFloat.ExponentText(HexFloat.Exponent(x), adj) + HexFloat.MantissaText(HexFloat.Mantissa(x, p), p, p > 0 || alt, adj)
  {
    hide HexFloat.ExponentText, HexFloat.MantissaText, HexFloat.Mantissa;
  }

  lemma HexExponentCase(e: int, adj: nat)
    requires IsCase(adj)
    ensures IsOneCase(HexFloat.ExponentText(e, adj), adj)
  {
    var a := if e < 0 then -e else e;
    NumeralCase(a, adj);
    LetterCase(if e < 0 then '-' else '+', 'P', adj);
    hide Numeral, IsOneCase;
    OneCaseAppend(DecNumeral(a), [if e < 0 then '-' else '+', ('P' as int + adj) as char], adj);
  }

  lemma HexMantissaCase(m: nat, p: nat, point: bool, adj: nat)
    requires IsCase(adj)
    ensures IsOneCase(HexFloat.MantissaText(m, p, point, adj), adj)
  {
    var d := m / Pow(16, p) % 16;
    DigitsCased(m, p, 16, adj);
    DigitCased(d, adj);
    CasedIsOneCase(Digits(m, p, 16, adj), adj);
    CasedIsOneCase([DigitChar(d, adj)], adj);
    PointCase(point, adj);
    hide Digits, DigitChar, IsOneCase, Pow, IsCased;
    OneCaseAppend(Digits(m, p, 16, adj), if point then ['.'] else [], adj);
    OneCaseAppend(Digits(m, p, 16, adj) + (if point then ['.'] else []), [DigitChar(d, adj)], adj);
  }

  lemma OutputCase(B: nat, C: nat, x: Finite, conv: Conversion, prec: nat, alt: bool, adj: nat)
    requires IsWidth(B) && IsFinite(x) && IsCapacity(C) && IsCase(adj)
    ensures var r := FiniteOutput(B, C, x, conv, prec, alt, adj); r.Printed? ==> IsOneCase(r.text, adj)
  {
    hide Overruns, Clobbers, FixedConversion, Significant, Fixed, ScientificText, IsFinite, Shortest.Choose, IsOneCase;
    match conv
    case FloatF => FixedOutputCase(B, C, x, prec, alt, adj);
    case FloatE =>
      if prec + 1 <= C - 7 {
        SignificantShape(B, x, prec + 1);
        var r := Significant(B, x, prec + 1);
        ScientificTextCase(r, prec, alt, r.dec + r.nsig - 1, adj);
      }
    case FloatG =>
      var sig := Shortest.Precision(prec);
      if sig <= C - 7 {
        SignificantShape(B, x, sig);
        ChosenFits(Significant(B, x, sig), sig, alt, adj, C);
        match Shortest.Choose(Significant(B, x, sig), sig, !alt)
        case F(fp) => FixedOutputCase(B, C, x, fp, alt, adj);
        case E(run, pe, e) => ScientificTextCase(run, pe, alt, e, adj);
      }
  }

  lemma FixedOutputCase(B: nat, C: nat, x: Finite, prec: nat, alt: bool, adj: nat)
    requires IsWidth(B) && IsFinite(x) && IsCapacity(C) && IsCase(adj)
    ensures var r := FixedOutput(B, C, x, prec, alt); r.Printed? ==> IsOneCase(r.text, adj)
  {
    FixedCase(FixedConversion(B, C, x, prec), prec, prec > 0 || alt, adj);
    hide Overruns, Clobbers, FixedConversion, Fixed, IsFinite;
  }

  lemma ScientificTextCase(r: Run, pe: nat, alt: bool, x: int, adj: nat)
    requires IsCase(adj) && r.nsig <= pe + 1
    ensures IsOneCase(ScientificText(r, pe, alt, x, adj), adj)
  {
    hide Scientific, Tenfold, IsOneCase;
    ScientificCase(Tenfold(r.g, pe + 1 - r.nsig), pe, pe > 0 || alt, x, adj);
  }

  /** Every float field: digits, exponent letter, prefix and names are in the case of the conversion's letter. */
  lemma FloatFieldCase(cfg: Config, spec: Spec, bits: nat)
    requires IsConfig(cfg) && IsFloat(spec.conv) && bits < BIN_MODULUS && IsCase(spec.adj)
    requires spec.prepend in ['\0', ' ', '+']
    ensures IsOneCase(Layout(FloatField(cfg, spec, bits)), spec.adj)
  {
    var f := FloatField(cfg, spec, bits);
    ContentCase(cfg, spec, bits);
    OneCaseReversed(FloatText(cfg, spec, bits).0, spec.adj);
    FloatMarksCase(cfg, spec, bits);
    hide *;
    FieldCase(f, spec.adj);
  }

  lemma FloatMarksCase(cfg: Config, spec: Spec, bits: nat)
    requires IsConfig(cfg) && IsFloat(spec.conv) && bits < BIN_MODULUS && IsCase(spec.adj)
    requires spec.prepend in ['\0', ' ', '+']
    ensures var f := FloatField(cfg, spec, bits);
            && IsOneCase(f.sign, spec.adj) && IsOneCase(f.prefix, spec.adj)
            && f.payload == Reversed(FloatText(cfg, spec, bits).0)
  {
    hide Decode, FloatText;
  }

  lemma ContentCase(cfg: Config, spec: Spec, bits: nat)
    requires IsConfig(cfg) && IsFloat(spec.conv) && bits < BIN_MODULUS && IsCase(spec.adj)
    ensures IsOneCase(FloatText(cfg, spec, bits).0, spec.adj)
  {
    var c := Decode(bits);
    hide *;
    if c.Number? {
      HexCase(c.x, spec.prec, spec.alt, spec.adj);
      OutputCase(cfg.B, cfg.C, c.x, FloatConversion(spec.conv), spec.prec, spec.alt, spec.adj);
    }
    TextCase(cfg, spec, bits);
  }

  lemma TextCase(cfg: Config, spec: Spec, bits: nat)
    requires IsConfig(cfg) && IsFloat(spec.conv) && bits < BIN_MODULUS && IsCase(spec.adj)
    requires match Decode(bits)
             case Number(x) =>
               && IsOneCase(HexFloat.Text(x, spec.prec, spec.alt, spec.adj), spec.adj)
               && var r := FiniteOutput(cfg.B, cfg.C, x, FloatConversion(spec.conv), spec.prec, spec.alt, spec.adj);
                  r.Printed? ==> IsOneCase(r.text, spec.adj)
             case _ => true
    ensures IsOneCase(FloatText(cfg, spec, bits).0, spec.adj)
  {
    SpecialsDiffer(spec.adj);
    hide Decode, FiniteOutput, HexFloat.Text, SpecialText;
  }

  /** Padding has no case. */
  lemma FieldCase(f: Field, adj: nat)
    requires IsOneCase(f.sign, adj) && IsOneCase(f.prefix, adj) && IsOneCase(f.payload, adj)
    ensures IsOneCase(Layout(f), adj)
  {
    var a, k, b := LayoutShape(f);
    OneCaseAppend(Spaces(a), f.sign, adj);
    OneCaseAppend(Spaces(a) + f.sign, f.prefix, adj);
    OneCaseAppend(Spaces(a) + f.sign + f.prefix, Zeros(k), adj);
    OneCaseAppend(Spaces(a) + f.sign + f.prefix + Zeros(k), f.payload, adj);
    OneCaseAppend(Spaces(a) + f.sign + f.prefix + Zeros(k) + f.payload, Spaces(b), adj);
    hide Layout;
  }

  /** And every integer field. */
  lemma IntegerFieldCase(spec: Spec, bits: nat)
    requires IsInteger(spec.conv) && IsCase(spec.adj) && spec.prepend in ['\0', ' ', '+']
    ensures IsOneCase(Layout(IntegerField(spec, bits)), spec.adj)
  {
    var f, v, base := IntegerField(spec, bits), Magnitude(spec, bits), Base(spec.conv);
    NumeralCased(v, base, spec.adj);
    CasedIsOneCase(Numeral(v, base, spec.adj), spec.adj);
    OneCaseAppend(Numeral(v, base, spec.adj), ['0'], spec.adj);
    assert IsOneCase(StoredDigits(spec, bits), spec.adj) by { hide Numeral, IntegerValue, Magnitude; }
    OneCaseReversed(StoredDigits(spec, bits), spec.adj);
    assert IsOneCase(f.prefix, spec.adj) && IsOneCase(f.sign, spec.adj) by { hide Numeral, IntegerValue, Magnitude; }
    hide Numeral, IntegerValue, Magnitude, Layout;
    FieldCase(f, spec.adj);
  }
}
