/** What the fields promise: integers read back, and no numeric field is longer than the ceilings allow. */
module FieldFacts {
  import opened Arithmetic
  import opened Numerals
  import opened DecimalText
  import opened Doubles
  import opened Unsigned
  import opened FormatSpec
  import Shared
  import opened Shortest
  import opened SharedLayout
  import opened SharedConversion
  import opened Fields
  import opened Driver
  import HexFloat

  // ---------------------------------------------------------------------------------------------
  // Reading an integer: blanks around it, a sign, the base's prefix, digits.

  function SkipSpaces(s: string): (t: string)
    ensures |t| <= |s|
  {
    if s != "" && s[0] == ' ' then SkipSpaces(s[1..]) else s
  }

  function StripSpaces(s: string): (t: string)
    ensures |t| <= |s|
  {
    if s != "" && s[|s| - 1] == ' ' then StripSpaces(s[..|s| - 1]) else s
  }

  function SkipSign(s: string): string {
    if s != "" && (s[0] == '-' || s[0] == '+') then s[1..] else s
  }

  function SkipPrefix(s: string, base: nat): string {
    if |s| >= 2 && s[0] == '0' && ((base == 16 && s[1] in "xX") || (base == 2 && s[1] in "bB")) then s[2..] else s
  }

  function ReadInteger(s: string, base: nat): Option<int> {
    var t := StripSpaces(SkipSpaces(s));
    var d := SkipPrefix(SkipSign(t), base);
    if d == "" || !IsDigitRun(d, base) then None
    else Some(if t[0] == '-' then 0 - Value(Reversed(d), base) else Value(Reversed(d), base))
  }

  lemma {:induction false} SkipIs(k: nat, t: string)
    requires t == "" || t[0] != ' '
    ensures SkipSpaces(Spaces(k) + t) == t
  {
    if k == 0 {
      assert Spaces(0) + t == t;
    } else {
      assert (Spaces(k) + t)[1..] == Spaces(k - 1) + t;
      SkipIs(k - 1, t);
    }
  }

  lemma {:induction false} StripIs(k: nat, t: string)
    requires t == "" || t[|t| - 1] != ' '
    ensures StripSpaces(t + Spaces(k)) == t
  {
    if k == 0 {
      assert t + Spaces(0) == t;
    } else {
      var s := t + Spaces(k);
      assert s[..|s| - 1] == t + Spaces(k - 1);
      StripIs(k - 1, t);
    }
  }

  predicate IsPrefix(prefix: string, base: nat) {
    || prefix == ""
    || (base == 16 && (prefix == "0x" || prefix == "0X"))
    || (base == 2 && (prefix == "0b" || prefix == "0B"))
  }

  /** The text between the blanks: a sign other than a blank, the prefix, the digits. */
  predicate IsCore(sign: string, prefix: string, d: string, base: nat) {
    && (sign == "" || sign == "-" || sign == "+")
    && IsPrefix(prefix, base)
    && d != "" && IsDigitRun(d, base) && base <= 16
  }

  lemma DigitsHaveNoMarks(c: char, base: nat)
    requires DigitValue(c) < base <= 16
    ensures c !in " +-xX" && (base == 2 ==> c !in "bB")
  {
  }

  function Core(sign: string, prefix: string, d: string): string { sign + (prefix + d) }

  lemma CoreEdges(sign: string, prefix: string, d: string, base: nat)
    requires IsCore(sign, prefix, d, base)
    ensures var t := Core(sign, prefix, d);
            && t != "" && t[0] != ' ' && t[|t| - 1] != ' '
            && (t[0] == '-' <==> sign == "-")
            && SkipSign(t) == prefix + d
            && SkipPrefix(prefix + d, base) == d
  {
    PrefixEdge(prefix, d, base);
    assert sign == "" || sign == "-" || sign == "+";
    hide IsCore, SkipSign, SkipPrefix, IsDigitRun;
    SignEdge(sign, prefix + d);
  }

  lemma SignEdge(sign: string, u: string)
    requires sign == "" || sign == "-" || sign == "+"
    requires u != "" && u[0] !in " +-" && u[|u| - 1] != ' '
    ensures var t := sign + u;
            && t != "" && t[0] != ' ' && t[|t| - 1] != ' ' && (t[0] == '-' <==> sign == "-") && SkipSign(t) == u
  {
    var t := sign + u;
    assert t[|t| - 1] == u[|u| - 1];
    if sign != "" { assert t[1..] == u; } else { assert t == u; }
  }

  lemma PrefixEdge(prefix: string, d: string, base: nat)
    requires IsCore("", prefix, d, base)
    ensures var u := prefix + d;
            u != "" && u[0] !in " +-" && u[|u| - 1] != ' ' && SkipPrefix(u, base) == d
  {
    var u := prefix + d;
    DigitsHaveNoMarks(d[0], base);
    DigitsHaveNoMarks(d[|d| - 1], base);
    assert u[|u| - 1] == d[|d| - 1];
    if prefix != "" {
      assert u[2..] == d;
    } else {
      assert u == d;
      if |d| >= 2 { DigitsHaveNoMarks(d[1], base); }
    }
  }

  lemma ReadCore(a: nat, sign: string, prefix: string, d: string, b: nat, base: nat)
    requires IsCore(sign, prefix, d, base)
    ensures ReadInteger(Spaces(a) + Core(sign, prefix, d) + Spaces(b), base) ==
            Some(if sign == "-" then 0 - Value(Reversed(d), base) else Value(Reversed(d), base))
  {
    var t := Core(sign, prefix, d);
    CoreEdges(sign, prefix, d, base);
    hide Core, IsCore, SkipSpaces, StripSpaces, SkipSign, SkipPrefix, Value, Reversed, IsDigitRun;
    assert Spaces(a) + t + Spaces(b) == Spaces(a) + (t + Spaces(b));
    SkipIs(a, t + Spaces(b));
    StripIs(b, t);
    CoreDigits(sign, prefix, d, base);
  }

  lemma CoreDigits(sign: string, prefix: string, d: string, base: nat)
    requires IsCore(sign, prefix, d, base)
    ensures d != "" && IsDigitRun(d, base)
  {
  }

  // ---------------------------------------------------------------------------------------------
  // Leading zeros change nothing.

  lemma {:induction false} ZerosOnTop(s: seq<char>, k: nat, base: nat)
    ensures Value(s + Zeros(k), base) == Value(s, base)
  {
    if s == [] {
      assert s + Zeros(k) == Zeros(k);
      ZeroValue(k, base);
    } else {
      assert (s + Zeros(k))[1..] == s[1..] + Zeros(k);
      ZerosOnTop(s[1..], k, base);
    }
  }

  lemma {:induction false} ZeroValue(k: nat, base: nat)
    ensures Value(Zeros(k), base) == 0
  {
    if k > 0 {
      assert Zeros(k)[1..] == Zeros(k - 1);
      ZeroValue(k - 1, base);
    }
  }

  /** The characters after sign and prefix: leading zeros, then the digits in reading order. */
  lemma ReadingOrder(digits: seq<char>, k: nat, base: nat)
    requires IsDigitRun(digits, base) && base >= 1
    ensures var d := Zeros(k) + Reversed(digits);
            IsDigitRun(d, base) && Value(Reversed(d), base) == Value(digits, base)
  {
    var d := Zeros(k) + Reversed(digits);
    assert Reversed(d) == digits + Zeros(k);
    ZerosOnTop(digits, k, base);
    hide Value;
  }

  lemma IntegerDigitsRead(spec: Spec, bits: nat)
    requires IsInteger(spec.conv) && IsCase(spec.adj)
    ensures var digits := StoredDigits(spec, bits);
            && IsDigitRun(digits, Base(spec.conv))
            && Value(digits, Base(spec.conv)) == Magnitude(spec, bits)
            && (digits == [] <==> IsBlank(spec, bits))
  {
    var v, base := Magnitude(spec, bits), Base(spec.conv);
    NumeralValue(v, base, spec.adj);
    ZerosOnTop(Numeral(v, base, spec.adj), 1, base);
    ZeroMagnitude(spec, bits);
    assert Zeros(1) == ['0'];
    hide Numeral, IntegerValue, Magnitude;
    assert Numeral(v, base, spec.adj) + [] == Numeral(v, base, spec.adj);
    if IsBlank(spec, bits) {
      assert StoredDigits(spec, bits) == [] && v == 0;
    } else {
      assert StoredDigits(spec, bits) != [];
    }
  }

  /** The parts of an integer field around its digits. */
  lemma IntegerParts(spec: Spec, bits: nat) returns (a: nat, sign: string, k: nat, b: nat)
    requires IsInteger(spec.conv) && IsCase(spec.adj) && spec.prepend in ['\0', ' ', '+']
    ensures var digits := StoredDigits(spec, bits);
            && Layout(IntegerField(spec, bits)) ==
               Spaces(a) + Core(sign, IntegerPrefix(spec, bits), Zeros(k) + Reversed(digits)) + Spaces(b)
            && (sign == "" || sign == "-" || sign == "+")
            && (sign == "-" <==> spec.conv.Signed? && IntegerValue(spec, bits) < 0)
            && (k == 0 && digits == [] <==> IsBlank(spec, bits) && !(spec.conv.Octal? && spec.alt))
  {
    var f := IntegerField(spec, bits);
    IntegerDigitsRead(spec, bits);
    hide StoredDigits, IntegerPrefix, IntegerValue, Value, Layout;
    ghost var before;
    before, k, b := LayoutShape(f);
    if f.sign == " " {
      a, sign := before + 1, "";
      assert Spaces(before) + " " == Spaces(before + 1);
    } else {
      a, sign := before, f.sign;
    }
    hide *;
    Regroup(Spaces(before), f.sign, f.prefix, Zeros(k), f.payload, Spaces(b));
    Regroup(Spaces(a), sign, f.prefix, Zeros(k), f.payload, Spaces(b));
    if f.sign == " " {
      assert Spaces(before) + f.sign == Spaces(a) + sign;
    }
  }

  /** One shape for the three layouts. */
  lemma LayoutShape(f: Field) returns (before: nat, k: nat, b: nat)
    ensures Layout(f) == Spaces(before) + f.sign + f.prefix + Zeros(k) + f.payload + Spaces(b)
    ensures k == f.zeros + if !f.left && f.zeroPad then Max(0, f.width - Natural(f)) else 0
    ensures (f.left || f.zeroPad ==> before == 0) && (!f.left ==> b == 0)
  {
    var pad := Max(0, f.width - Natural(f));
    assert Spaces(0) == "";
    if f.left {
      before, k, b := 0, f.zeros, pad;
    } else if f.zeroPad {
      before, k, b := 0, pad + f.zeros, 0;
    } else {
      before, k, b := pad, f.zeros, 0;
    }
  }

  lemma Regroup(a: string, b: string, c: string, d: string, e: string, f: string)
    ensures a + b + c + d + e + f == (a + b) + (c + (d + e)) + f
    ensures a + b + c + d + e + f == a + Core(b, c, d + e) + f
  {
  }

  /**
   * Reading the text of an integer conversion back in its base gives the value printed, INT_MIN and
   * every flag, width and precision included; only a zero printed with precision 0 has no digits
   * to read, unless '#' makes octal print one.
   */
  lemma IntegerReadsBack(spec: Spec, bits: nat)
    requires IsInteger(spec.conv) && IsCase(spec.adj) && spec.prepend in ['\0', ' ', '+']
    ensures ReadInteger(Layout(IntegerField(spec, bits)), Base(spec.conv)) ==
            if IsBlank(spec, bits) && !(spec.conv.Octal? && spec.alt) then None else Some(IntegerValue(spec, bits))
  {
    var a, sign, k, b := IntegerParts(spec, bits);
    var digits, base := StoredDigits(spec, bits), Base(spec.conv);
    IntegerDigitsRead(spec, bits);
    PrefixFits(spec, bits);
    MagnitudeIs(spec, bits);
    assert base >= 1;
    hide StoredDigits, IntegerPrefix, IntegerValue, Magnitude, IntegerField, IsBlank, Value, Layout,
        ReadInteger, Reversed, IsDigitRun, Base;
    ReadingOrder(digits, k, base);
    if k == 0 && digits == [] {
      NothingToRead(a, sign, IntegerPrefix(spec, bits), b, base);
      assert Zeros(k) + Reversed(digits) == "";
    } else {
      CoreIs(sign, IntegerPrefix(spec, bits), Zeros(k) + Reversed(digits), base);
      ReadCore(a, sign, IntegerPrefix(spec, bits), Zeros(k) + Reversed(digits), b, base);
    }
  }

  /** "%+.0d" of zero is a sign and nothing else. */
  lemma BlankZero()
    ensures var spec := Spec(false, false, '+', false, false, 0, Literal, 0, NoLength, Signed, 0);
            && Layout(IntegerField(spec, 0)) == "+"
            && ReadInteger(Layout(IntegerField(spec, 0)), 10) == None
  {
    var spec := Spec(false, false, '+', false, false, 0, Literal, 0, NoLength, Signed, 0);
    assert Pow(2, 31) > 0 && Pow(2, 32) > 0;
    hide Pow;
    assert IsBlank(spec, 0);
    IntegerReadsBack(spec, 0);
  }

  lemma CoreIs(sign: string, prefix: string, d: string, base: nat)
    requires (sign == "" || sign == "-" || sign == "+") && d != "" && IsDigitRun(d, base) && base <= 16
    requires IsPrefix(prefix, base)
    ensures IsCore(sign, prefix, d, base)
  {
  }

  lemma PrefixFits(spec: Spec, bits: nat)
    requires IsInteger(spec.conv) && IsCase(spec.adj)
    ensures var prefix, base := IntegerPrefix(spec, bits), Base(spec.conv);
            && base <= 16
            && IsPrefix(prefix, base)
            && (IsBlank(spec, bits) ==> prefix == "")
  {
    ZeroMagnitude(spec, bits);
    hide Magnitude, IntegerValue;
  }

  lemma MagnitudeIs(spec: Spec, bits: nat)
    ensures IntegerValue(spec, bits) == if IntegerValue(spec, bits) < 0 then 0 - Magnitude(spec, bits) else Magnitude(spec, bits)
    ensures !spec.conv.Signed? ==> IntegerValue(spec, bits) >= 0
  {
    hide AsSigned;
  }

  lemma NothingToRead(a: nat, sign: string, prefix: string, b: nat, base: nat)
    requires (sign == "" || sign == "-" || sign == "+") && prefix == ""
    ensures ReadInteger(Spaces(a) + Core(sign, prefix, "") + Spaces(b), base) == None
  {
    var t := Core(sign, prefix, "");
    assert t == sign;
    if t == "" {
      assert Spaces(a) + t + Spaces(b) == Spaces(a + b) + "";
      SkipIs(a + b, "");
      assert StripSpaces("") == "";
    } else {
      assert Spaces(a) + t + Spaces(b) == Spaces(a) + (t + Spaces(b));
      SkipIs(a, t + Spaces(b));
      StripIs(b, t);
      assert SkipSign(t) == "";
    }
  }

  // ---------------------------------------------------------------------------------------------
  // Ceilings.

  lemma IntegerLength(spec: Spec, bits: nat)
    requires IsInteger(spec.conv) && IsCase(spec.adj) && bits < TWO64
    ensures |StoredDigits(spec, bits)| <= 64
  {
    IntegerValueBounds(spec, bits);
    var v := Magnitude(spec, bits);
    if spec.conv.Binary? { SixtyFourBits(v, spec.adj); } else { NumeralFits(v, Base(spec.conv), spec.adj); }
    hide Numeral, Magnitude, IntegerValue;
  }

  lemma SixtyFourBits(v: nat, adj: nat)
    requires v < TWO64 && IsCase(adj)
    ensures |Numeral(v, 2, adj)| <= 64
  {
    NumeralLength(v, 2, adj);
    WordSizes();
    hide Numeral, Pow;
    if |Numeral(v, 2, adj)| > 64 { PowMonotone(2, 2 * WORD_BITS, |Numeral(v, 2, adj)| - 1); }
  }

  lemma ScientificFits(r: Shared.Run, pe: nat, alt: bool, x: int, adj: nat, C: nat)
    requires IsCase(adj) && r.nsig <= pe + 1 <= C - 7 && -999 <= x <= 999
    ensures |ScientificText(r, pe, alt, x, adj)| <= C
  {
    ScientificIs(Arithmetic.Tenfold(r.g, pe + 1 - r.nsig), pe, pe > 0 || alt, x, adj);
    ExponentLength(x, adj);
    hide Scientific, ExponentText, Digits, High;
  }

  /** No text the float conversions leave is longer than the buffer. */
  lemma FloatFits(cfg: Config, spec: Spec, bits: nat)
    requires IsConfig(cfg) && IsFloat(spec.conv) && bits < BIN_MODULUS && IsCase(spec.adj)
    ensures |FloatText(cfg, spec, bits).0| <= cfg.C
  {
    match Decode(bits)
    case NotANumber =>
    case Infinity =>
    case Number(x) =>
      if spec.conv.FloatHex? {
        HexFloat.TextLength(x, spec.prec, spec.alt, spec.adj);
      } else {
        FiniteFits(cfg.B, cfg.C, x, FloatConversion(spec.conv), spec.prec, spec.alt, spec.adj);
      }
  }

  lemma FiniteFits(B: nat, C: nat, x: Finite, conv: Conversion, prec: nat, alt: bool, adj: nat)
    requires IsWidth(B) && IsFinite(x) && Shared.IsCapacity(C) && IsCase(adj)
    ensures var r := FiniteOutput(B, C, x, conv, prec, alt, adj); r.Printed? ==> |r.text| <= C
  {
    hide Overruns, Clobbers, Shared.FixedConversion, Shared.Significant, Fixed, ScientificText, IsFinite, Choose;
    match conv
    case FloatF =>
    case FloatE =>
      if prec + 1 <= C - 7 {
        Shared.SignificantShape(B, x, prec + 1);
        var r := Shared.Significant(B, x, prec + 1);
        ScientificFits(r, prec, alt, r.dec + r.nsig - 1, adj, C);
      }
    case FloatG =>
      var sig := Shortest.Precision(prec);
      if sig <= C - 7 {
        Shared.SignificantShape(B, x, sig);
        ChosenFits(Shared.Significant(B, x, sig), sig, alt, adj, C);
      }
  }

  lemma ChosenFits(r: Shared.Run, sig: nat, alt: bool, adj: nat, C: nat)
    requires 1 <= r.nsig <= sig <= C - 7 && -999 <= r.dec + r.nsig - 1 <= 999 && IsCase(adj)
    ensures match Choose(r, sig, !alt)
            case F(fp) => true
            case E(run, pe, e) => run.nsig <= pe + 1 && |ScientificText(run, pe, alt, e, adj)| <= C
  {
    match Choose(r, sig, !alt)
    case F(fp) =>
    case E(run, pe, e) => ScientificFits(run, pe, alt, e, adj, C);
  }

  /** Every numeric conversion: at most the larger of 65280 and the buffer, sign and prefix extra. */
  lemma NumericLength(cfg: Config, spec: Spec, args: seq<Arg>)
    requires IsConfig(cfg) && IsCase(spec.adj) && Supplies(args, Demands(spec))
    requires IsInteger(spec.conv) || IsFloat(spec.conv)
    ensures |FieldText(cfg, spec, args)| <= Max(NUM_MAX, cfg.C) + 3
  {
    OwnArgIs(spec, args);
    ResolvedKeeps(spec, args);
    var r, arg := Resolved(spec, args), OwnArg(spec, args);
    assert r.width <= NUM_MAX && r.prec <= NUM_MAX;
    if IsFloat(spec.conv) {
      FloatFieldLength(cfg, r, arg.bits);
    } else {
      IntegerFieldLength(cfg, r, arg.bits);
    }
    hide Resolved, OwnArg, Demands, Layout, FloatField, IntegerField;
  }

  lemma FloatFieldLength(cfg: Config, spec: Spec, bits: nat)
    requires IsConfig(cfg) && IsFloat(spec.conv) && bits < BIN_MODULUS && IsCase(spec.adj) && spec.width <= NUM_MAX
    ensures |Layout(FloatField(cfg, spec, bits))| <= Max(NUM_MAX, cfg.C) + 3
  {
    FloatFits(cfg, spec, bits);
    hide Decode, FloatText, Layout, Negative;
  }

  lemma IntegerFieldLength(cfg: Config, spec: Spec, bits: nat)
    requires IsInteger(spec.conv) && bits < TWO64 && IsCase(spec.adj) && spec.width <= NUM_MAX && spec.prec <= NUM_MAX
    ensures |Layout(IntegerField(spec, bits))| <= Max(NUM_MAX, cfg.C) + 3
  {
    IntegerLength(spec, bits);
    hide Layout, StoredDigits, IntegerValue, Magnitude;
  }

  /** A literal width or precision of any length takes effect up to the ceiling, and no further. */
  lemma LiteralNumbers(flags: string, w: WidthText, p: PrecisionText, l: Length, c: char, args: seq<Arg>)
    requires ConvOf(c).Some? && Supplies(args, Demands(Meaning(flags, w, p, l, c)))
    ensures var r := Resolved(Meaning(flags, w, p, l, c), args);
            && (w.DigitsWidth? ==> r.width == Min(w.n, NUM_MAX) && r.left == ('-' in flags))
            && (p.DigitsPrecision? ==> r.prec == Min(p.n, NUM_MAX))
            && (p.NegativePrecision? ==> r.precOpt == Absent)
  {
    if w.DigitsWidth? { SaturatedMeans(w.n); }
    if p.DigitsPrecision? { SaturatedMeans(p.n); }
    hide Saturated, ConvOf, AsSigned, Demands, Supplies;
  }

  /** The int a word carries. */
  function LowInt(bits: nat): int {
    var n := bits % 0x1_0000_0000;
    if n < 0x8000_0000 then n else n - 0x1_0000_0000
  }

  lemma AsInt(bits: nat)
    ensures AsSigned(bits, INT_BITS) == LowInt(bits)
  {
    WordSizes();
    assert Pow(2, 32) == 2 * Pow(2, 31);
    hide Pow;
  }

  /** A star width is the first argument, an int w: it works as min(|w|, 65280), to the left when negative. */
  lemma StarNumbers(spec: Spec, args: seq<Arg>)
    requires spec.widthStar && Supplies(args, Demands(spec))
    ensures var w, r := LowInt(args[0].bits), Resolved(spec, args);
            && r.width == Min(if w < 0 then 0 - w else w, 65280)
            && (r.left <==> spec.left || w < 0)
  {
    AsInt(args[0].bits);
    hide AsSigned, LowInt;
  }

  /** What a conversion takes for an absent precision. */
  predicate IsDefault(conv: Conv, prec: nat) {
    match conv
    case FloatDec | FloatSci | FloatShortest => prec == 6
    case FloatHex => prec == 13
    case Pointer => prec == 16
    case _ => prec == 0
  }

  /**
   * A star precision is the argument behind the star width, or the first without one; an int as
   * well. A negative one counts as absent, and absent means the default; else it is at most 65280.
   */
  lemma PrecisionNumbers(spec: Spec, args: seq<Arg>)
    requires Supplies(args, Demands(spec))
    ensures var r := Resolved(spec, args);
            var p := if spec.precOpt == Star then LowInt(args[if spec.widthStar then 1 else 0].bits) else spec.prec;
            if spec.precOpt == Absent || p < 0 then r.precOpt == Absent && IsDefault(spec.conv, r.prec)
            else r.precOpt == spec.precOpt && r.prec == Min(p, 65280)
  {
    if spec.precOpt == Star { AsInt(args[if spec.widthStar then 1 else 0].bits); }
    hide AsSigned, LowInt;
  }

  /** The stars take one argument each, in front of the conversion's own, of which there is one but for '%'. */
  lemma ArgumentOrder(spec: Spec, args: seq<Arg>)
    requires Supplies(args, Demands(spec))
    ensures var stars := (if spec.widthStar then 1 else 0) + (if spec.precOpt == Star then 1 else 0);
            && |Demands(spec)| == stars + (if spec.conv.Percent? then 0 else 1)
            && (!spec.conv.Percent? ==> OwnArg(spec, args) == args[stars])
  {
  }

  predicate DropsZeroFlag(conv: Conv) { conv.Signed? || conv.Octal? || conv.Hex? || conv.Unsigned? }

  /** The rest of a specification is what was written, but for '0' when d, i, o, u, x or X has a precision. */
  lemma ResolvedRest(spec: Spec, args: seq<Arg>)
    requires Supplies(args, Demands(spec))
    ensures var r := Resolved(spec, args);
            && r.conv == spec.conv && r.length == spec.length && r.adj == spec.adj
            && r.alt == spec.alt && r.prepend == spec.prepend
            && (!spec.widthStar ==> r.left == spec.left && r.width == Min(spec.width, 65280))
            && r.zeroPad == (spec.zeroPad && !(r.precOpt != Absent && DropsZeroFlag(spec.conv)))
  {
    hide AsSigned;
  }
}
