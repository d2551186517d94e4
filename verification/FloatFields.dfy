/** Whole float fields, as a caller finds them in the output: they read back as what was converted. */
module FloatFields {
  import opened Arithmetic
  import opened Rounding
  import opened Numerals
  import opened DecimalText
  import opened Doubles
  import opened FormatSpec
  import opened SharedConversion
  import opened Fields
  import opened FieldFacts
  import opened FloatPaths
  import HexFloat

  /** A decimal: digits * 10^(exponent - places), with its sign. */
  datatype DecimalReading = DecimalReading(negative: bool, digits: nat, places: nat, exponent: int)

  function Trimmed(s: string): string { StripSpaces(SkipSpaces(s)) }

  predicate IsNegative(t: string) { t != "" && t[0] == '-' }

  /** A reversed decimal starts with the digits of an exponent, its sign and its letter. */
  predicate HasExponent(u: string) {
    var k := HexFloat.DigitCount(u);
    0 < k && k + 1 < |u| && u[k] in "+-" && u[k + 1] in "eE"
  }

  function ReadMantissa(negative: bool, body: string, exponent: int): Option<DecimalReading> {
    var (d, places) := HexFloat.SplitAtPoint(body);
    if d == [] || !IsDigitRun(d, 10) then None
    else Some(DecimalReading(negative, Value(d, 10), if '.' in body then places else 0, exponent))
  }

  /** A decimal in style f or e: blanks around it, a sign, digits with or without a point, an exponent. */
  function ReadDecimal(s: string): Option<DecimalReading> {
    var t := Trimmed(s);
    var u := Reversed(SkipSign(t));
    var k := HexFloat.DigitCount(u);
    if HasExponent(u) then
      var e := Value(u[..k], 10);
      ReadMantissa(IsNegative(t), u[k + 2..], if u[k] == '-' then 0 - e else e)
    else ReadMantissa(IsNegative(t), u, 0)
  }

  /** A hexadecimal float with its sign in front of the prefix. */
  function ReadHex(s: string): (bool, HexFloat.Reading) {
    var t := Trimmed(s);
    (IsNegative(t), HexFloat.Read(Reversed(SkipPrefix(SkipSign(t), 16))))
  }

  // ---------------------------------------------------------------------------------------------
  // Taking a field apart.

  predicate IsSign(s: string) { s == "" || s == "-" || s == "+" || s == " " }

  /** Blanks, sign and prefix off, what remains is zeros and the payload. */
  lemma FieldParts(f: Field) returns (k: nat)
    requires IsSign(f.sign) && f.payload != ""
    requires f.payload[0] !in " +-" && f.payload[|f.payload| - 1] != ' '
    requires f.prefix == "" || (f.prefix[0] == '0')
    ensures Trimmed(Layout(f)) == SkipBlank(f.sign) + (f.prefix + (Zeros(k) + f.payload))
    ensures IsNegative(Trimmed(Layout(f))) <==> f.sign == "-"
    ensures SkipSign(Trimmed(Layout(f))) == f.prefix + (Zeros(k) + f.payload)
  {
    var before, b;
    before, k, b := LayoutShape(f);
    var u, sign := f.prefix + (Zeros(k) + f.payload), SkipBlank(f.sign);
    BodyEdges(f.prefix, k, f.payload);
    SignEdge(sign, u);
    assert sign == "-" <==> f.sign == "-";
    hide *;
    var a := BlankSign(before, f.sign);
    Regroup(Spaces(before), f.sign, f.prefix, Zeros(k), f.payload, Spaces(b));
    Rejoin(Spaces(a), sign, u, Spaces(b));
    TrimmedIs(a, sign + u, b);
    NegativeIs(sign + u);
  }

  lemma NegativeIs(t: string)
    ensures IsNegative(t) <==> t != "" && t[0] == '-'
  {
  }

  /** A blank for a sign joins the padding before it. */
  lemma BlankSign(before: nat, sign: string) returns (a: nat)
    ensures Spaces(before) + sign == Spaces(a) + SkipBlank(sign)
  {
    a := if sign == " " then before + 1 else before;
    if sign == " " { assert Spaces(before) + " " == Spaces(before + 1); }
  }

  lemma TrimmedIs(a: nat, t: string, b: nat)
    requires t != "" && t[0] != ' ' && t[|t| - 1] != ' '
    ensures Trimmed(Spaces(a) + (t + Spaces(b))) == t
  {
    hide SkipSpaces, StripSpaces;
    SkipIs(a, t + Spaces(b));
    StripIs(b, t);
  }

  lemma Rejoin(a: string, s: string, u: string, b: string)
    ensures (a + s) + u + b == a + ((s + u) + b)
  {
  }

  /** A blank for a sign is a blank. */
  function SkipBlank(sign: string): string { if sign == " " then "" else sign }

  lemma BodyEdges(prefix: string, k: nat, payload: string)
    requires payload != "" && payload[0] !in " +-" && payload[|payload| - 1] != ' '
    requires prefix == "" || prefix[0] == '0'
    ensures var u := prefix + (Zeros(k) + payload); u != "" && u[0] !in " +-" && u[|u| - 1] != ' '
  {
    var u := prefix + (Zeros(k) + payload);
    assert u[|u| - 1] == payload[|payload| - 1];
    if prefix == "" { assert u[0] == (Zeros(k) + payload)[0]; }
  }

  lemma ReversedZeros(k: nat, t: seq<char>)
    ensures Reversed(Zeros(k) + Reversed(t)) == t + Zeros(k)
  {
  }

  // ---------------------------------------------------------------------------------------------
  // Values of longer runs.

  lemma {:induction false} ValueAppend(s: seq<char>, t: seq<char>, base: nat)
    ensures Value(s + t, base) == Value(s, base) + Pow(base, |s|) * Value(t, base)
  {
    if s == [] {
      assert s + t == t;
      assert Pow(base, 0) == 1;
    } else {
      ValueAppend(s[1..], t, base);
      assert (s + t)[1..] == s[1..] + t && (s + t)[0] == s[0];
      var d, p, v, w := DigitValue(s[0]), Pow(base, |s| - 1), Value(s[1..], base), Value(t, base);
      assert Pow(base, |s|) == base * p && Value(s, base) == d + base * v;
      assert Value(s + t, base) == d + base * Value(s[1..] + t, base);
      hide *;
      AppendStep(d, base, v, p, w);
    }
  }

  lemma AppendStep(d: nat, base: nat, v: nat, p: nat, w: nat)
    ensures d + base * (v + p * w) == (d + base * v) + (base * p) * w
  {
    assert base * (v + p * w) == base * v + base * (p * w);
    MulAssoc(base, p, w);
  }

  lemma RunAppend(s: seq<char>, t: seq<char>, base: nat)
    requires IsDigitRun(s, base) && IsDigitRun(t, base)
    ensures IsDigitRun(s + t, base)
  {
  }

  lemma {:induction false} DigitsRun(n: nat, k: nat, base: nat, adj: nat)
    requires IsBase(base) && IsCase(adj)
    ensures IsDigitRun(Digits(n, k, base, adj), base)
    decreases k
  {
    if k > 0 {
      DigitsRun(n / base, k - 1, base, adj);
      DigitCharValue(n % base, adj);
      var s, rest := Digits(n, k, base, adj), Digits(n / base, k - 1, base, adj);
      assert s == [DigitChar(n % base, adj)] + rest;
      assert forall i :: 0 < i < k ==> s[i] == rest[i - 1];
    }
  }

  /** The digits of a style f text, the point taken out. */
  lemma FixedDigits(n: nat, prec: nat, k: nat)
    ensures var d := Dec(n, prec) + (DecNumeral(High(n, prec)) + Zeros(k));
            IsDigitRun(d, 10) && Value(d, 10) == n
  {
    var p, h := Pow(10, prec), High(n, prec);
    assert h == n / p;
    hide *;
    var low, high := Dec(n, prec), DecNumeral(h);
    DigitsRun(n, prec, 10, 0);
    NumeralValue(h, 10, 0);
    DigitsValue(n, prec, 10, 0);
    DivModEquation(n, p);
    RunsAppend(low, high, k, h);
    assert p * h == h * p;
  }

  lemma RunsAppend(low: seq<char>, high: seq<char>, k: nat, h: nat)
    requires IsDigitRun(low, 10) && IsDigitRun(high, 10) && Value(high, 10) == h
    ensures var d := low + (high + Zeros(k)); IsDigitRun(d, 10) && Value(d, 10) == Value(low, 10) + Pow(10, |low|) * h
  {
    hide *;
    ZerosRun(k);
    RunAppend(high, Zeros(k), 10);
    RunAppend(low, high + Zeros(k), 10);
    ZerosOnTop(high, k, 10);
    ValueAppend(low, high + Zeros(k), 10);
  }

  lemma ZerosRun(k: nat)
    ensures IsDigitRun(Zeros(k), 10)
  {
  }

  lemma {:induction false} DecHasNoPoint(n: nat, k: nat)
    ensures '.' !in Dec(n, k)
  {
    DigitsAreText(n, k);
  }

  // ---------------------------------------------------------------------------------------------
  // Style f.

  lemma FixedSplits(n: nat, prec: nat, point: bool, k: nat)
    requires prec > 0 ==> point
    ensures var body := Fixed(n, prec, point) + Zeros(k);
            && HexFloat.SplitAtPoint(body).0 == Dec(n, prec) + (DecNumeral(High(n, prec)) + Zeros(k))
            && (if '.' in body then HexFloat.SplitAtPoint(body).1 else 0) == prec
  {
    var low, high := Dec(n, prec), DecNumeral(High(n, prec)) + Zeros(k);
    DecHasNoPoint(n, prec);
    NumeralIsText(High(n, prec));
    var body := Fixed(n, prec, point) + Zeros(k);
    hide Digits, Numeral, High;
    assert '.' !in high;
    assert body == low + (if point then ['.'] else []) + high;
    HexFloat.SplitIs(low, high, point);
    if point { assert body[prec] == '.'; }
  }

  lemma FixedEdges(n: nat, prec: nat, point: bool)
    ensures var t := Reversed(Fixed(n, prec, point)); t != "" && t[0] !in " +-" && t[|t| - 1] != ' '
  {
    var s := Fixed(n, prec, point);
    DigitsAreText(n, prec);
    NumeralIsText(High(n, prec));
    hide Digits, Numeral, High;
    assert s[|s| - 1] == DecNumeral(High(n, prec))[|DecNumeral(High(n, prec))| - 1];
    if prec > 0 { assert s[0] == Dec(n, prec)[0]; }
  }

  /** A field around a style f text, padded in any way, reads back as its sign, number and places. */
  lemma FixedReadsBack(f: Field, n: nat, prec: nat, point: bool)
    requires IsSign(f.sign) && f.prefix == "" && f.payload == Reversed(Fixed(n, prec, point)) && (prec > 0 ==> point)
    ensures ReadDecimal(Layout(f)) == Some(DecimalReading(f.sign == "-", n, prec, 0))
  {
    FixedEdges(n, prec, point);
    hide Fixed, Layout, SkipSign, SkipSpaces, StripSpaces, Digits, Numeral, High, Value, IsDigitRun;
    var k := FieldParts(f);
    assert f.prefix + (Zeros(k) + f.payload) == Zeros(k) + f.payload;
    ReversedZeros(k, Fixed(n, prec, point));
    FixedSplits(n, prec, point, k);
    FixedDigits(n, prec, k);
    FixedHasNoExponent(n, prec, point, k);
  }

  /** And it shows a point exactly when the text has one. */
  lemma PointShows(f: Field, n: nat, prec: nat, point: bool)
    requires IsSign(f.sign) && f.prefix == "" && f.payload == Reversed(Fixed(n, prec, point)) && (prec > 0 ==> point)
    ensures '.' in Layout(f) <==> point
  {
    var t := Fixed(n, prec, point);
    DecHasNoPoint(n, prec);
    NumeralIsText(High(n, prec));
    var a, k, b := LayoutShape(f);
    hide Layout, Digits, Numeral, High;
    var low, high := Dec(n, prec), DecNumeral(High(n, prec));
    assert t == low + (if point then ['.'] else []) + high;
    assert '.' in t <==> point by { if point { assert t[prec] == '.'; } }
    assert '.' in f.payload <==> point by {
      if point { assert f.payload[|t| - 1 - prec] == '.'; }
    }
  }

  lemma FixedHasNoExponent(n: nat, prec: nat, point: bool, k: nat)
    ensures !HasExponent(Fixed(n, prec, point) + Zeros(k))
  {
    var s := Fixed(n, prec, point) + Zeros(k);
    DigitsAreText(n, prec);
    NumeralIsText(High(n, prec));
    var low, high := Dec(n, prec), DecNumeral(High(n, prec));
    hide Digits, Numeral, High, HexFloat.DigitCount;
    forall i | 0 <= i < |s| ensures s[i] !in "eE" {
      assert s == low + ((if point then ['.'] else []) + high + Zeros(k));
      if i < prec { assert s[i] == low[i]; }
    }
  }

  lemma SignIsSign(negative: bool, prepend: char)
    requires prepend in ['\0', ' ', '+']
    ensures IsSign(SignText(negative, prepend)) && (SignText(negative, prepend) == "-" <==> negative)
  {
  }

  /**
   * %f, argument to output: for a double in the exact domain whose text fits, the field reads back
   * as the sign of the double and the correctly rounded decimal, whatever flags and width.
   */
  lemma FloatReadsBack(cfg: Config, spec: Spec, bits: nat, x: Finite)
    requires IsConfig(cfg) && spec.conv.FloatDec? && bits < BIN_MODULUS && IsCase(spec.adj)
    requires spec.prepend in ['\0', ' ', '+']
    requires Decode(bits) == Number(x) && InExactDomain(cfg.B, x)
    requires |RightFixed(x, spec.prec, spec.alt)| <= cfg.C && !FillsBuffer(cfg.C, x, spec.prec, spec.alt)
    ensures ReadDecimal(Layout(FloatField(cfg, spec, bits))) ==
            Some(DecimalReading(Negative(bits), RoundAt(Num(x), Den(x), spec.prec), spec.prec, 0))
  {
    FixedOutputRight(cfg.B, cfg.C, x, spec.prec, spec.alt);
    SignIsSign(Negative(bits), spec.prepend);
    FloatTextIs(cfg, spec, bits, x);
    hide *;
    FixedReadsBack(FloatField(cfg, spec, bits), RoundAt(Num(x), Den(x), spec.prec), spec.prec,
        spec.prec > 0 || spec.alt);
  }

  /** And it shows a point exactly for places behind it, or with '#'. */
  lemma FloatShowsPoint(cfg: Config, spec: Spec, bits: nat, x: Finite)
    requires IsConfig(cfg) && spec.conv.FloatDec? && bits < BIN_MODULUS && IsCase(spec.adj)
    requires spec.prepend in ['\0', ' ', '+']
    requires Decode(bits) == Number(x) && InExactDomain(cfg.B, x)
    requires |RightFixed(x, spec.prec, spec.alt)| <= cfg.C && !FillsBuffer(cfg.C, x, spec.prec, spec.alt)
    ensures '.' in Layout(FloatField(cfg, spec, bits)) <==> spec.prec > 0 || spec.alt
  {
    FixedOutputRight(cfg.B, cfg.C, x, spec.prec, spec.alt);
    SignIsSign(Negative(bits), spec.prepend);
    FloatTextIs(cfg, spec, bits, x);
    hide *;
    PointShows(FloatField(cfg, spec, bits), RoundAt(Num(x), Den(x), spec.prec), spec.prec, spec.prec > 0 || spec.alt);
  }

  lemma FloatTextIs(cfg: Config, spec: Spec, bits: nat, x: Finite)
    requires IsConfig(cfg) && spec.conv.FloatDec? && bits < BIN_MODULUS && IsCase(spec.adj) && Decode(bits) == Number(x)
    requires FixedOutput(cfg.B, cfg.C, x, spec.prec, spec.alt) == Printed(RightFixed(x, spec.prec, spec.alt))
    ensures var f := FloatField(cfg, spec, bits);
            && f.sign == SignText(Negative(bits), spec.prepend) && f.prefix == ""
            && f.payload == Reversed(Fixed(RoundAt(Num(x), Den(x), spec.prec), spec.prec, spec.prec > 0 || spec.alt))
  {
    hide Decode, Negative, FixedOutput, Fixed, RoundAt, Num, Den;
  }

  // ---------------------------------------------------------------------------------------------
  // Style a.

  lemma HexEdges(x: Finite, prec: nat, alt: bool, adj: nat)
    requires IsFinite(x) && IsCase(adj)
    ensures var t := Reversed(HexFloat.Text(x, prec, alt, adj));
            t != "" && t[0] !in " +-" && t[|t| - 1] != ' '
  {
    var s, p := HexFloat.Text(x, prec, alt, adj), Min(prec, HexFloat.FRACTION_NIBBLES);
    var e := HexFloat.Exponent(x);
    var a := if e < 0 then -e else e;
    NumeralIsText(a);
    var m := HexFloat.Mantissa(x, p);
    hide Numeral, Digits, HexFloat.Mantissa, Pow;
    assert s[0] == DecNumeral(a)[0];
    assert s[|s| - 1] == DigitChar(m / Pow(16, p) % 16, adj);
    DigitIsNoMark(m / Pow(16, p) % 16, adj);
  }

  lemma DigitIsNoMark(d: nat, adj: nat)
    requires d < 16 && IsCase(adj)
    ensures DigitChar(d, adj) !in " +-"
  {
  }

  /** %a, argument to output, the zeros a '0' flag puts behind the prefix included. */
  lemma HexReadsBack(cfg: Config, spec: Spec, bits: nat, x: Finite)
    requires IsConfig(cfg) && spec.conv.FloatHex? && bits < BIN_MODULUS && IsCase(spec.adj)
    requires spec.prepend in ['\0', ' ', '+']
    requires Decode(bits) == Number(x)
    ensures var p := Min(spec.prec, HexFloat.FRACTION_NIBBLES);
            ReadHex(Layout(FloatField(cfg, spec, bits))) ==
            (Negative(bits), HexFloat.Reading(HexFloat.Mantissa(x, p), p, if x.bin == 0 then 0 else x.exp))
  {
    var f := FloatField(cfg, spec, bits);
    SignIsSign(Negative(bits), spec.prepend);
    HexEdges(x, spec.prec, spec.alt, spec.adj);
    HexFieldIs(cfg, spec, bits, x);
    hide *;
    var k := FieldParts(f);
    PrefixGoes(f.prefix, Zeros(k) + f.payload);
    ReversedZeros(k, HexFloat.Text(x, spec.prec, spec.alt, spec.adj));
    ReadHexIs(Layout(f), f.prefix + (Zeros(k) + f.payload));
    HexWithZeros(x, spec.prec, spec.alt, spec.adj, k);
  }

  lemma ReadHexIs(s: string, u: string)
    requires SkipSign(Trimmed(s)) == u
    ensures ReadHex(s) == (IsNegative(Trimmed(s)), HexFloat.Read(Reversed(SkipPrefix(u, 16))))
  {
  }

  lemma HexFieldIs(cfg: Config, spec: Spec, bits: nat, x: Finite)
    requires IsConfig(cfg) && spec.conv.FloatHex? && bits < BIN_MODULUS && IsCase(spec.adj) && Decode(bits) == Number(x)
    ensures var f := FloatField(cfg, spec, bits);
            && f.sign == SignText(Negative(bits), spec.prepend)
            && (f.prefix == "0x" || f.prefix == "0X") && f.prefix[0] == '0'
            && f.payload == Reversed(HexFloat.Text(x, spec.prec, spec.alt, spec.adj))
  {
    hide Decode, Negative, HexFloat.Text;
  }

  lemma PrefixGoes(prefix: string, d: string)
    requires prefix == "0x" || prefix == "0X"
    ensures SkipPrefix(prefix + d, 16) == d
  {
    assert (prefix + d)[2..] == d;
  }

  /** Zeros above the leading digit change neither the mantissa nor the places. */
  lemma HexWithZeros(x: Finite, prec: nat, alt: bool, adj: nat, k: nat)
    requires IsFinite(x) && IsCase(adj)
    ensures var p := Min(prec, HexFloat.FRACTION_NIBBLES);
            HexFloat.Read(HexFloat.Text(x, prec, alt, adj) + Zeros(k)) ==
            HexFloat.Reading(HexFloat.Mantissa(x, p), p, HexFloat.Exponent(x))
  {
    var p := Min(prec, HexFloat.FRACTION_NIBBLES);
    var m, e, point := HexFloat.Mantissa(x, p), HexFloat.Exponent(x), p > 0 || alt;
    HexFloat.MantissaFits(x, p);
    assert Pow(16, p + 1) == 16 * Pow(16, p) && m < Pow(16, p + 1);
    assert HexFloat.Text(x, prec, alt, adj) == HexFloat.ExponentText(e, adj) + HexFloat.MantissaText(m, p, point, adj);
    hide *;
    PaddedReads(m, p, point, e, adj, k);
  }

  lemma PaddedReads(m: nat, p: nat, point: bool, e: int, adj: nat, k: nat)
    requires IsCase(adj) && m < Pow(16, p + 1) && (p > 0 ==> point)
    ensures HexFloat.Read(HexFloat.ExponentText(e, adj) + HexFloat.MantissaText(m, p, point, adj) + Zeros(k)) ==
            HexFloat.Reading(m, p, e)
  {
    var a := if e < 0 then -e else e;
    var body := HexFloat.MantissaText(m, p, point, adj);
    var letter, sign := ('P' as int + adj) as char, if e < 0 then '-' else '+';
    NumeralIsText(a);
    NumeralValue(a, 10, 0);
    PaddedMantissa(m, p, point, adj, k);
    assert HexFloat.ExponentText(e, adj) + body + Zeros(k) == DecNumeral(a) + [sign, letter] + (body + Zeros(k));
    hide Numeral, Pow, Value, HexFloat.MantissaText, HexFloat.ExponentText, HexFloat.Read,
        HexFloat.SplitAtPoint, IsDigitRun;
    HexFloat.ReadIs(DecNumeral(a), sign, letter, body + Zeros(k));
  }

  lemma PaddedMantissa(m: nat, p: nat, point: bool, adj: nat, k: nat)
    requires IsCase(adj) && m < Pow(16, p + 1) && (p > 0 ==> point)
    ensures var body := HexFloat.MantissaText(m, p, point, adj) + Zeros(k);
            && body != []
            && Value(HexFloat.SplitAtPoint(body).0, 16) == m
            && (if '.' in body then HexFloat.SplitAtPoint(body).1 else 0) == p
  {
    var low, top := Digits(m, p, 16, adj), [DigitChar(m / Pow(16, p) % 16, adj)];
    HexFloat.NoPointInDigits(m, p, adj);
    HexFloat.DigitsGrow(m, p, adj);
    HexFloat.MantissaReads(m, p, point, adj);
    DigitIsNoMark(m / Pow(16, p) % 16, adj);
    var text := HexFloat.MantissaText(m, p, point, adj);
    assert text == low + (if point then ['.'] else []) + top;
    hide Digits, Value, Pow, HexFloat.MantissaText, HexFloat.SplitAtPoint;
    assert text + Zeros(k) == low + (if point then ['.'] else []) + (top + Zeros(k));
    HexFloat.SplitIs(low, top + Zeros(k), point);
    assert low + (top + Zeros(k)) == (low + top) + Zeros(k);
    ZerosOnTop(low + top, k, 16);
    if point { assert (text + Zeros(k))[p] == '.'; }
  }
}
