/**
 * npf_fmt_num and npf_parse_format_spec_end: a scanner over a NUL-terminated string. Configuration:
 * every conversion but %n, large and small length modifiers, no 'w' modifiers, 32-bit int.
 */
module FormatSpec {
  import opened Arithmetic
  import opened Numerals

  const INT_MAX: nat := 0x7FFF_FFFF
  const NUM_BIG: nat := 0x800_0000     // 2^27
  const NUM_MAX: nat := 65280

  datatype Option<T> = None | Some(value: T)

  /** The conversions, in the order the header's range tests rely on. */
  datatype Conv =
    | Percent | Character | Text
    | Signed | Binary | Octal | Hex | Unsigned | Pointer
    | FloatDec | FloatHex | FloatSci | FloatShortest

  datatype Length = NoLength | CharLength | Short | Long | LongLong | LongDouble | IntMax | SizeT | PtrDiff

  datatype Opt = Absent | Literal | Star

  datatype Spec = Spec(
    left: bool, zeroPad: bool, prepend: char, alt: bool,
    widthStar: bool, width: nat,
    precOpt: Opt, prec: nat,
    length: Length, conv: Conv, adj: nat)

  datatype Parsed = Parsed(spec: Spec, end: nat) | Malformed

  /** A C string has its terminator behind it and nowhere else; nothing beyond that may be read. */
  predicate IsCString(s: string) { '\0' !in s }

  function At(s: string, i: nat): char
    requires i <= |s|
  {
    if i < |s| then s[i] else '\0'
  }

  // ---------------------------------------------------------------------------------------------
  // Flags: what matters is which ones occur, not their order or repetition.

  predicate IsFlag(c: char) { c in "-0+ #" }

  function FlagsEnd(s: string, i: nat): (e: nat)
    requires i <= |s|
    ensures i <= e <= |s|
    decreases |s| - i
  {
    if i < |s| && IsFlag(s[i]) then FlagsEnd(s, i + 1) else i
  }

  datatype Flags = Flags(left: bool, zeroPad: bool, prepend: char, alt: bool)

  /** A plus sign beats a space in either order. */
  function FlagsOf(run: string): Flags {
    Flags('-' in run, '0' in run, if '+' in run then '+' else if ' ' in run then ' ' else '\0', '#' in run)
  }

  method ScanFlags(s: string, at: nat) returns (cur: nat, f: Flags)
    requires IsCString(s) && at < |s|
    ensures cur == FlagsEnd(s, at + 1) && f == FlagsOf(s[at + 1..cur])
  {
    f := Flags(false, false, '\0', false);
    cur := at + 1;
    var more := true;
    while more
      invariant at + 1 <= cur <= |s| && f == FlagsOf(s[at + 1..cur])
      invariant if more then FlagsEnd(s, cur) == FlagsEnd(s, at + 1) else cur == FlagsEnd(s, at + 1)
      decreases more, |s| - cur
    {
      var c := At(s, cur);
      if c == '-' {
        f := f.(left := true);
      } else if c == '0' {
        f := f.(zeroPad := true);
      } else if c == '+' || c == ' ' {
        if f.prepend != '+' { f := f.(prepend := c); }
      } else if c == '#' {
        f := f.(alt := true);
      } else {
        more := false;
      }
      if more {
        assert s[at + 1..cur + 1] == s[at + 1..cur] + [c];
        cur := cur + 1;
      }
    }
  }

  // ---------------------------------------------------------------------------------------------
  // Numbers.

  predicate IsDigit(c: char) { '0' <= c <= '9' }

  function DigitsEnd(s: string, i: nat): (e: nat)
    requires i <= |s|
    ensures i <= e <= |s|
    ensures forall k :: i <= k < e ==> IsDigit(s[k])
    decreases |s| - i
  {
    if i < |s| && IsDigit(s[i]) then DigitsEnd(s, i + 1) else i
  }

  predicate IsDigits(ds: string) { forall i :: 0 <= i < |ds| ==> IsDigit(ds[i]) }

  /** The number a run of digits denotes, most significant digit first. */
  function Decimal(ds: string): nat
    requires IsDigits(ds)
  {
    if ds == [] then 0 else 10 * Decimal(ds[..|ds| - 1]) + (ds[|ds| - 1] as int - '0' as int)
  }

  /** The accumulator, which stops growing once another digit could carry it out of int. */
  function Accumulated(ds: string): (n: nat)
    requires IsDigits(ds)
    ensures n <= INT_MAX
  {
    if ds == [] then 0
    else
      var n := Accumulated(ds[..|ds| - 1]);
      if n >= NUM_BIG then n else 10 * n + (ds[|ds| - 1] as int - '0' as int)
  }

  /** A run of any length: exact below 2^27, and at least 2^27 otherwise. */
  lemma {:induction false} AccumulatedSaturates(ds: string)
    requires IsDigits(ds)
    ensures Decimal(ds) < NUM_BIG ==> Accumulated(ds) == Decimal(ds)
    ensures Decimal(ds) >= NUM_BIG ==> Accumulated(ds) >= NUM_BIG
    ensures Min(Accumulated(ds), NUM_MAX) == Min(Decimal(ds), NUM_MAX)
  {
    if ds != [] { AccumulatedSaturates(ds[..|ds| - 1]); }
  }

  /** Every intermediate value of the accumulator is an int. */
  method FmtNum(s: string, at: nat) returns (cur: nat, n: nat)
    requires IsCString(s) && at <= |s|
    ensures cur == DigitsEnd(s, at) && n == Accumulated(s[at..cur])
  {
    n, cur := 0, at;
    while IsDigit(At(s, cur))
      invariant at <= cur <= |s| && DigitsEnd(s, cur) == DigitsEnd(s, at)
      invariant IsDigits(s[at..cur]) && n == Accumulated(s[at..cur]) <= INT_MAX
      decreases |s| - cur
    {
      assert s[at..cur + 1] == s[at..cur] + [s[cur]];
      assert s[at..cur + 1][..cur - at] == s[at..cur];
      if n / NUM_BIG == 0 {
        n := n * 10 + (At(s, cur) as int - '0' as int);
      }
      cur := cur + 1;
    }
  }

  // ---------------------------------------------------------------------------------------------
  // Width, precision, length modifier and conversion character.

  datatype Width = Width(star: bool, value: nat, end: nat)

  function WidthAt(s: string, i: nat): (w: Width)
    requires IsCString(s) && i <= |s|
    ensures i <= w.end <= |s|
  {
    if At(s, i) == '*' then Width(true, 0, i + 1)
    else Width(false, Accumulated(s[i..DigitsEnd(s, i)]), DigitsEnd(s, i))
  }

  datatype Precision = Precision(opt: Opt, value: nat, end: nat)

  /** A negative literal precision is read, but counts as absent. */
  function PrecisionAt(s: string, i: nat): (p: Precision)
    requires IsCString(s) && i <= |s|
    ensures i <= p.end <= |s|
  {
    if At(s, i) != '.' then Precision(Absent, 0, i)
    else if At(s, i + 1) == '*' then Precision(Star, 0, i + 2)
    else if At(s, i + 1) == '-' then Precision(Absent, Accumulated(s[i + 2..DigitsEnd(s, i + 2)]), DigitsEnd(s, i + 2))
    else Precision(Literal, Accumulated(s[i + 1..DigitsEnd(s, i + 1)]), DigitsEnd(s, i + 1))
  }

  function LengthAt(s: string, i: nat): (r: (Length, nat))
    requires IsCString(s) && i <= |s|
    ensures i <= r.1 <= |s|
  {
    var c := At(s, i);
    if c == 'h' then (if At(s, i + 1) == 'h' then (CharLength, i + 2) else (Short, i + 1))
    else if c == 'l' then (if At(s, i + 1) == 'l' then (LongLong, i + 2) else (Long, i + 1))
    else if c == 'L' then (LongDouble, i + 1)
    else if c == 'j' then (IntMax, i + 1)
    else if c == 'z' then (SizeT, i + 1)
    else if c == 't' then (PtrDiff, i + 1)
    else (NoLength, i)
  }

  /** The table from 'a' to 'x'. */
  const LOOKUP: seq<Option<Conv>> := [
    Some(FloatHex), Some(Binary), Some(Character), Some(Signed), Some(FloatSci), Some(FloatDec), Some(FloatShortest),
    None, Some(Signed), None, None, None, None, None, Some(Octal), Some(Pointer), None, None,
    Some(Text), None, Some(Unsigned), None, None, Some(Hex)]

  /** Bit 5 tells the letter cases apart. */
  function CaseBit(c: char): nat { c as int / 32 % 2 * 32 }

  function ConvOf(c: char): Option<Conv> {
    if c == '%' then Some(Percent)
    else
      var idx := c as int + (32 - CaseBit(c)) - 'a' as int;
      if idx < 0 || idx >= |LOOKUP| then None else LOOKUP[idx]
  }

  /**
   * The specification that starts with the '%' at s[i]. Success consumes that and a conversion
   * character at least, and never the terminator.
   */
  function Parse(s: string, i: nat): (r: Parsed)
    requires IsCString(s) && i < |s|
    ensures r.Parsed? ==> i + 2 <= r.end <= |s| && IsCase(r.spec.adj)
    ensures r.Parsed? ==> r.spec.width <= INT_MAX && r.spec.prec <= INT_MAX
  {
    var a := FlagsEnd(s, i + 1);
    var f := FlagsOf(s[i + 1..a]);
    var w := WidthAt(s, a);
    var p := PrecisionAt(s, w.end);
    var (length, d) := LengthAt(s, p.end);
    match ConvOf(At(s, d))
    case None => Malformed
    case Some(conv) =>
      Parsed(Spec(f.left, f.zeroPad, f.prepend, f.alt, w.star, w.value, p.opt, p.value, length, conv,
          CaseBit(At(s, d))), d + 1)
  }

  method ScanWidth(s: string, at: nat) returns (w: Width)
    requires IsCString(s) && at <= |s|
    ensures w == WidthAt(s, at)
  {
    if At(s, at) == '*' {
      w := Width(true, 0, at + 1);
    } else {
      var cur, n := FmtNum(s, at);
      w := Width(false, n, cur);
    }
  }

  method ScanPrecision(s: string, at: nat) returns (p: Precision)
    requires IsCString(s) && at <= |s|
    ensures p == PrecisionAt(s, at)
  {
    p := Precision(Absent, 0, at);
    if At(s, at) == '.' {
      var cur := at + 1;
      if At(s, cur) == '*' {
        p := Precision(Star, 0, cur + 1);
      } else {
        var opt := Absent;
        if At(s, cur) == '-' { cur := cur + 1; } else { opt := Literal; }
        var n;
        cur, n := FmtNum(s, cur);
        p := Precision(opt, n, cur);
      }
    }
  }

  method ScanLength(s: string, at: nat) returns (length: Length, cur: nat)
    requires IsCString(s) && at <= |s|
    ensures (length, cur) == LengthAt(s, at)
  {
    length, cur := NoLength, at + 1;
    match At(s, at) {
      case 'h' =>
        length := Short;
        if At(s, cur) == 'h' { length, cur := CharLength, cur + 1; }
      case 'l' =>
        length := Long;
        if At(s, cur) == 'l' { length, cur := LongLong, cur + 1; }
      case 'L' => length := LongDouble;
      case 'j' => length := IntMax;
      case 'z' => length := SizeT;
      case 't' => length := PtrDiff;
      case _ => cur := at;
    }
  }

  method ParseFormatSpecEnd(s: string, at: nat) returns (r: Parsed)
    requires IsCString(s) && at < |s|
    ensures r == Parse(s, at)
  {
    hide FlagsEnd, FlagsOf, WidthAt, PrecisionAt, LengthAt, ConvOf;
    var cur, f := ScanFlags(s, at);
    var w := ScanWidth(s, cur);
    var p := ScanPrecision(s, w.end);
    var length;
    length, cur := ScanLength(s, p.end);
    var c := At(s, cur);
    match ConvOf(c)
    case None =>
      r := Malformed;
    case Some(conv) =>
      r := Parsed(Spec(f.left, f.zeroPad, f.prepend, f.alt, w.star, w.value, p.opt, p.value, length, conv,
          CaseBit(c)), cur + 1);
  }

  // ---------------------------------------------------------------------------------------------
  // Printing a specification, and reading it back.

  datatype WidthText = NoWidth | StarWidth | DigitsWidth(n: nat)

  datatype PrecisionText = NoPrecision | StarPrecision | BarePoint | DigitsPrecision(n: nat) | NegativePrecision(n: nat)

  /** A decimal numeral in reading order. */
  function Written(n: nat): (s: string)
    ensures |s| >= 1
  {
    if n < 10 then [('0' as int + n) as char] else Written(n / 10) + [('0' as int + n % 10) as char]
  }

  lemma {:induction false} WrittenReads(n: nat)
    ensures IsDigits(Written(n)) && Decimal(Written(n)) == n
    ensures n > 0 ==> Written(n)[0] != '0'
  {
    var s := Written(n);
    if n < 10 {
      assert s[..0] == [];
    } else {
      WrittenReads(n / 10);
      assert s[..|s| - 1] == Written(n / 10) && s[0] == Written(n / 10)[0];
    }
  }

  function PrintWidth(w: WidthText): string {
    match w
    case NoWidth => ""
    case StarWidth => "*"
    case DigitsWidth(n) => Written(n)
  }

  function PrintPrecision(p: PrecisionText): string {
    match p
    case NoPrecision => ""
    case StarPrecision => ".*"
    case BarePoint => "."
    case DigitsPrecision(n) => "." + Written(n)
    case NegativePrecision(n) => ".-" + Written(n)
  }

  function PrintLength(l: Length): string {
    match l
    case NoLength => ""
    case CharLength => "hh"
    case Short => "h"
    case Long => "l"
    case LongLong => "ll"
    case LongDouble => "L"
    case IntMax => "j"
    case SizeT => "z"
    case PtrDiff => "t"
  }

  /** The letters of a conversion; '%' has only itself. */
  function Letters(conv: Conv): string {
    match conv
    case Percent => "%"
    case Character => "cC"
    case Text => "sS"
    case Signed => "diDI"
    case Binary => "bB"
    case Octal => "oO"
    case Hex => "xX"
    case Unsigned => "uU"
    case Pointer => "pP"
    case FloatDec => "fF"
    case FloatHex => "aA"
    case FloatSci => "eE"
    case FloatShortest => "gG"
  }

  /** A character is a conversion exactly when it is one of its letters; capitals ask for capitals. */
  lemma ConvByLetter(c: char, conv: Conv)
    ensures ConvOf(c) == Some(conv) <==> c in Letters(conv)
    ensures c in Letters(conv) ==> CaseBit(c) == if 'A' <= c <= 'Z' then 0 else 32
  {
    if ConvOf(c) == Some(conv) { LetterOfConv(c, conv); }
  }

  lemma LetterOfConv(c: char, conv: Conv)
    requires ConvOf(c) == Some(conv)
    ensures c in Letters(conv)
  {
    var idx := c as int + (32 - CaseBit(c)) - 'a' as int;
    if c != '%' { assert 0 <= idx < 24; }
  }

  /** What a specification is read from: nothing but a letter of its conversion ends it. */
  lemma ParsedByLetter(s: string, i: nat)
    requires IsCString(s) && i < |s| && Parse(s, i).Parsed?
    ensures var p := Parse(s, i);
            var c := s[p.end - 1];
            c in Letters(p.spec.conv) && p.spec.adj == if 'A' <= c <= 'Z' then 0 else 32
  {
    var p := Parse(s, i);
    var c := s[p.end - 1];
    ParseEnds(s, i);
    ConvByLetter(c, p.spec.conv);
  }

  lemma ParseEnds(s: string, i: nat)
    requires IsCString(s) && i < |s| && Parse(s, i).Parsed?
    ensures var p := Parse(s, i); ConvOf(s[p.end - 1]) == Some(p.spec.conv) && p.spec.adj == CaseBit(s[p.end - 1])
  {
    hide FlagsEnd, FlagsOf, WidthAt, PrecisionAt, LengthAt;
  }

  function Print(flags: string, w: WidthText, p: PrecisionText, l: Length, c: char): string {
    "%" + flags + PrintWidth(w) + PrintPrecision(p) + PrintLength(l) + [c]
  }

  /** A written number as the accumulator leaves it. */
  function Saturated(n: nat): nat {
    WrittenReads(n);
    Accumulated(Written(n))
  }

  function WidthMeaning(w: WidthText): nat { if w.DigitsWidth? then Saturated(w.n) else 0 }

  function OptMeaning(p: PrecisionText): Opt {
    match p
    case NoPrecision => Absent
    case StarPrecision => Star
    case BarePoint => Literal
    case DigitsPrecision(_) => Literal
    case NegativePrecision(_) => Absent
  }

  function PrecisionMeaning(p: PrecisionText): nat {
    if p.DigitsPrecision? || p.NegativePrecision? then Saturated(p.n) else 0
  }

  function Meaning(flags: string, w: WidthText, p: PrecisionText, l: Length, c: char): Spec
    requires ConvOf(c).Some?
  {
    var f := FlagsOf(flags);
    Spec(f.left, f.zeroPad, f.prepend, f.alt, w.StarWidth?, WidthMeaning(w), OptMeaning(p),
        PrecisionMeaning(p), l, ConvOf(c).value, CaseBit(c))
  }

  /** Up to the ceiling the driver applies, a written number means itself. */
  lemma SaturatedMeans(n: nat)
    ensures Min(Saturated(n), NUM_MAX) == Min(n, NUM_MAX)
    ensures n < NUM_BIG ==> Saturated(n) == n
  {
    WrittenReads(n);
    AccumulatedSaturates(Written(n));
  }

  /** t stands in s at position i. */
  predicate Stands(s: string, i: nat, t: string) { i + |t| <= |s| && s[i..i + |t|] == t }

  lemma StandsSplit(s: string, i: nat, t: string, u: string)
    requires Stands(s, i, t + u)
    ensures Stands(s, i, t) && Stands(s, i + |t|, u)
  {
    assert (t + u)[..|t|] == t && (t + u)[|t|..] == u;
    assert s[i..i + |t|] == s[i..i + |t| + |u|][..|t|];
    assert s[i + |t|..i + |t| + |u|] == s[i..i + |t| + |u|][|t|..];
  }

  lemma StandsAt(s: string, i: nat, t: string, k: nat)
    requires Stands(s, i, t) && k < |t|
    ensures s[i + k] == t[k]
  {
    assert s[i..i + |t|][k] == s[i + k];
  }

  lemma {:induction false} FlagsEndIs(s: string, i: nat, t: string)
    requires Stands(s, i, t) && (forall k :: 0 <= k < |t| ==> IsFlag(t[k]))
    requires !IsFlag(At(s, i + |t|))
    ensures FlagsEnd(s, i) == i + |t|
    decreases |t|
  {
    if t != [] {
      StandsAt(s, i, t, 0);
      assert t == [t[0]] + t[1..];
      StandsSplit(s, i, [t[0]], t[1..]);
      FlagsEndIs(s, i + 1, t[1..]);
    }
  }

  lemma {:induction false} DigitsEndIs(s: string, i: nat, t: string)
    requires Stands(s, i, t) && IsDigits(t) && !IsDigit(At(s, i + |t|))
    ensures DigitsEnd(s, i) == i + |t|
    decreases |t|
  {
    if t != [] {
      StandsAt(s, i, t, 0);
      assert t == [t[0]] + t[1..];
      StandsSplit(s, i, [t[0]], t[1..]);
      DigitsEndIs(s, i + 1, t[1..]);
    }
  }

  /** What may follow a number or the flags. */
  predicate IsLater(c: char) { !IsFlag(c) && !IsDigit(c) && c != '.' && c != '*' }

  /** No part of a specification but its conversion character can start with c. */
  predicate EndsNumbers(c: char) { IsLater(c) && c !in "hlLjzt" }

  lemma LengthReads(s: string, i: nat, l: Length, c: char)
    requires IsCString(s) && Stands(s, i, PrintLength(l) + [c]) && EndsNumbers(c)
    ensures LengthAt(s, i) == (l, i + |PrintLength(l)|) && At(s, i + |PrintLength(l)|) == c
    ensures IsLater(At(s, i))
  {
    var t := PrintLength(l) + [c];
    StandsAt(s, i, t, |t| - 1);
    StandsAt(s, i, t, 0);
    if |t| > 1 { StandsAt(s, i, t, 1); }
  }

  lemma ConvIsLater(c: char)
    requires ConvOf(c).Some?
    ensures EndsNumbers(c)
  {
  }

  lemma NumberReads(s: string, i: nat, n: nat)
    requires IsCString(s) && Stands(s, i, Written(n)) && !IsDigit(At(s, i + |Written(n)|))
    ensures DigitsEnd(s, i) == i + |Written(n)| && Accumulated(s[i..DigitsEnd(s, i)]) == Saturated(n)
  {
    WrittenReads(n);
    hide Written, Accumulated, Decimal;
    DigitsEndIs(s, i, Written(n));
  }

  lemma NothingReads(s: string, i: nat)
    requires i <= |s| && !IsDigit(At(s, i))
    ensures DigitsEnd(s, i) == i && Accumulated(s[i..DigitsEnd(s, i)]) == 0
  {
  }

  lemma PrecisionReads(s: string, i: nat, p: PrecisionText)
    requires IsCString(s) && Stands(s, i, PrintPrecision(p)) && IsLater(At(s, i + |PrintPrecision(p)|))
    ensures PrecisionAt(s, i) == Precision(OptMeaning(p), PrecisionMeaning(p), i + |PrintPrecision(p)|)
    ensures IsLater(At(s, i)) || At(s, i) == '.'
  {
    var t := PrintPrecision(p);
    if t != [] { StandsAt(s, i, t, 0); }
    match p
    case NoPrecision =>
    case StarPrecision => StandsAt(s, i, t, 1);
    case BarePoint => NothingReads(s, i + 1);
    case DigitsPrecision(n) => DigitsPrecisionReads(s, i, n);
    case NegativePrecision(n) => NegativePrecisionReads(s, i, n);
  }

  lemma DigitsPrecisionReads(s: string, i: nat, n: nat)
    requires IsCString(s) && Stands(s, i, "." + Written(n)) && IsLater(At(s, i + 1 + |Written(n)|))
    ensures PrecisionAt(s, i) == Precision(Literal, Saturated(n), i + 1 + |Written(n)|)
  {
    WrittenReads(n);
    StandsSplit(s, i, ".", Written(n));
    StandsAt(s, i, ".", 0);
    StandsAt(s, i + 1, Written(n), 0);
    NumberReads(s, i + 1, n);
    assert IsDigit(Written(n)[0]);
    hide Written, Accumulated, Decimal, DigitsEnd, Saturated;
  }

  lemma NegativePrecisionReads(s: string, i: nat, n: nat)
    requires IsCString(s) && Stands(s, i, ".-" + Written(n)) && IsLater(At(s, i + 2 + |Written(n)|))
    ensures PrecisionAt(s, i) == Precision(Absent, Saturated(n), i + 2 + |Written(n)|)
  {
    StandsSplit(s, i, ".-", Written(n));
    StandsAt(s, i, ".-", 0);
    StandsAt(s, i, ".-", 1);
    NumberReads(s, i + 2, n);
    hide Written, Accumulated, Decimal, DigitsEnd, Saturated;
  }

  lemma WidthReads(s: string, i: nat, w: WidthText)
    requires IsCString(s) && Stands(s, i, PrintWidth(w)) && (w.DigitsWidth? ==> w.n > 0)
    requires var c := At(s, i + |PrintWidth(w)|); IsLater(c) || c == '.'
    ensures WidthAt(s, i) == Width(w.StarWidth?, WidthMeaning(w), i + |PrintWidth(w)|)
    ensures !IsFlag(At(s, i))
  {
    match w
    case NoWidth => NothingReads(s, i);
    case StarWidth => StandsAt(s, i, "*", 0);
    case DigitsWidth(n) => DigitsWidthReads(s, i, n);
  }

  lemma DigitsWidthReads(s: string, i: nat, n: nat)
    requires IsCString(s) && Stands(s, i, Written(n)) && n > 0 && !IsDigit(At(s, i + |Written(n)|))
    ensures WidthAt(s, i) == Width(false, Saturated(n), i + |Written(n)|) && !IsFlag(At(s, i))
  {
    WrittenReads(n);
    StandsAt(s, i, Written(n), 0);
    NumberReads(s, i, n);
    assert IsDigit(Written(n)[0]) && Written(n)[0] != '0';
    hide Written, Accumulated, Decimal, DigitsEnd, Saturated;
  }

  /**
   * Printing undone: flags in any order and number, any width, precision, length modifier and
   * conversion character read back as what they mean, and the parser stops right behind them.
   */
  lemma PrintParse(s: string, i: nat, flags: string, w: WidthText, p: PrecisionText, l: Length, c: char)
    requires IsCString(s) && Stands(s, i, Print(flags, w, p, l, c))
    requires (forall k :: 0 <= k < |flags| ==> IsFlag(flags[k])) && (w.DigitsWidth? ==> w.n > 0) && ConvOf(c).Some?
    ensures i < |s| && Parse(s, i) == Parsed(Meaning(flags, w, p, l, c), i + |Print(flags, w, p, l, c)|)
  {
    hide *;
    ConvIsLater(c);
    PrintScans(s, i, flags, w, p, l, c);
  }

  /** A specification that ends in a character that is no letter of any conversion is none. */
  lemma PrintRejects(s: string, i: nat, flags: string, w: WidthText, p: PrecisionText, l: Length, c: char)
    requires IsCString(s) && Stands(s, i, Print(flags, w, p, l, c))
    requires (forall k :: 0 <= k < |flags| ==> IsFlag(flags[k])) && (w.DigitsWidth? ==> w.n > 0) && EndsNumbers(c)
    requires forall conv: Conv :: c !in Letters(conv)
    ensures i < |s| && Parse(s, i) == Malformed
  {
    if ConvOf(c).Some? { ConvByLetter(c, ConvOf(c).value); }
    hide *;
    PrintScans(s, i, flags, w, p, l, c);
  }

  lemma PrintScans(s: string, i: nat, flags: string, w: WidthText, p: PrecisionText, l: Length, c: char)
    requires IsCString(s) && Stands(s, i, Print(flags, w, p, l, c))
    requires (forall k :: 0 <= k < |flags| ==> IsFlag(flags[k])) && (w.DigitsWidth? ==> w.n > 0) && EndsNumbers(c)
    ensures i < |s|
    ensures Parse(s, i) ==
            if ConvOf(c).Some? then Parsed(Meaning(flags, w, p, l, c), i + |Print(flags, w, p, l, c)|) else Malformed
  {
    var a := i + 1 + |flags|;
    var b := a + |PrintWidth(w)|;
    var d := b + |PrintPrecision(p)|;
    hide *;
    PiecesStand(s, i, flags, w, p, l, c);
    LengthReads(s, d, l, c);
    PrecisionReads(s, b, p);
    WidthReads(s, a, w);
    FlagsEndIs(s, i + 1, flags);
    ParseOf(s, i, a, b, d, d + |PrintLength(l)|, flags, w, p, l, c);
  }

  lemma ParseOf(s: string, i: nat, a: nat, b: nat, d: nat, e: nat, flags: string, w: WidthText,
      p: PrecisionText, l: Length, c: char)
    requires IsCString(s) && i < |s| && i + 1 <= a <= |s| && b <= |s| && d <= |s| && e <= |s|
    requires FlagsEnd(s, i + 1) == a && s[i + 1..a] == flags
    requires WidthAt(s, a) == Width(w.StarWidth?, WidthMeaning(w), b)
    requires PrecisionAt(s, b) == Precision(OptMeaning(p), PrecisionMeaning(p), d)
    requires LengthAt(s, d) == (l, e) && At(s, e) == c
    ensures Parse(s, i) == if ConvOf(c).Some? then Parsed(Meaning(flags, w, p, l, c), e + 1) else Malformed
  {
    hide FlagsEnd, FlagsOf, WidthAt, PrecisionAt, LengthAt, ConvOf, WidthMeaning, PrecisionMeaning, OptMeaning;
  }

  lemma PiecesStand(s: string, i: nat, flags: string, w: WidthText, p: PrecisionText, l: Length, c: char)
    requires Stands(s, i, Print(flags, w, p, l, c))
    ensures Stands(s, i + 1, flags)
    ensures var a := i + 1 + |flags|;
            var b := a + |PrintWidth(w)|;
            var d := b + |PrintPrecision(p)|;
            && Stands(s, a, PrintWidth(w)) && Stands(s, b, PrintPrecision(p)) && Stands(s, d, PrintLength(l) + [c])
            && d + |PrintLength(l)| < |s| && s[i + 1..a] == flags
            && i + |Print(flags, w, p, l, c)| == d + |PrintLength(l)| + 1
  {
    hide PrintWidth, PrintPrecision, PrintLength;
    var t3 := PrintLength(l) + [c];
    var t2 := PrintPrecision(p) + t3;
    var t1 := PrintWidth(w) + t2;
    assert Print(flags, w, p, l, c) == "%" + (flags + t1);
    StandsSplit(s, i, "%", flags + t1);
    StandsSplit(s, i + 1, flags, t1);
    StandsSplit(s, i + 1 + |flags|, PrintWidth(w), t2);
    StandsSplit(s, i + 1 + |flags| + |PrintWidth(w)|, PrintPrecision(p), t3);
  }
}
