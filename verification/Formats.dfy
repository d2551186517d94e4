/**
 * Whole formats, from the characters of a specification and the arguments behind it to the
 * characters of the output, with nothing in between.
 */
module Formats {
  import opened Arithmetic
  import opened Rounding
  import opened Numerals
  import opened Doubles
  import opened FormatSpec
  import opened SharedConversion
  import opened Fields
  import opened FieldFacts
  import opened IntegerFields
  import opened FloatFields
  import FloatPaths
  import Shared
  import SharedExact
  import Shortest
  import ScientificFields

  /** A specification as it is written: flags, width, precision, length modifier, letter. */
  datatype Directive = Directive(flags: string, w: WidthText, p: PrecisionText, l: Length, c: char)

  function Format(f: Directive): string { Print(f.flags, f.w, f.p, f.l, f.c) }

  /** Only flags where flags are, no width of 0 (which is a flag), and one of conv's letters at the end. */
  predicate IsFormat(f: Directive, conv: Conv) {
    && (forall k :: 0 <= k < |f.flags| ==> IsFlag(f.flags[k]))
    && (f.w.DigitsWidth? ==> f.w.n > 0)
    && f.c in Letters(conv)
  }

  /** The kinds of the arguments it takes: an int for each star, then its own. */
  function Kinds(f: Directive, conv: Conv): seq<Kind> {
    (if f.w.StarWidth? then [WordKind] else []) + (if f.p.StarPrecision? then [WordKind] else []) +
    if conv.Percent? then [] else [OwnKind(conv)]
  }

  function OwnKind(conv: Conv): Kind {
    match conv
    case FloatDec | FloatHex | FloatSci | FloatShortest => RealKind
    case Text => CharsKind
    case _ => WordKind
  }

  predicate HasArgs(f: Directive, conv: Conv, args: seq<Arg>) { Supplies(args, Kinds(f, conv)) }

  /** The argument of the conversion itself stands behind those of the stars. */
  function Own(f: Directive, conv: Conv, args: seq<Arg>): (a: Arg)
    requires HasArgs(f, conv, args) && !conv.Percent?
    ensures IsArg(a, OwnKind(conv))
  {
    var k := (if f.w.StarWidth? then 1 else 0) + (if f.p.StarPrecision? then 1 else 0);
    assert Kinds(f, conv)[k] == OwnKind(conv);
    args[k]
  }

  /** The arguments it leaves. */
  function Behind(f: Directive, conv: Conv, args: seq<Arg>): seq<Arg> {
    if |Kinds(f, conv)| <= |args| then args[|Kinds(f, conv)|..] else []
  }

  /** The int a star takes from the k-th argument. */
  function StarInt(args: seq<Arg>, k: nat): int {
    if k < |args| && args[k].Word? then LowInt(args[k].bits) else 0
  }

  /** The width asked for, negative to justify to the left. */
  function AskedWidth(f: Directive, args: seq<Arg>): int {
    match f.w
    case NoWidth => 0
    case DigitsWidth(n) => n
    case StarWidth => StarInt(args, 0)
  }

  /** The precision asked for; none, or a negative one, leaves the default. */
  function AskedPrecision(f: Directive, args: seq<Arg>): Option<nat> {
    match f.p
    case NoPrecision => None
    case NegativePrecision(_) => None
    case BarePoint => Some(0)
    case DigitsPrecision(n) => Some(n)
    case StarPrecision =>
      var n := StarInt(args, if f.w.StarWidth? then 1 else 0);
      if n < 0 then None else Some(n)
  }

  /** The specification as parsed, stars still open. */
  function Meant(f: Directive, conv: Conv): Spec {
    var g := FlagsOf(f.flags);
    Spec(g.left, g.zeroPad, g.prepend, g.alt, f.w.StarWidth?, WidthMeaning(f.w), OptMeaning(f.p), PrecisionMeaning(f.p),
        f.l, conv, if 'A' <= f.c <= 'Z' then 0 else 32)
  }

  lemma MeantIs(f: Directive, conv: Conv)
    requires IsFormat(f, conv)
    ensures ConvOf(f.c).Some? && Meaning(f.flags, f.w, f.p, f.l, f.c) == Meant(f, conv)
  {
    ConvByLetter(f.c, conv);
    hide Saturated, ConvOf, Letters, CaseBit, FlagsOf;
  }

  lemma KindsAre(f: Directive, conv: Conv)
    ensures Demands(Meant(f, conv)) == Kinds(f, conv)
  {
    hide Saturated, FlagsOf;
  }

  /** The specification the driver works by, once the stars are in. */
  function Worked(f: Directive, conv: Conv, args: seq<Arg>): (r: Spec)
    requires HasArgs(f, conv, args)
    ensures r.conv == conv && IsCase(r.adj)
  {
    KindsAre(f, conv);
    ResolvedRest(Meant(f, conv), args);
    Resolved(Meant(f, conv), args)
  }

  /** The specification a conversion of f works by, the width asked for being w and the precision p. */
  predicate Follows(r: Spec, f: Directive, conv: Conv, w: int, p: Option<nat>) {
    && r.conv == conv && r.length == f.l && r.adj == (if 'A' <= f.c <= 'Z' then 0 else 32)
    && (r.alt <==> '#' in f.flags)
    && r.prepend == (if '+' in f.flags then '+' else if ' ' in f.flags then ' ' else '\0')
    && (r.left <==> '-' in f.flags || w < 0)
    && r.width == Min(if w < 0 then 0 - w else w, 65280)
    && (r.zeroPad <==> '0' in f.flags && !(p.Some? && DropsZeroFlag(conv)))
    && match p
       case None => r.precOpt == Absent && IsDefault(conv, r.prec)
       case Some(n) => r.precOpt != Absent && r.prec == Min(n, 65280)
  }

  /** What the driver converts with, read off the written specification and the star arguments. */
  lemma FormatMeans(f: Directive, conv: Conv, args: seq<Arg>)
    requires HasArgs(f, conv, args)
    ensures Follows(Worked(f, conv, args), f, conv, AskedWidth(f, args), AskedPrecision(f, args))
  {
    var spec := Meant(f, conv);
    KindsAre(f, conv);
    if f.w.StarWidth? { assert Kinds(f, conv)[0] == WordKind; }
    if f.p.StarPrecision? { assert Kinds(f, conv)[if f.w.StarWidth? then 1 else 0] == WordKind; }
    if f.w.DigitsWidth? { SaturatedMeans(f.w.n); }
    if f.p.DigitsPrecision? { SaturatedMeans(f.p.n); }
    if spec.widthStar { StarNumbers(spec, args); }
    PrecisionNumbers(spec, args);
    ResolvedRest(spec, args);
    hide Saturated, LowInt, Resolved, Demands, Supplies, IsDefault, Kinds;
  }

  /** The field of a specification; '%' has no argument of its own. */
  function Printed(cfg: Config, f: Directive, conv: Conv, args: seq<Arg>): string
    requires IsConfig(cfg) && HasArgs(f, conv, args)
  {
    Layout(FieldOf(cfg, Worked(f, conv, args), if conv.Percent? then NullChars else Own(f, conv, args)))
  }

  /** Where it ends. */
  function EndOf(i: nat, f: Directive): nat { i + |Format(f)| }

  /** Anywhere in a format a specification prints its field and leaves the arguments behind its own. */
  lemma DirectivePrints(cfg: Config, s: string, i: nat, f: Directive, conv: Conv, args: seq<Arg>)
    requires IsConfig(cfg) && IsCString(s) && Stands(s, i, Format(f)) && IsFormat(f, conv) && HasArgs(f, conv, args)
    ensures i < EndOf(i, f) <= |s|
    ensures ArgsMatch(s, i, args) <==> ArgsMatch(s, EndOf(i, f), Behind(f, conv, args))
    ensures ArgsMatch(s, i, args) ==>
            Render(cfg, s, i, args) == Printed(cfg, f, conv, args) + Render(cfg, s, EndOf(i, f), Behind(f, conv, args))
  {
    hide *;
    EndIs(s, i, f);
    DirectiveParses(s, i, f, conv);
    TakesArguments(cfg, f, conv, args);
    StepRenders(cfg, s, i, Meant(f, conv), EndOf(i, f), args);
  }

  lemma EndIs(s: string, i: nat, f: Directive)
    requires Stands(s, i, Format(f))
    ensures i < EndOf(i, f) == i + |Format(f)| <= |s|
  {
    FormatStarts(f);
    hide Format;
  }

  lemma DirectiveParses(s: string, i: nat, f: Directive, conv: Conv)
    requires IsCString(s) && Stands(s, i, Format(f)) && IsFormat(f, conv)
    ensures i < |s| && s[i] == '%' && Parse(s, i) == Parsed(Meant(f, conv), EndOf(i, f))
  {
    MeantIs(f, conv);
    FormatStarts(f);
    assert (forall k :: 0 <= k < |f.flags| ==> IsFlag(f.flags[k])) && (f.w.DigitsWidth? ==> f.w.n > 0);
    EndIs(s, i, f);
    hide *;
    PrintParse(s, i, f.flags, f.w, f.p, f.l, f.c);
    StandsAt(s, i, Format(f), 0);
  }

  lemma FormatStarts(f: Directive)
    ensures Format(f) == Print(f.flags, f.w, f.p, f.l, f.c) && Format(f) != "" && Format(f)[0] == '%'
  {
    hide PrintWidth, PrintPrecision, PrintLength;
  }

  lemma TakesArguments(cfg: Config, f: Directive, conv: Conv, args: seq<Arg>)
    requires IsConfig(cfg) && HasArgs(f, conv, args)
    ensures var spec := Meant(f, conv);
            && Supplies(args, Demands(spec)) && |Demands(spec)| <= |args|
            && args[|Demands(spec)|..] == Behind(f, conv, args)
            && IsCase(spec.adj) && FieldText(cfg, spec, args) == Printed(cfg, f, conv, args)
  {
    KindsAre(f, conv);
    ArgumentOrder(Meant(f, conv), args);
    hide Resolved, Layout, FieldOf, Saturated, FlagsOf;
  }

  lemma StepRenders(cfg: Config, s: string, i: nat, spec: Spec, end: nat, args: seq<Arg>)
    requires IsConfig(cfg) && IsCString(s) && i < |s| && s[i] == '%' && Parse(s, i) == Parsed(spec, end)
    requires Supplies(args, Demands(spec))
    ensures i + 2 <= end <= |s| && IsCase(spec.adj) && |Demands(spec)| <= |args|
    ensures ArgsMatch(s, i, args) <==> ArgsMatch(s, end, args[|Demands(spec)|..])
    ensures ArgsMatch(s, i, args) ==>
            Render(cfg, s, i, args) == FieldText(cfg, spec, args) + Render(cfg, s, end, args[|Demands(spec)|..])
  {
    hide Parse, FieldText, Demands;
    assert StepAt(s, i) == Parsed(spec, end);
  }

  /** And everything else but '%' prints itself. */
  lemma OrdinaryPrints(cfg: Config, s: string, i: nat, args: seq<Arg>)
    requires IsConfig(cfg) && IsCString(s) && i < |s| && s[i] != '%'
    ensures ArgsMatch(s, i, args) <==> ArgsMatch(s, i + 1, args)
    ensures ArgsMatch(s, i, args) ==> Render(cfg, s, i, args) == [s[i]] + Render(cfg, s, i + 1, args)
  {
  }

  // ---------------------------------------------------------------------------------------------
  // Formats of any number of specifications, with other characters between them.

  datatype Piece = Ordinary(c: char) | Specification(f: Directive, conv: Conv)

  predicate IsPiece(p: Piece) {
    match p
    case Ordinary(c) => c != '%' && c != '\0'
    case Specification(f, conv) => IsFormat(f, conv)
  }

  predicate ArePieces(ps: seq<Piece>) {
    ps == [] || (IsPiece(ps[0]) && ArePieces(ps[1..]))
  }

  function Source(ps: seq<Piece>): string {
    if ps == [] then "" else Head(ps[0]) + Source(ps[1..])
  }

  function Head(p: Piece): string { if p.Ordinary? then [p.c] else Format(p.f) }

  /** Each specification finds the arguments it takes, in order; what is left at the end is not looked at. */
  predicate Serves(args: seq<Arg>, ps: seq<Piece>)
    requires ArePieces(ps)
  {
    ps == [] ||
    match ps[0]
    case Ordinary(_) => Serves(args, ps[1..])
    case Specification(f, conv) =>
      HasArgs(f, conv, args) && Serves(Behind(f, conv, args), ps[1..])
  }

  function Output(cfg: Config, ps: seq<Piece>, args: seq<Arg>): string
    requires IsConfig(cfg) && ArePieces(ps) && Serves(args, ps)
  {
    if ps == [] then ""
    else
      match ps[0]
      case Ordinary(c) => [c] + Output(cfg, ps[1..], args)
      case Specification(f, conv) => Printed(cfg, f, conv, args) + Output(cfg, ps[1..], Behind(f, conv, args))
  }

  /** From s[i] on the output is t. */
  predicate Prints(cfg: Config, s: string, i: nat, args: seq<Arg>, t: string) {
    IsConfig(cfg) && IsCString(s) && i <= |s| && ArgsMatch(s, i, args) && Render(cfg, s, i, args) == t
  }

  /** The whole run: every piece prints what it prints alone, one behind the other, on its own arguments. */
  lemma {:induction false} PiecesPrint(cfg: Config, s: string, i: nat, ps: seq<Piece>, args: seq<Arg>)
    requires IsConfig(cfg) && IsCString(s) && ArePieces(ps) && Serves(args, ps)
    requires Stands(s, i, Source(ps)) && i + |Source(ps)| == |s|
    ensures Prints(cfg, s, i, args, Output(cfg, ps, args))
    decreases |ps|
  {
    hide *;
    if ps == [] {
      NoPieces(cfg, s, i, ps, args);
    } else {
      var p, rest := ps[0], ps[1..];
      SourceStands(s, i, ps);
      PiecesUnfold(cfg, ps, args);
      var left := Left(p, args);
      PiecesPrint(cfg, s, i + |Head(p)|, rest, left);
      PiecesStep(cfg, s, i, ps, p, rest, left, args);
    }
  }

  lemma NoPieces(cfg: Config, s: string, i: nat, ps: seq<Piece>, args: seq<Arg>)
    requires IsConfig(cfg) && IsCString(s) && ArePieces(ps) && Serves(args, ps) && ps == []
    requires i + |Source(ps)| == |s|
    ensures Prints(cfg, s, i, args, Output(cfg, ps, args))
  {
    assert Source(ps) == "" && Output(cfg, ps, args) == "" && i == |s|;
    AtEnd(cfg, s, args);
    hide Render, ArgsMatch, IsConfig, IsCString, Serves, Output, ArePieces, Source;
  }

  lemma PiecesStep(cfg: Config, s: string, i: nat, ps: seq<Piece>, p: Piece, rest: seq<Piece>, left: seq<Arg>,
      args: seq<Arg>)
    requires IsConfig(cfg) && ArePieces(ps) && Serves(args, ps) && ArePieces(rest) && left == Left(p, args) && Serves(left, rest)
    requires IsPiece(p) && ServesPiece(args, p) && Stands(s, i, Head(p))
    requires Output(cfg, ps, args) == PieceOutput(cfg, p, args) + Output(cfg, rest, left)
    requires Prints(cfg, s, i + |Head(p)|, left, Output(cfg, rest, left))
    ensures Prints(cfg, s, i, args, Output(cfg, ps, args))
  {
    hide *;
    PiecePrints(cfg, s, i, p, args, Output(cfg, rest, left));
  }

  /** The arguments a piece leaves. */
  function Left(p: Piece, args: seq<Arg>): seq<Arg> {
    match p
    case Ordinary(_) => args
    case Specification(f, conv) => Behind(f, conv, args)
  }

  predicate ServesPiece(args: seq<Arg>, p: Piece)
    requires IsPiece(p)
  {
    p.Specification? ==> HasArgs(p.f, p.conv, args)
  }

  function PieceOutput(cfg: Config, p: Piece, args: seq<Arg>): string
    requires IsConfig(cfg) && IsPiece(p) && ServesPiece(args, p)
  {
    match p
    case Ordinary(c) => [c]
    case Specification(f, conv) => Printed(cfg, f, conv, args)
  }

  lemma PiecesUnfold(cfg: Config, ps: seq<Piece>, args: seq<Arg>)
    requires IsConfig(cfg) && ArePieces(ps) && ps != [] && Serves(args, ps)
    ensures IsPiece(ps[0]) && ArePieces(ps[1..]) && ServesPiece(args, ps[0]) && Serves(Left(ps[0], args), ps[1..])
    ensures Output(cfg, ps, args) == PieceOutput(cfg, ps[0], args) + Output(cfg, ps[1..], Left(ps[0], args))
  {
    hide Printed, HasArgs, IsFormat, Behind;
  }

  lemma PiecePrints(cfg: Config, s: string, i: nat, p: Piece, args: seq<Arg>, t: string)
    requires IsConfig(cfg) && IsPiece(p) && ServesPiece(args, p) && Stands(s, i, Head(p))
    requires Prints(cfg, s, i + |Head(p)|, Left(p, args), t)
    ensures Prints(cfg, s, i, args, PieceOutput(cfg, p, args) + t)
  {
    match p
    case Ordinary(c) =>
      StandsAt(s, i, [c], 0);
      assert i < |s| && s[i] == c != '%' && Prints(cfg, s, i + 1, args, t);
      hide *;
      OrdinaryThen(cfg, s, i, args, t);
      PieceOutputIs(cfg, p, args);
    case Specification(f, conv) =>
      assert IsFormat(f, conv) && HasArgs(f, conv, args) && Stands(s, i, Format(f));
      assert Prints(cfg, s, EndOf(i, f), Behind(f, conv, args), t);
      hide *;
      DirectiveThen(cfg, s, i, f, conv, args, t);
      PieceOutputIs(cfg, p, args);
  }

  lemma PieceOutputIs(cfg: Config, p: Piece, args: seq<Arg>)
    requires IsConfig(cfg) && IsPiece(p) && ServesPiece(args, p)
    ensures p.Ordinary? ==> PieceOutput(cfg, p, args) == [p.c]
    ensures p.Specification? ==> HasArgs(p.f, p.conv, args) && PieceOutput(cfg, p, args) == Printed(cfg, p.f, p.conv, args)
  {
    hide Printed, HasArgs, IsFormat;
  }

  lemma OrdinaryThen(cfg: Config, s: string, i: nat, args: seq<Arg>, t: string)
    requires i < |s| && s[i] != '%' && Prints(cfg, s, i + 1, args, t)
    ensures Prints(cfg, s, i, args, [s[i]] + t)
  {
    assert IsConfig(cfg) && IsCString(s);
    OrdinaryPrints(cfg, s, i, args);
    hide ArgsMatch, Render, IsConfig, IsCString;
  }

  lemma DirectiveThen(cfg: Config, s: string, i: nat, f: Directive, conv: Conv, args: seq<Arg>, t: string)
    requires IsConfig(cfg) && Stands(s, i, Format(f)) && IsFormat(f, conv) && HasArgs(f, conv, args)
    requires Prints(cfg, s, EndOf(i, f), Behind(f, conv, args), t)
    ensures Prints(cfg, s, i, args, Printed(cfg, f, conv, args) + t)
  {
    assert IsCString(s);
    hide ArgsMatch, Render, IsConfig, IsCString, IsFormat, HasArgs, Printed, Stands, Format, EndOf, Behind;
    DirectivePrints(cfg, s, i, f, conv, args);
  }

  lemma SourceStands(s: string, i: nat, ps: seq<Piece>)
    requires ps != [] && Stands(s, i, Source(ps)) && i + |Source(ps)| == |s|
    ensures Stands(s, i, Head(ps[0]))
    ensures var n := |Head(ps[0])|; Stands(s, i + n, Source(ps[1..])) && i + n + |Source(ps[1..])| == |s|
  {
    assert Source(ps) == Head(ps[0]) + Source(ps[1..]);
    hide *;
    StandsSplit(s, i, Head(ps[0]), Source(ps[1..]));
  }

  lemma AtEnd(cfg: Config, s: string, args: seq<Arg>)
    requires IsConfig(cfg) && IsCString(s)
    ensures ArgsMatch(s, |s|, args) && Render(cfg, s, |s|, args) == ""
  {
  }

  // ---------------------------------------------------------------------------------------------
  // One specification.

  /** A format of one specification prints that specification's field. */
  lemma FormatPrints(cfg: Config, f: Directive, conv: Conv, args: seq<Arg>)
    requires IsConfig(cfg) && IsFormat(f, conv) && HasArgs(f, conv, args)
    ensures IsCString(Format(f)) && ArgsMatch(Format(f), 0, args)
    ensures Render(cfg, Format(f), 0, args) == Printed(cfg, f, conv, args)
  {
    var s := Format(f);
    FormatIsCString(f, conv);
    assert s[0..0 + |s|] == s;
    assert Stands(s, 0, s);
    hide *;
    DirectivePrints(cfg, s, 0, f, conv, args);
    EndIs(s, 0, f);
    AtEnd(cfg, s, Behind(f, conv, args));
    assert ArgsMatch(s, 0, args);
    assert Printed(cfg, f, conv, args) + "" == Printed(cfg, f, conv, args);
  }

  lemma FormatIsCString(f: Directive, conv: Conv)
    requires IsFormat(f, conv)
    ensures IsCString(Format(f))
  {
    if f.w.DigitsWidth? { WrittenReads(f.w.n); NoTerminator(Written(f.w.n)); }
    if f.p.DigitsPrecision? || f.p.NegativePrecision? { WrittenReads(f.p.n); NoTerminator(Written(f.p.n)); }
    assert '\0' !in f.flags && f.c != '\0';
    assert '\0' !in PrintWidth(f.w) && '\0' !in PrintPrecision(f.p) && '\0' !in PrintLength(f.l);
    hide PrintWidth, PrintPrecision, PrintLength, Letters;
  }

  lemma NoTerminator(ds: string)
    requires IsDigits(ds)
    ensures '\0' !in ds
  {
  }

  /**
   * Any integer conversion, written in any way, of any value of the type its length modifier names:
   * what is printed reads back as that value, unless it is a zero with precision zero.
   */
  lemma IntegerFormat(cfg: Config, f: Directive, conv: Conv, args: seq<Arg>, v: int)
    requires IsConfig(cfg) && IsInteger(conv) && IsFormat(f, conv) && HasArgs(f, conv, args)
    requires Carries(Own(f, conv, args).bits, v, if conv.Pointer? then Range(Long, false) else Range(f.l, conv.Signed?))
    ensures IsCString(Format(f)) && ArgsMatch(Format(f), 0, args)
    ensures ReadInteger(Render(cfg, Format(f), 0, args), Radix(conv)) ==
            if v == 0 && AskedPrecision(f, args) == Some(0) && !(conv.Octal? && '#' in f.flags) then None else Some(v)
  {
    PrintedIs(cfg, f, conv, args);
    hide *;
    FormatPrints(cfg, f, conv, args);
    FormatMeans(f, conv, args);
    IntegerReading(cfg, Worked(f, conv, args), f, conv, AskedWidth(f, args), AskedPrecision(f, args),
        Own(f, conv, args), v);
  }

  lemma IntegerReading(cfg: Config, r: Spec, f: Directive, conv: Conv, w: int, p: Option<nat>, own: Arg, v: int)
    requires IsConfig(cfg) && IsCase(r.adj) && IsInteger(conv) && Follows(r, f, conv, w, p)
    requires IsArg(own, WordKind)
    requires Carries(own.bits, v, if conv.Pointer? then Range(Long, false) else Range(f.l, conv.Signed?))
    ensures ReadInteger(Layout(FieldOf(cfg, r, own)), Radix(conv)) ==
            if v == 0 && p == Some(0) && !(conv.Octal? && '#' in f.flags) then None else Some(v)
  {
    assert r.conv == conv && r.prepend in ['\0', ' ', '+'];
    IntegerFieldOf(cfg, r, own);
    TypeIs(r, f.l, conv);
    BlankIs(r, v, p, conv, '#' in f.flags);
    hide *;
    ValueReadsBack(r, own.bits, v);
  }

  lemma PrintedIs(cfg: Config, f: Directive, conv: Conv, args: seq<Arg>)
    requires IsConfig(cfg) && HasArgs(f, conv, args) && !conv.Percent?
    ensures Printed(cfg, f, conv, args) == Layout(FieldOf(cfg, Worked(f, conv, args), Own(f, conv, args)))
    ensures IsInteger(conv) ==> IsArg(Own(f, conv, args), WordKind)
    ensures IsFloat(conv) ==> Own(f, conv, args).Real? && Own(f, conv, args).bits < BIN_MODULUS
  {
    hide Layout, FieldOf, Worked, HasArgs;
  }

  lemma IntegerFieldOf(cfg: Config, r: Spec, own: Arg)
    requires IsConfig(cfg) && IsCase(r.adj) && IsInteger(r.conv) && IsArg(own, WordKind)
    ensures FieldOf(cfg, r, own) == IntegerField(r, own.bits)
  {
    hide IntegerField;
  }

  lemma TypeIs(r: Spec, l: Length, conv: Conv)
    requires r.conv == conv && r.length == l
    ensures TypeOf(r) == if conv.Pointer? then Range(Long, false) else Range(l, conv.Signed?)
  {
  }

  lemma BlankIs(r: Spec, v: int, p: Option<nat>, conv: Conv, alt: bool)
    requires r.conv == conv && r.alt == alt
    requires if p.Some? then r.precOpt != Absent && r.prec == Min(p.value, 65280) else r.precOpt == Absent
    ensures PrintsNothing(r, v) <==> v == 0 && p == Some(0) && !(conv.Octal? && alt)
  {
  }

  /** The places of %e and %f, and the digits of %g. */
  function Places(p: Option<nat>): nat { if p.None? then 6 else Min(p.value, 65280) }

  function Significance(p: Option<nat>): nat { if Places(p) == 0 then 1 else Places(p) }

  /**
   * %f, written in any way, of a double in the exact domain whose text fits: what is printed reads
   * back as the correctly rounded decimal, at six places when none are asked for.
   */
  lemma FixedFormat(cfg: Config, f: Directive, args: seq<Arg>, x: Finite)
    requires IsConfig(cfg) && IsFormat(f, FloatDec) && HasArgs(f, FloatDec, args)
    requires Own(f, FloatDec, args).Real? && Own(f, FloatDec, args).bits < BIN_MODULUS
    requires Decode(Own(f, FloatDec, args).bits) == Number(x) && InExactDomain(cfg.B, x)
    ensures IsCString(Format(f)) && ArgsMatch(Format(f), 0, args)
    ensures var prec := Places(AskedPrecision(f, args));
            |FloatPaths.RightFixed(x, prec, true)| <= cfg.C && !FloatPaths.FillsBuffer(cfg.C, x, prec, '#' in f.flags) ==>
              && ReadDecimal(Render(cfg, Format(f), 0, args)) ==
                 Some(DecimalReading(Negative(Own(f, FloatDec, args).bits), RoundAt(Num(x), Den(x), prec), prec, 0))
              && ('.' in Render(cfg, Format(f), 0, args) <==> prec > 0 || '#' in f.flags)
  {
    PrintedIs(cfg, f, FloatDec, args);
    hide *;
    FormatPrints(cfg, f, FloatDec, args);
    FormatMeans(f, FloatDec, args);
    FixedReading(cfg, Worked(f, FloatDec, args), f, AskedWidth(f, args),
        AskedPrecision(f, args), Own(f, FloatDec, args), x);
  }

  lemma FixedReading(cfg: Config, r: Spec, f: Directive, w: int, p: Option<nat>, own: Arg, x: Finite)
    requires IsConfig(cfg) && IsCase(r.adj) && Follows(r, f, FloatDec, w, p)
    requires own.Real? && own.bits < BIN_MODULUS && Decode(own.bits) == Number(x) && InExactDomain(cfg.B, x)
    ensures var prec := Places(p);
            |FloatPaths.RightFixed(x, prec, true)| <= cfg.C && !FloatPaths.FillsBuffer(cfg.C, x, prec, '#' in f.flags) ==>
              && ReadDecimal(Layout(FieldOf(cfg, r, own))) ==
                 Some(DecimalReading(Negative(own.bits), RoundAt(Num(x), Den(x), prec), prec, 0))
              && ('.' in Layout(FieldOf(cfg, r, own)) <==> prec > 0 || '#' in f.flags)
  {
    FloatFieldOf(cfg, r, own);
    assert r.conv == FloatDec && r.prepend in ['\0', ' ', '+'];
    assert r.alt == ('#' in f.flags) && r.prec == Places(p);
    hide *;
    if |FloatPaths.RightFixed(x, r.prec, true)| <= cfg.C && !FloatPaths.FillsBuffer(cfg.C, x, r.prec, r.alt) {
      PointLonger(x, r.prec, r.alt);
      FloatReadsBack(cfg, r, own.bits, x);
      FloatShowsPoint(cfg, r, own.bits, x);
    }
  }

  lemma FloatFieldOf(cfg: Config, r: Spec, own: Arg)
    requires IsConfig(cfg) && IsCase(r.adj) && IsFloat(r.conv) && IsArg(own, RealKind)
    ensures FieldOf(cfg, r, own) == FloatField(cfg, r, own.bits)
  {
    hide FloatField;
  }

  lemma PointLonger(x: Finite, prec: nat, alt: bool)
    ensures |FloatPaths.RightFixed(x, prec, alt)| <= |FloatPaths.RightFixed(x, prec, true)|
  {
    hide RoundAt, Numeral, Digits, High;
  }

  /** With prec places, should they fit the buffer, text reads as the digits and the exponent of the rounded run. */
  predicate ReadsAsRun(cfg: Config, x: Finite, prec: nat, negative: bool, text: string)
    requires IsConfig(cfg) && IsFinite(x)
  {
    prec + 8 <= cfg.C ==>
      var m := SharedExact.Mantissa(Shared.Significant(cfg.B, x, prec + 1), prec + 1);
      ReadDecimal(text) == Some(DecimalReading(negative, m.0, prec, m.1))
  }

  /** %e, written in any way, of any finite double: the digits and the exponent of its rounded run. */
  lemma ScientificFormat(cfg: Config, f: Directive, args: seq<Arg>, x: Finite)
    requires IsConfig(cfg) && IsFormat(f, FloatSci) && HasArgs(f, FloatSci, args)
    requires Own(f, FloatSci, args).Real? && Own(f, FloatSci, args).bits < BIN_MODULUS
    requires Decode(Own(f, FloatSci, args).bits) == Number(x) && !Overruns(cfg.B, cfg.C, x)
    ensures IsCString(Format(f)) && ArgsMatch(Format(f), 0, args)
    ensures ReadsAsRun(cfg, x, Places(AskedPrecision(f, args)), Negative(Own(f, FloatSci, args).bits),
                       Render(cfg, Format(f), 0, args))
  {
    PrintedIs(cfg, f, FloatSci, args);
    hide *;
    FormatPrints(cfg, f, FloatSci, args);
    FormatMeans(f, FloatSci, args);
    ScientificReading(cfg, Worked(f, FloatSci, args), f, AskedWidth(f, args),
        AskedPrecision(f, args), Own(f, FloatSci, args), x);
  }

  lemma ScientificReading(cfg: Config, r: Spec, f: Directive, w: int, p: Option<nat>, own: Arg, x: Finite)
    requires IsConfig(cfg) && IsCase(r.adj) && Follows(r, f, FloatSci, w, p)
    requires own.Real? && own.bits < BIN_MODULUS && Decode(own.bits) == Number(x) && !Overruns(cfg.B, cfg.C, x)
    ensures ReadsAsRun(cfg, x, Places(p), Negative(own.bits), Layout(FieldOf(cfg, r, own)))
  {
    FloatFieldOf(cfg, r, own);
    assert r.conv == FloatSci && r.prepend in ['\0', ' ', '+'];
    assert r.prec == Places(p);
    ScientificReadsRun(cfg, r, own.bits, x);
    hide *;
  }

  lemma ScientificReadsRun(cfg: Config, r: Spec, bits: nat, x: Finite)
    requires IsConfig(cfg) && r.conv.FloatSci? && bits < BIN_MODULUS && IsCase(r.adj) && r.prepend in ['\0', ' ', '+']
    requires Decode(bits) == Number(x) && !Overruns(cfg.B, cfg.C, x)
    ensures ReadsAsRun(cfg, x, r.prec, Negative(bits), Layout(FloatField(cfg, r, bits)))
  {
    hide Decode, Overruns, ReadDecimal, Layout, FloatField, Shared.Significant, SharedExact.Mantissa, Negative;
    if r.prec + 1 <= cfg.C - 7 { ScientificFields.ScientificReadsBack(cfg, r, bits, x); }
  }

  /**
   * %g, written in any way, of a double in the exact domain with no tie unseen: its value rounded
   * to as many digits as asked for, one when that is none, and six without a precision.
   */
  lemma ShortestFormat(cfg: Config, f: Directive, args: seq<Arg>, x: Finite) returns (lead: int)
    requires IsConfig(cfg) && IsFormat(f, FloatShortest) && HasArgs(f, FloatShortest, args)
    requires Own(f, FloatShortest, args).Real? && Own(f, FloatShortest, args).bits < BIN_MODULUS
    requires Decode(Own(f, FloatShortest, args).bits) == Number(x) && InExactDomain(cfg.B, x) && x.bin > 0
    requires !Overruns(cfg.B, cfg.C, x)
    requires var p := AskedPrecision(f, args); p.Some? ==> Min(p.value, 65280) <= cfg.C - 7
    ensures IsLeadExponent(Num(x), Den(x), lead)
    ensures IsCString(Format(f)) && ArgsMatch(Format(f), 0, args)
    ensures var sig := Significance(AskedPrecision(f, args));
            Shortest.SeesTies(cfg.B, x, sig, lead) ==>
              var m, d := RoundSignificant(Num(x), Den(x), sig, lead), ReadDecimal(Render(cfg, Format(f), 0, args));
              d.Some? && d.value.negative == Negative(Own(f, FloatShortest, args).bits) &&
              ScientificFields.Denotes(d.value, sig, m.0, m.1)
  {
    PrintedIs(cfg, f, FloatShortest, args);
    hide *;
    FormatPrints(cfg, f, FloatShortest, args);
    FormatMeans(f, FloatShortest, args);
    lead := ShortestReading(cfg, Worked(f, FloatShortest, args), f, AskedWidth(f, args),
        AskedPrecision(f, args), Own(f, FloatShortest, args), x);
  }

  lemma ShortestReading(cfg: Config, r: Spec, f: Directive, w: int, p: Option<nat>, own: Arg, x: Finite)
    returns (lead: int)
    requires IsConfig(cfg) && IsCase(r.adj) && Follows(r, f, FloatShortest, w, p)
    requires own.Real? && own.bits < BIN_MODULUS && Decode(own.bits) == Number(x)
    requires InExactDomain(cfg.B, x) && x.bin > 0 && !Overruns(cfg.B, cfg.C, x)
    requires p.Some? ==> Min(p.value, 65280) <= cfg.C - 7
    ensures IsLeadExponent(Num(x), Den(x), lead)
    ensures var sig := Significance(p);
            Shortest.SeesTies(cfg.B, x, sig, lead) ==>
              var m, d := RoundSignificant(Num(x), Den(x), sig, lead), ReadDecimal(Layout(FieldOf(cfg, r, own)));
              d.Some? && d.value.negative == Negative(own.bits) && ScientificFields.Denotes(d.value, sig, m.0, m.1)
  {
    FloatFieldOf(cfg, r, own);
    assert r.conv == FloatShortest && r.prepend in ['\0', ' ', '+'];
    assert Shortest.Precision(r.prec) == Significance(p);
    assert Shortest.Precision(r.prec) <= cfg.C - 7;
    hide *;
    lead := ScientificFields.ShortestReadsBack(cfg, r, own.bits, x);
  }
}
