/**
 * What one conversion of npf_vpprintf emits: a field of pads, sign, prefix, zeros and payload, as
 * C11 section 7.21.6.1 describes it, for LP64 and 32-bit int.
 */
module Fields {
  import opened Arithmetic
  import opened Numerals
  import opened Doubles
  import opened Unsigned
  import opened Specials
  import opened FormatSpec
  import opened Shared
  import opened SharedConversion
  import HexFloat

  /** The conversion integer's width, the buffer's size, and whether divisions are avoided. */
  datatype Config = Config(B: nat, C: nat, divisionFree: bool)

  predicate IsConfig(cfg: Config) { IsWidth(cfg.B) && IsCapacity(cfg.C) }

  // ---------------------------------------------------------------------------------------------
  // Arguments. A word is passed in 64 bits, of which a conversion takes as many as it is wide.

  datatype Arg = Word(bits: nat) | Real(bits: nat) | Chars(s: string) | NullChars

  datatype Kind = WordKind | RealKind | CharsKind

  predicate IsArg(a: Arg, k: Kind) {
    match k
    case WordKind => a.Word? && a.bits < TWO64
    case RealKind => a.Real? && a.bits < BIN_MODULUS
    case CharsKind => a.NullChars? || (a.Chars? && IsCString(a.s))
  }

  predicate IsFloat(c: Conv) { c.FloatDec? || c.FloatHex? || c.FloatSci? || c.FloatShortest? }

  predicate IsInteger(c: Conv) { c.Signed? || c.Binary? || c.Octal? || c.Hex? || c.Unsigned? || c.Pointer? }

  /** The arguments a specification consumes, stars first. */
  function Demands(spec: Spec): seq<Kind> {
    StarDemands(spec) +
    if spec.conv.Percent? then []
    else if IsFloat(spec.conv) then [RealKind]
    else if spec.conv.Text? then [CharsKind]
    else [WordKind]
  }

  function StarDemands(spec: Spec): seq<Kind> {
    (if spec.widthStar then [WordKind] else []) + (if spec.precOpt == Star then [WordKind] else [])
  }

  predicate Supplies(args: seq<Arg>, kinds: seq<Kind>) {
    |kinds| <= |args| && forall i :: 0 <= i < |kinds| ==> IsArg(args[i], kinds[i])
  }

  /** The low bits of a word as a two's complement number. */
  function AsSigned(bits: nat, width: nat): int
    requires width >= 1
  {
    var n := bits % Pow(2, width);
    if n < Pow(2, width - 1) then n else n - Pow(2, width)
  }

  function IntegerWidth(l: Length): (w: nat)
    ensures w == 8 || w == 16 || w == 32 || w == 64
  {
    match l
    case CharLength => 8
    case Short => 16
    case NoLength => 32
    case LongDouble => 32
    case _ => 64
  }

  // ---------------------------------------------------------------------------------------------
  // Width, precision and flags once the star arguments are in.

  const INT_BITS: nat := 32

  /** A negative star width left-justifies; every width is at most 65280, INT_MIN's magnitude included. */
  function WithWidth(spec: Spec, args: seq<Arg>): (r: Spec)
    requires Supplies(args, Demands(spec))
    ensures r.width <= NUM_MAX
  {
    if spec.widthStar then
      var w := AsSigned(args[0].bits, INT_BITS);
      spec.(left := spec.left || w < 0, width := Min(Max(w, -w), NUM_MAX))
    else spec.(width := Min(spec.width, NUM_MAX))
  }

  function DefaultPrecision(c: Conv): nat {
    if c.Pointer? then 16
    else if c.FloatHex? then HexFloat.FRACTION_NIBBLES
    else if IsFloat(c) then 6
    else 0
  }

  /** A negative star precision counts as absent, and an absent one is the conversion's default. */
  function WithPrecision(spec: Spec, args: seq<Arg>): (r: Spec)
    requires Supplies(args, Demands(spec))
    ensures r.prec <= NUM_MAX
  {
    var p := if spec.precOpt == Star then AsSigned(args[if spec.widthStar then 1 else 0].bits, INT_BITS) else spec.prec;
    if spec.precOpt == Absent || p < 0 then spec.(precOpt := Absent, prec := DefaultPrecision(spec.conv))
    else spec.(prec := Min(p, NUM_MAX))
  }

  /** For d, i, o, u, x and X the '0' flag is ignored when a precision is given. */
  function Resolved(spec: Spec, args: seq<Arg>): (r: Spec)
    requires Supplies(args, Demands(spec))
    ensures r.width <= NUM_MAX && r.prec <= NUM_MAX
  {
    var r := spec.(left := WithWidth(spec, args).left, width := WithWidth(spec, args).width,
                   precOpt := WithPrecision(spec, args).precOpt, prec := WithPrecision(spec, args).prec);
    if r.precOpt != Absent && (r.conv.Signed? || r.conv.Octal? || r.conv.Hex? || r.conv.Unsigned?)
    then r.(zeroPad := false) else r
  }

  // ---------------------------------------------------------------------------------------------
  // Fields and their layout.

  datatype Field = Field(left: bool, zeroPad: bool, width: nat, sign: string, prefix: string, zeros: nat,
      payload: string)

  function Reversed(s: seq<char>): (r: seq<char>)
    ensures |r| == |s|
    ensures forall i :: 0 <= i < |s| ==> r[i] == s[|s| - 1 - i]
  {
    seq(|s|, i requires 0 <= i < |s| => s[|s| - 1 - i])
  }

  function Spaces(k: nat): (s: string)
    ensures |s| == k
  {
    seq(k, _ => ' ')
  }

  function Natural(f: Field): nat { |f.sign| + |f.prefix| + f.zeros + |f.payload| }

  /** Spaces go outside, zeros between the prefix and the digits; '-' overrides '0'. */
  function Layout(f: Field): (s: string)
    ensures |s| == Max(f.width, Natural(f))
  {
    var pad := Max(0, f.width - Natural(f));
    if f.left then f.sign + f.prefix + Zeros(f.zeros) + f.payload + Spaces(pad)
    else if f.zeroPad then f.sign + f.prefix + Zeros(pad + f.zeros) + f.payload
    else Spaces(pad) + f.sign + f.prefix + Zeros(f.zeros) + f.payload
  }

  function SignText(negative: bool, prepend: char): string {
    if negative then "-" else if prepend != '\0' then [prepend] else ""
  }

  // ---------------------------------------------------------------------------------------------
  // Integers.

  function Base(c: Conv): (b: nat)
    ensures IsBase(b)
  {
    match c
    case Octal => 8
    case Hex => 16
    case Pointer => 16
    case Binary => 2
    case _ => 10
  }

  /** The value a conversion prints. */
  function IntegerValue(spec: Spec, bits: nat): int {
    if spec.conv.Signed? then AsSigned(bits, IntegerWidth(spec.length))
    else if spec.conv.Pointer? then bits % TWO64
    else bits % Pow(2, IntegerWidth(spec.length))
  }

  /** Zero with an explicit precision of zero has no digits. */
  predicate IsBlank(spec: Spec, bits: nat) {
    IntegerValue(spec, bits) == 0 && spec.precOpt != Absent && spec.prec == 0
  }

  function Magnitude(spec: Spec, bits: nat): nat {
    var v := IntegerValue(spec, bits);
    if v < 0 then -v else v
  }

  /** The digits as stored, least significant first, with the '0' that '#' puts before octal. */
  function StoredDigits(spec: Spec, bits: nat): seq<char>
    requires IsCase(spec.adj)
  {
    var v := Magnitude(spec, bits);
    if IsBlank(spec, bits) then []
    else Numeral(v, Base(spec.conv), spec.adj) + if spec.conv.Octal? && spec.alt && v != 0 then ['0'] else []
  }

  function IntegerPrefix(spec: Spec, bits: nat): string
    requires IsCase(spec.adj)
  {
    if Magnitude(spec, bits) == 0 || !spec.alt then ""
    else if spec.conv.Hex? || spec.conv.Pointer? then ['0', ('X' as int + spec.adj) as char]
    else if spec.conv.Binary? then ['0', ('B' as int + spec.adj) as char]
    else ""
  }

  /** Octal '#' raises the precision of a blank zero to one digit. */
  function DigitPrecision(spec: Spec, bits: nat): nat {
    if IsBlank(spec, bits) && spec.conv.Octal? && spec.alt then 1 else spec.prec
  }

  function IntegerField(spec: Spec, bits: nat): Field
    requires IsCase(spec.adj)
  {
    var digits := StoredDigits(spec, bits);
    var prec := DigitPrecision(spec, bits);
    var blank := IntegerValue(spec, bits) == 0 && spec.precOpt != Absent && prec == 0;
    Field(
      spec.left, spec.zeroPad && !spec.left && !blank, spec.width,
      if spec.conv.Signed? then SignText(IntegerValue(spec, bits) < 0, spec.prepend) else "",
      IntegerPrefix(spec, bits), Max(0, prec - |digits|), Reversed(digits))
  }

  // ---------------------------------------------------------------------------------------------
  // Floats: a number, or a text that the '0' flag does not pad.

  function FloatConversion(c: Conv): Conversion {
    match c
    case FloatDec => FloatF
    case FloatShortest => FloatG
    case _ => FloatE
  }

  /** What the conversion leaves in the buffer; text tells that it is no number. */
  function FloatText(cfg: Config, spec: Spec, bits: nat): (r: (seq<char>, bool))
    requires IsConfig(cfg) && IsFloat(spec.conv) && bits < BIN_MODULUS && IsCase(spec.adj)
  {
    match Decode(bits)
    case NotANumber => (SpecialText(NAN, spec.adj), true)
    case Infinity => (SpecialText(INF, spec.adj), true)
    case Number(x) =>
      if spec.conv.FloatHex? then (HexFloat.Text(x, spec.prec, spec.alt, spec.adj), false)
      else match FiniteOutput(cfg.B, cfg.C, x, FloatConversion(spec.conv), spec.prec, spec.alt, spec.adj)
      case Printed(t) => (t, false)
      case TooLong => (SpecialText(ERR, spec.adj), true)
  }

  function FloatPrefix(spec: Spec, bits: nat): string
    requires bits < BIN_MODULUS && IsCase(spec.adj)
  {
    if spec.conv.FloatHex? && Decode(bits).Number? then ['0', ('X' as int + spec.adj) as char] else ""
  }

  function FloatField(cfg: Config, spec: Spec, bits: nat): Field
    requires IsConfig(cfg) && IsFloat(spec.conv) && bits < BIN_MODULUS && IsCase(spec.adj)
  {
    var (t, isText) := FloatText(cfg, spec, bits);
    Field(
      spec.left, spec.zeroPad && !spec.left && !isText, spec.width,
      SignText(Negative(bits), spec.prepend), FloatPrefix(spec, bits), 0, Reversed(t))
  }

  // ---------------------------------------------------------------------------------------------
  // Strings and characters, which pad with zeros like numbers when told to.

  function StringPayload(spec: Spec, arg: Arg): string
    requires IsArg(arg, CharsKind)
  {
    match arg
    case Chars(s) => if spec.precOpt != Absent && spec.prec < |s| then s[..spec.prec] else s
    case _ => ""
  }

  function StringField(spec: Spec, arg: Arg): Field
    requires IsArg(arg, CharsKind)
  {
    Field(spec.left, spec.zeroPad && !spec.left, spec.width, "", "", 0, StringPayload(spec, arg))
  }

  function CharacterField(spec: Spec, c: char): Field {
    Field(spec.left, spec.zeroPad && !spec.left, spec.width, "", "", Max(0, spec.prec - 1), [c])
  }

  /** The field of a resolved specification; its own argument comes after the stars. */
  function FieldOf(cfg: Config, spec: Spec, arg: Arg): Field
    requires IsConfig(cfg) && IsCase(spec.adj)
    requires !spec.conv.Percent? ==>
               IsArg(arg, if IsFloat(spec.conv) then RealKind else if spec.conv.Text? then CharsKind else WordKind)
  {
    if spec.conv.Percent? then CharacterField(spec, '%')
    else if spec.conv.Character? then CharacterField(spec, (arg.bits % 256) as char)
    else if spec.conv.Text? then StringField(spec, arg)
    else if IsFloat(spec.conv) then FloatField(cfg, spec, arg.bits)
    else IntegerField(spec, arg.bits)
  }

  function OwnArg(spec: Spec, args: seq<Arg>): Arg
    requires Supplies(args, Demands(spec))
  {
    if spec.conv.Percent? then NullChars else args[|StarDemands(spec)|]
  }

  /** The characters one conversion specification emits. */
  function FieldText(cfg: Config, spec: Spec, args: seq<Arg>): string
    requires IsConfig(cfg) && IsCase(spec.adj) && Supplies(args, Demands(spec))
  {
    Layout(FieldOf(cfg, Resolved(spec, args), OwnArg(spec, args)))
  }

  // ---------------------------------------------------------------------------------------------
  // Whole formats.

  function StepAt(s: string, i: nat): (r: Parsed)
    requires IsCString(s) && i < |s|
    ensures r.Parsed? ==> i + 2 <= r.end <= |s| && IsCase(r.spec.adj)
  {
    if s[i] != '%' then Malformed else Parse(s, i)
  }

  /** The arguments are those the format asks for: the caller's side of the contract. */
  predicate ArgsMatch(s: string, i: nat, args: seq<Arg>)
    requires IsCString(s) && i <= |s|
    decreases |s| - i
  {
    i == |s| ||
    match StepAt(s, i)
    case Malformed => ArgsMatch(s, i + 1, args)
    case Parsed(spec, end) => Supplies(args, Demands(spec)) && ArgsMatch(s, end, args[|Demands(spec)|..])
  }

  /** Everything from s[i] on: fields for specifications, and every other character as it is. */
  function Render(cfg: Config, s: string, i: nat, args: seq<Arg>): string
    requires IsConfig(cfg) && IsCString(s) && i <= |s| && ArgsMatch(s, i, args)
    decreases |s| - i
  {
    if i == |s| then ""
    else match StepAt(s, i)
    case Malformed => [s[i]] + Render(cfg, s, i + 1, args)
    case Parsed(spec, end) => FieldText(cfg, spec, args) + Render(cfg, s, end, args[|Demands(spec)|..])
  }

  /** A string without a valid specification is echoed. */
  lemma {:induction false} EchoesVerbatim(cfg: Config, s: string, i: nat, args: seq<Arg>)
    requires IsConfig(cfg) && IsCString(s) && i <= |s|
    requires forall k :: i <= k < |s| ==> StepAt(s, k) == Malformed
    ensures ArgsMatch(s, i, args) && Render(cfg, s, i, args) == s[i..]
    decreases |s| - i
  {
    if i < |s| {
      assert StepAt(s, i) == Malformed;
      EchoesVerbatim(cfg, s, i + 1, args);
      assert s[i..] == [s[i]] + s[i + 1..];
    }
  }
}
