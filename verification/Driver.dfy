/**
 * npf_vpprintf: the loop over the format and the emission of one field. The callback appends to the
 * sequence out, and the count is kept as the code keeps it, in bulk per conversion.
 */
module Driver {
  import opened Arithmetic
  import opened Numerals
  import opened Doubles
  import opened Unsigned
  import opened FormatSpec
  import opened SharedConversion
  import opened Fields
  import HexFloat

  // ---------------------------------------------------------------------------------------------
  // Star arguments, ceilings and defaults.

  lemma IntWord(bits: nat)
    requires bits < TWO64
    ensures var n := bits % TWO32; AsSigned(bits, INT_BITS) == if n <= INT_MAX then n else n - TWO32
  {
    WordSizes();
    assert Pow(2, WORD_BITS) == 2 * Pow(2, WORD_BITS - 1);
    hide Pow;
  }

  /** The magnitude is taken in unsigned arithmetic, where INT_MIN's is representable. */
  method StarWidth(bits: nat) returns (negative: bool, width: nat)
    requires bits < TWO64
    ensures var w := AsSigned(bits, INT_BITS);
            negative == (w < 0) && width == if w == 0 - INT_MAX - 1 then NUM_MAX else Max(w, 0 - w)
  {
    IntWord(bits);
    var n := bits % TWO32;
    ghost var v := AsSigned(bits, INT_BITS);
    hide *;
    negative, width := UnsignedMagnitude(n, v);
  }

  /** n is the signed 32-bit integer v, taken as unsigned. */
  method UnsignedMagnitude(n: nat, ghost v: int) returns (negative: bool, width: nat)
    requires n < TWO32 && v == if n <= INT_MAX then n else n - TWO32
    ensures negative == (v < 0) && width == if v == 0 - INT_MAX - 1 then NUM_MAX else Max(v, 0 - v)
  {
    var w := n;
    negative := false;
    if w > INT_MAX {
      w := (TWO32 - w) % TWO32;
      negative := true;
    }
    width := if w > INT_MAX then NUM_MAX else w;
  }

  method ResolveWidth(spec: Spec, args: seq<Arg>) returns (left: bool, width: nat)
    requires Supplies(args, Demands(spec))
    ensures left == WithWidth(spec, args).left && width == WithWidth(spec, args).width
  {
    left, width := spec.left, spec.width;
    if spec.widthStar {
      assert IsArg(args[0], Demands(spec)[0]);
      hide AsSigned, Demands;
      var negative;
      negative, width := StarWidth(args[0].bits);
      left := left || negative;
    }
    if width > NUM_MAX { width := NUM_MAX; }
  }

  method ResolvePrecision(spec: Spec, args: seq<Arg>) returns (opt: Opt, prec: int)
    requires Supplies(args, Demands(spec))
    ensures opt == WithPrecision(spec, args).precOpt && prec == WithPrecision(spec, args).prec
  {
    opt, prec := spec.precOpt, spec.prec;
    if opt == Star {
      var i := if spec.widthStar then 1 else 0;
      assert IsArg(args[i], Demands(spec)[i]);
      prec := AsSigned(args[i].bits, INT_BITS);
      if prec < 0 { opt := Absent; }
    }
    if prec > NUM_MAX { prec := NUM_MAX; }
    if opt == Absent {
      prec := 0;
      if spec.conv.Pointer? {
        prec := 16;
      } else if IsFloat(spec.conv) {
        prec := if spec.conv.FloatHex? then HexFloat.FRACTION_NIBBLES else 6;
      }
    }
  }

  method Resolve(spec: Spec, args: seq<Arg>) returns (r: Spec)
    requires Supplies(args, Demands(spec))
    ensures r == Resolved(spec, args)
  {
    hide WithWidth, WithPrecision;
    var left, width := ResolveWidth(spec, args);
    var opt, prec := ResolvePrecision(spec, args);
    r := spec.(left := left, width := width, precOpt := opt, prec := prec);
    if opt != Absent && (r.conv.Signed? || r.conv.Octal? || r.conv.Hex? || r.conv.Unsigned?) {
      r := r.(zeroPad := false);
    }
  }

  // ---------------------------------------------------------------------------------------------
  // Conversion of the argument into the buffer.

  function SignOf(c: char): string { if c == '\0' then "" else [c] }

  function PrefixOf(c: char): string { if c == '\0' then "" else ['0', c] }

  lemma SignTextIs(negative: bool, prepend: char)
    ensures SignOf(if negative then '-' else prepend) == SignText(negative, prepend)
  {
  }

  lemma IntegerValueBounds(spec: Spec, bits: nat)
    requires bits < TWO64
    ensures 0 - TWO64 <= 2 * IntegerValue(spec, bits) && IntegerValue(spec, bits) < TWO64
    ensures !spec.conv.Signed? ==> IntegerValue(spec, bits) >= 0
  {
    var w := IntegerWidth(spec.length);
    WordSizes();
    PowMonotone(2, w, 2 * WORD_BITS);
    assert Pow(2, w) == 2 * Pow(2, w - 1);
    hide Pow;
  }

  /** The length of the binary numeral: one shift per digit. */
  method BinLen(u: nat) returns (n: nat)
    ensures n == |Numeral(u, 2, 0)|
  {
    if u == 0 { return 1; }
    var v := u;
    n := 0;
    while v > 0
      invariant n + (if v > 0 then |Numeral(v, 2, 0)| else 0) == |Numeral(u, 2, 0)|
    {
      n := n + 1;
      v := v / 2;
    }
  }

  method ConvertInteger(cfg: Config, spec: Spec, bits: nat, cbuf: array<char>)
    returns (val: nat, len: nat, sign: char, need0x: char, prec: nat)
    requires cbuf.Length >= 23 && IsInteger(spec.conv) && bits < TWO64 && IsCase(spec.adj)
    modifies cbuf
    ensures val == Magnitude(spec, bits) && prec == DigitPrecision(spec, bits)
    ensures len == |StoredDigits(spec, bits)|
    ensures !spec.conv.Binary? ==> len <= cbuf.Length && cbuf[..len] == StoredDigits(spec, bits)
    ensures SignOf(sign) == IntegerField(spec, bits).sign && PrefixOf(need0x) == IntegerPrefix(spec, bits)
  {
    hide StoredDigits, IntegerPrefix, DigitPrecision;
    val, sign := SignAndMagnitude(spec, bits);
    len, need0x, prec := PutInteger(cfg, spec, bits, val, cbuf);
    hide Magnitude, IntegerValue, SignText, SignOf;
  }

  /** The sign, and the magnitude in unsigned arithmetic, which the most negative value has too. */
  method SignAndMagnitude(spec: Spec, bits: nat) returns (val: nat, sign: char)
    requires IsInteger(spec.conv) && bits < TWO64
    ensures val == Magnitude(spec, bits) < TWO64
    ensures SignOf(sign) == if spec.conv.Signed? then SignText(IntegerValue(spec, bits) < 0, spec.prepend) else ""
  {
    IntegerValueBounds(spec, bits);
    hide AsSigned;
    var sval := IntegerValue(spec, bits);
    sign := '\0';
    if spec.conv.Signed? {
      SignTextIs(sval < 0, spec.prepend);
      sign := if sval < 0 then '-' else spec.prepend;
      val := if sval < 0 then TWO64 + sval else sval;
      if sval < 0 { val := (TWO64 - val) % TWO64; }
    } else {
      val := sval;
    }
  }

  /** The digits, the '0' of octal '#', the letter of the other prefixes, and the precision. */
  method PutInteger(cfg: Config, spec: Spec, bits: nat, val: nat, cbuf: array<char>)
    returns (len: nat, need0x: char, prec: nat)
    requires cbuf.Length >= 23 && IsInteger(spec.conv) && IsCase(spec.adj) && val == Magnitude(spec, bits) < TWO64
    modifies cbuf
    ensures prec == DigitPrecision(spec, bits) && PrefixOf(need0x) == IntegerPrefix(spec, bits)
    ensures len == |StoredDigits(spec, bits)|
    ensures !spec.conv.Binary? ==> len <= cbuf.Length && cbuf[..len] == StoredDigits(spec, bits)
  {
    ZeroMagnitude(spec, bits);
    hide Numeral, IntegerValue, Magnitude;
    len, need0x, prec := 0, '\0', spec.prec;
    if val == 0 && spec.precOpt != Absent && prec == 0 {
      if spec.conv.Octal? && spec.alt { prec := 1; }
    } else {
      len := PutDigits(cfg, spec, val, cbuf);
      if val != 0 && spec.alt {
        if spec.conv.Octal? {
          cbuf[len] := '0';
          len := len + 1;
        } else if spec.conv.Hex? || spec.conv.Pointer? {
          need0x := ('X' as int + spec.adj) as char;
        } else if spec.conv.Binary? {
          need0x := ('B' as int + spec.adj) as char;
        }
      }
    }
  }

  /** The numeral, or for binary its length only: the bits are emitted from the value itself. */
  method PutDigits(cfg: Config, spec: Spec, val: nat, cbuf: array<char>) returns (len: nat)
    requires cbuf.Length >= 23 && val < TWO64 && IsCase(spec.adj)
    modifies cbuf
    ensures len == |Numeral(val, Base(spec.conv), spec.adj)|
    ensures !spec.conv.Binary? ==> len < cbuf.Length && cbuf[..len] == Numeral(val, Base(spec.conv), spec.adj)
  {
    if spec.conv.Binary? {
      len := BinLen(val);
      BinaryHasNoCase(val, spec.adj);
    } else {
      NumeralFits(val, Base(spec.conv), spec.adj);
      hide Numeral;
      len := UtoaRevEnd(val, cbuf, 0, Base(spec.conv), spec.adj, cfg.divisionFree);
      assert cbuf[..len] == cbuf[0..len];
    }
  }

  lemma {:induction false} BinaryHasNoCase(n: nat, adj: nat)
    requires IsCase(adj)
    ensures Numeral(n, 2, adj) == Numeral(n, 2, 0)
  {
    if n >= 2 { BinaryHasNoCase(n / 2, adj); }
  }

  method ConvertFloat(cfg: Config, spec: Spec, bits: nat, cbuf: array<char>)
    returns (len: nat, sign: char, need0x: char, zeroPad: bool)
    requires IsConfig(cfg) && cbuf.Length == cfg.C && IsFloat(spec.conv) && bits < BIN_MODULUS && IsCase(spec.adj)
    modifies cbuf
    ensures var (t, isText) := FloatText(cfg, spec, bits);
            && len == |t| <= cbuf.Length && cbuf[..len] == t && zeroPad == (spec.zeroPad && !isText)
    ensures SignOf(sign) == SignText(Negative(bits), spec.prepend) && PrefixOf(need0x) == FloatPrefix(spec, bits)
  {
    SignTextIs(Negative(bits), spec.prepend);
    hide Negative, Decode, HexFloat.Text, FiniteOutput;
    sign, need0x, zeroPad := if Negative(bits) then '-' else spec.prepend, '\0', spec.zeroPad;
    len := 0;
    if spec.conv.FloatHex? {
      len := HexFloat.AtoaRev(cbuf, bits, spec.prec, spec.alt, spec.adj, cfg.divisionFree);
    }
    if len > 0 {
      need0x := ('X' as int + spec.adj) as char;
    } else {
      HexIsNonempty(spec, bits);
      var n := EtoaRev(cfg.B, cbuf, bits, FloatConversion(spec.conv), spec.prec, spec.alt, spec.adj, cfg.divisionFree);
      if n < 0 {
        len := -n;
        zeroPad := false;
      } else {
        len := n;
      }
    }
  }

  lemma HexIsNonempty(spec: Spec, bits: nat)
    requires bits < BIN_MODULUS && IsCase(spec.adj)
    ensures match Decode(bits) case Number(x) => |HexFloat.Text(x, spec.prec, spec.alt, spec.adj)| > 0 case _ => true
  {
  }

  // ---------------------------------------------------------------------------------------------
  // Emission.

  /** The pad loops count below zero, so that a second one after the first does nothing. */
  method PutPad(out: seq<char>, c: char, pad: int) returns (out': seq<char>, pad': int)
    ensures out' == out + seq(Max(0, pad), _ => c) && pad' == Min(pad, 0) - 1
  {
    out', pad' := out, pad;
    var go := pad' > 0;
    pad' := pad' - 1;
    while go
      invariant if go then 0 <= pad' < pad else pad' == Min(pad, 0) - 1
      invariant out' == out + seq(Max(0, pad) - (if go then pad' + 1 else 0), _ => c)
      decreases go, pad'
    {
      out' := out' + [c];
      go := pad' > 0;
      pad' := pad' - 1;
    }
  }

  /**
   * Everything of the field f before its payload; pad is what is left for the loop behind it. The
   * padding by zeros is folded into the zeros of the precision.
   */
  method EmitBefore(out: seq<char>, left: bool, padC: char, width: nat, sign: char, need0x: char, precPad: nat,
      len: nat, ghost f: Field)
    returns (out': seq<char>, pad: int, specLen: nat)
    requires (padC == '0' && !left) || padC == ' '
    requires f == Field(left, padC == '0', width, SignOf(sign), PrefixOf(need0x), precPad, f.payload)
    requires len == |f.payload|
    ensures out' + f.payload + seq(Max(0, pad), _ => padC) == out + Layout(f) && specLen == |Layout(f)|
  {
    var zeros := precPad;
    specLen := len + (if sign != '\0' then 1 else 0) + (if need0x != '\0' then 2 else 0) + zeros;
    pad := width - specLen;
    if pad < 0 { pad := 0; }
    specLen := specLen + pad;
    ghost var full, before := pad, if left || padC == '0' then "" else Spaces(pad);
    if padC == '0' {
      zeros := zeros + pad;
      pad := 0;
    }
    out' := out;
    if !left {
      out', pad := PutPad(out', padC, pad);
    }
    assert out' == out + before;
    out' := PutHead(out', sign, need0x, zeros);
    LayoutParts(out, f, full, before, zeros, pad);
    assert seq(Max(0, pad), _ => padC) == Spaces(Max(0, pad));
  }

  lemma LayoutParts(out: seq<char>, f: Field, full: nat, before: string, zeros: nat, pad: int)
    requires !(f.left && f.zeroPad) && full == Max(0, f.width - Natural(f))
    requires before == if f.left || f.zeroPad then "" else Spaces(full)
    requires zeros == f.zeros + if f.zeroPad then full else 0
    requires Max(0, pad) == if f.left then full else 0
    ensures out + before + (f.sign + f.prefix + Zeros(zeros)) + f.payload + Spaces(Max(0, pad)) == out + Layout(f)
  {
    if !f.left { assert Spaces(Max(0, pad)) == ""; }
  }

  method PutHead(out: seq<char>, sign: char, need0x: char, zeros: nat) returns (out': seq<char>)
    ensures out' == out + (SignOf(sign) + PrefixOf(need0x) + Zeros(zeros))
  {
    out' := out;
    if sign != '\0' { out' := out' + [sign]; }
    if need0x != '\0' { out' := out' + ['0'] + [need0x]; }
    assert out' == out + (SignOf(sign) + PrefixOf(need0x));
    var k;
    out', k := PutPad(out', '0', zeros);
    assert seq(zeros, _ => '0') == Zeros(zeros);
  }

  /** The payload stands reversed in the buffer. */
  method PutReversed(out: seq<char>, cbuf: array<char>, len: nat) returns (out': seq<char>)
    requires len <= cbuf.Length
    ensures out' == out + Reversed(cbuf[..len])
  {
    var k := len;
    out' := out;
    ghost var text := Reversed(cbuf[..len]);
    while k > 0
      invariant 0 <= k <= len && out' == out + text[..len - k]
    {
      k := k - 1;
      out' := out' + [cbuf[k]];
      assert text[len - k - 1] == cbuf[k];
    }
  }

  method PutString(out: seq<char>, s: string, len: nat) returns (out': seq<char>)
    requires len <= |s|
    ensures out' == out + s[..len]
  {
    out' := out;
    for i := 0 to len
      invariant out' == out + s[..i]
    {
      out' := out' + [s[i]];
    }
  }

  lemma {:induction false} NumeralAt(n: nat, base: nat, adj: nat, i: nat)
    requires IsBase(base) && IsCase(adj) && i < |Numeral(n, base, adj)|
    ensures n / Pow(base, i) % base < 16 && Numeral(n, base, adj)[i] == DigitChar(n / Pow(base, i) % base, adj)
  {
    if i == 0 {
      assert n / 1 == n;
    } else {
      DivideShrinks(n, base);
      NumeralAt(n / base, base, adj, i - 1);
      DivDiv(n, base, Pow(base, i - 1));
    }
  }

  /** Bits from the top, straight from the value. */
  method PutBinary(out: seq<char>, val: nat, len: nat) returns (out': seq<char>)
    requires len == 0 || len == |Numeral(val, 2, 0)|
    ensures out' == out + if len == 0 then "" else Reversed(Numeral(val, 2, 0))
  {
    var k := len;
    out' := out;
    ghost var text := if len == 0 then "" else Reversed(Numeral(val, 2, 0));
    hide Numeral, Pow;
    while k > 0
      invariant 0 <= k <= len && out' == out + text[..len - k]
    {
      k := k - 1;
      var bit := Bit(val, k);
      out' := out' + [bit];
      assert text[len - k - 1] == Numeral(val, 2, 0)[k];
    }
  }

  method Bit(val: nat, k: nat) returns (c: char)
    requires k < |Numeral(val, 2, 0)|
    ensures c == Numeral(val, 2, 0)[k]
  {
    NumeralAt(val, 2, 0, k);
    hide Numeral;
    c := ('0' as int + val / Pow(2, k) % 2) as char;
  }

  /** One conversion, argument to characters: exactly its field, and its length for the count. */
  method OneField(cfg: Config, spec: Spec, arg: Arg, cbuf: array<char>, out: seq<char>)
    returns (out': seq<char>, specLen: nat)
    requires IsConfig(cfg) && cbuf.Length == cfg.C && IsCase(spec.adj)
    requires !spec.conv.Percent? ==>
               IsArg(arg, if IsFloat(spec.conv) then RealKind else if spec.conv.Text? then CharsKind else WordKind)
    modifies cbuf
    ensures var t := Layout(FieldOf(cfg, spec, arg)); out' == out + t && specLen == |t|
  {
    if IsFloat(spec.conv) {
      out', specLen := OneFloat(cfg, spec, arg.bits, cbuf, out);
    } else if IsInteger(spec.conv) {
      out', specLen := OneInteger(cfg, spec, arg.bits, cbuf, out);
    } else if spec.conv.Text? {
      out', specLen := OneString(spec, arg, out);
    } else {
      out', specLen := OneCharacter(spec, if spec.conv.Character? then (arg.bits % 256) as char else '%', cbuf, out);
    }
  }

  method OneFloat(cfg: Config, spec: Spec, bits: nat, cbuf: array<char>, out: seq<char>)
    returns (out': seq<char>, specLen: nat)
    requires IsConfig(cfg) && cbuf.Length == cfg.C && IsFloat(spec.conv) && bits < BIN_MODULUS && IsCase(spec.adj)
    modifies cbuf
    ensures var t := Layout(FloatField(cfg, spec, bits)); out' == out + t && specLen == |t|
  {
    hide FloatText, FloatPrefix, SignText, SignOf, PrefixOf, Layout, Negative;
    var len, sign, need0x, zeroPad := ConvertFloat(cfg, spec, bits, cbuf);
    out', specLen := EmitReversed(out, spec.left, zeroPad, spec.width, sign, need0x, 0, cbuf, len,
        FloatField(cfg, spec, bits));
  }

  /** A field whose payload is the reversed content of the buffer. */
  method EmitReversed(out: seq<char>, left: bool, zeroPad: bool, width: nat, sign: char, need0x: char,
      precPad: nat, cbuf: array<char>, len: nat, ghost f: Field)
    returns (out': seq<char>, specLen: nat)
    requires len <= cbuf.Length
    requires f == Field(left, zeroPad && !left, width, SignOf(sign), PrefixOf(need0x), precPad, Reversed(cbuf[..len]))
    ensures out' == out + Layout(f) && specLen == |Layout(f)|
  {
    hide Layout;
    var padC := if zeroPad && !left then '0' else ' ';
    var pad;
    out', pad, specLen := EmitBefore(out, left, padC, width, sign, need0x, precPad, len, f);
    out' := PutReversed(out', cbuf, len);
    out', pad := PutPad(out', padC, pad);
  }

  method OneInteger(cfg: Config, spec: Spec, bits: nat, cbuf: array<char>, out: seq<char>)
    returns (out': seq<char>, specLen: nat)
    requires IsConfig(cfg) && cbuf.Length == cfg.C && IsInteger(spec.conv) && bits < TWO64 && IsCase(spec.adj)
    modifies cbuf
    ensures var t := Layout(IntegerField(spec, bits)); out' == out + t && specLen == |t|
  {
    ZeroMagnitude(spec, bits);
    hide StoredDigits, IntegerPrefix, DigitPrecision, IntegerValue, Magnitude, SignText, SignOf, PrefixOf, Layout;
    var val, len, sign, need0x, prec := ConvertInteger(cfg, spec, bits, cbuf);
    var blank := val == 0 && spec.precOpt != Absent && prec == 0;
    var zeroPad := spec.zeroPad && !blank;
    var precPad := if prec > len then prec - len else 0;
    ghost var f := IntegerField(spec, bits);
    if spec.conv.Binary? {
      BinaryDigits(spec, bits);
      out', specLen := EmitBinary(out, spec.left, zeroPad, spec.width, sign, need0x, precPad, val, len, f);
    } else {
      out', specLen := EmitReversed(out, spec.left, zeroPad, spec.width, sign, need0x, precPad, cbuf, len, f);
    }
  }

  lemma ZeroMagnitude(spec: Spec, bits: nat)
    ensures Magnitude(spec, bits) == 0 <==> IntegerValue(spec, bits) == 0
  {
    hide IntegerValue;
  }

  lemma BinaryDigits(spec: Spec, bits: nat)
    requires spec.conv.Binary? && IsCase(spec.adj)
    ensures StoredDigits(spec, bits) == [] || StoredDigits(spec, bits) == Numeral(Magnitude(spec, bits), 2, 0)
  {
    BinaryHasNoCase(Magnitude(spec, bits), spec.adj);
    hide Numeral, Magnitude, IsBlank;
  }

  method EmitBinary(out: seq<char>, left: bool, zeroPad: bool, width: nat, sign: char, need0x: char,
      precPad: nat, val: nat, len: nat, ghost f: Field)
    returns (out': seq<char>, specLen: nat)
    requires len == 0 || len == |Numeral(val, 2, 0)|
    requires f == Field(left, zeroPad && !left, width, SignOf(sign), PrefixOf(need0x), precPad, f.payload)
    requires f.payload == (if len == 0 then "" else Reversed(Numeral(val, 2, 0)))
    ensures out' == out + Layout(f) && specLen == |Layout(f)|
  {
    hide Layout, Numeral;
    var padC := if zeroPad && !left then '0' else ' ';
    var pad;
    out', pad, specLen := EmitBefore(out, left, padC, width, sign, need0x, precPad, len, f);
    out' := PutBinary(out', val, len);
    out', pad := PutPad(out', padC, pad);
  }

  /** Counts up to the precision, or to the terminator; a null pointer counts as empty. */
  method MeasureString(spec: Spec, arg: Arg) returns (s: string, len: nat)
    requires IsArg(arg, CharsKind)
    ensures len <= |s| && s[..len] == StringPayload(spec, arg)
  {
    s, len := "", 0;
    if arg.Chars? {
      s := arg.s;
      while (spec.precOpt == Absent || len < spec.prec) && At(s, len) != '\0'
        invariant len <= |s| && (spec.precOpt != Absent ==> len <= spec.prec)
        decreases |s| - len
      {
        len := len + 1;
      }
    }
  }

  method OneString(spec: Spec, arg: Arg, out: seq<char>) returns (out': seq<char>, specLen: nat)
    requires IsArg(arg, CharsKind)
    ensures var t := Layout(StringField(spec, arg)); out' == out + t && specLen == |t|
  {
    hide Layout, StringPayload;
    var s, len := MeasureString(spec, arg);
    var padC := if spec.zeroPad && !spec.left then '0' else ' ';
    var pad;
    out', pad, specLen := EmitBefore(out, spec.left, padC, spec.width, '\0', '\0', 0, len, StringField(spec, arg));
    out' := PutString(out', s, len);
    out', pad := PutPad(out', padC, pad);
  }

  method OneCharacter(spec: Spec, c: char, cbuf: array<char>, out: seq<char>) returns (out': seq<char>, specLen: nat)
    requires cbuf.Length >= 1
    modifies cbuf
    ensures var t := Layout(CharacterField(spec, c)); out' == out + t && specLen == |t|
  {
    hide Layout;
    cbuf[0] := c;
    assert Reversed(cbuf[..1]) == [c];
    out', specLen := EmitReversed(out, spec.left, spec.zeroPad, spec.width, '\0', '\0',
        if spec.prec > 1 then spec.prec - 1 else 0, cbuf, 1, CharacterField(spec, c));
  }

  // ---------------------------------------------------------------------------------------------
  // The loop over the format.

  lemma OwnArgIs(spec: Spec, args: seq<Arg>)
    requires Supplies(args, Demands(spec))
    ensures !spec.conv.Percent? ==>
              IsArg(OwnArg(spec, args), if IsFloat(spec.conv) then RealKind else if spec.conv.Text? then CharsKind else WordKind)
  {
    if !spec.conv.Percent? {
      var k := |StarDemands(spec)|;
      assert IsArg(args[k], Demands(spec)[k]);
    }
  }

  /** The characters handed to the callback are those of Render, and the count returned is theirs. */
  method Vpprintf(cfg: Config, format: string, args: seq<Arg>) returns (out: seq<char>, n: nat)
    requires IsConfig(cfg) && IsCString(format) && ArgsMatch(format, 0, args)
    ensures out == Render(cfg, format, 0, args) && n == |out|
  {
    hide *;
    var cbuf := new char[cfg.C];
    out, n := [], 0;
    var cur, rest := 0, args;
    while cur < |format|
      invariant cur <= |format| && ArgsMatch(format, cur, rest)
      invariant out + Render(cfg, format, cur, rest) == Render(cfg, format, 0, args)
      invariant n == |out| && cbuf.Length == cfg.C
      decreases |format| - cur
    {
      var r := Malformed;
      if format[cur] == '%' { r := ParseFormatSpecEnd(format, cur); }
      RenderStep(cfg, format, cur, rest, r);
      match r
      case Malformed =>
        out := out + [format[cur]];
        n := n + 1;
        cur := cur + 1;
      case Parsed(spec, end) =>
        cur := end;
        var fs := Resolve(spec, rest);
        OwnArgIs(spec, rest);
        ResolvedKeeps(spec, rest);
        FieldTextIs(cfg, spec, rest);
        var specLen;
        out, specLen := OneField(cfg, fs, OwnArg(spec, rest), cbuf, out);
        n := n + specLen;
        rest := rest[|Demands(spec)|..];
    }
    RenderEnd(cfg, format, rest);
  }

  lemma ResolvedKeeps(spec: Spec, args: seq<Arg>)
    requires Supplies(args, Demands(spec))
    ensures Resolved(spec, args).conv == spec.conv && Resolved(spec, args).adj == spec.adj
  {
  }

  lemma RenderEnd(cfg: Config, s: string, args: seq<Arg>)
    requires IsConfig(cfg) && IsCString(s) && ArgsMatch(s, |s|, args)
    ensures Render(cfg, s, |s|, args) == ""
  {
  }

  lemma RenderStep(cfg: Config, s: string, i: nat, args: seq<Arg>, r: Parsed)
    requires IsConfig(cfg) && IsCString(s) && i < |s| && ArgsMatch(s, i, args)
    requires r == if s[i] == '%' then Parse(s, i) else Malformed
    ensures match r
            case Malformed => ArgsMatch(s, i + 1, args) && Render(cfg, s, i, args) == [s[i]] + Render(cfg, s, i + 1, args)
            case Parsed(spec, end) =>
              && i + 2 <= end <= |s| && IsCase(spec.adj) && Supplies(args, Demands(spec)) && |Demands(spec)| <= |args|
              && ArgsMatch(s, end, args[|Demands(spec)|..])
              && Render(cfg, s, i, args) == FieldText(cfg, spec, args) + Render(cfg, s, end, args[|Demands(spec)|..])
  {
    hide Parse, FieldText, Demands, Supplies;
    assert r == StepAt(s, i);
    if r.Parsed? { EnoughArgs(r.spec, args); }
  }

  lemma EnoughArgs(spec: Spec, args: seq<Arg>)
    requires Supplies(args, Demands(spec))
    ensures |Demands(spec)| <= |args|
  {
  }

  lemma FieldTextIs(cfg: Config, spec: Spec, args: seq<Arg>)
    requires IsConfig(cfg) && IsCase(spec.adj) && Supplies(args, Demands(spec))
    ensures FieldText(cfg, spec, args) == Layout(FieldOf(cfg, Resolved(spec, args), OwnArg(spec, args)))
  {
  }
}
