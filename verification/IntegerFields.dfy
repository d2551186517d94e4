/**
 * What an integer conversion prints, in the terms of its caller: the C types of the length
 * modifiers with their ranges written out, the radix, the sign, the prefix, the least count of
 * digits and the padding.
 */
module IntegerFields {
  import opened Arithmetic
  import opened Numerals
  import opened FormatSpec
  import opened Fields
  import opened FieldFacts

  /** The type an argument has: the least and the greatest value, LP64 with 32-bit int. */
  function Range(l: Length, signed: bool): (int, int) {
    match l
    case CharLength => if signed then (-128, 127) else (0, 255)
    case Short => if signed then (-32768, 32767) else (0, 65535)
    case NoLength | LongDouble => if signed then (-0x8000_0000, 0x7FFF_FFFF) else (0, 0xFFFF_FFFF)
    case _ => if signed then (-0x8000_0000_0000_0000, 0x7FFF_FFFF_FFFF_FFFF) else (0, 0xFFFF_FFFF_FFFF_FFFF)
  }

  /** Of the conversion: pointers are as wide as a long, whatever the modifier. */
  function TypeOf(spec: Spec): (int, int) {
    if spec.conv.Pointer? then Range(Long, false) else Range(spec.length, spec.conv.Signed?)
  }

  function Radix(conv: Conv): nat {
    match conv
    case Binary => 2
    case Octal => 8
    case Hex => 16
    case Pointer => 16
    case _ => 10
  }

  /** The word that carries v: v itself, modulo the count of values of its type. */
  predicate Carries(bits: nat, v: int, t: (int, int)) {
    t.0 <= v <= t.1 && (bits - v) % (t.1 - t.0 + 1) == 0
  }

  /** A value passed in 64 bits, sign-extended or not, is carried by them. */
  lemma PassedValue(v: int, l: Length, signed: bool)
    requires var t := Range(l, signed); t.0 <= v <= t.1
    ensures Carries(v % 0x1_0000_0000_0000_0000, v, Range(l, signed))
  {
    var t := Range(l, signed);
    var m, n := 0x1_0000_0000_0000_0000, t.1 - t.0 + 1;
    assert n == 0x100 || n == 0x1_0000 || n == 0x1_0000_0000 || n == m;
    var q := v / m;
    assert v % m - v == (0 - q) * m;
    assert (0 - q) * m == ((0 - q) * (m / n)) * n;
    MultipleOf((0 - q) * (m / n), n);
  }

  lemma MultipleOf(q: int, n: nat)
    requires n > 0
    ensures (q * n) % n == 0
  {
    DivModUnique(q * n, n, q, 0);
  }

  lemma WordPowers()
    ensures Pow(2, 8) == 0x100 && Pow(2, 16) == 0x1_0000 && Pow(2, 32) == 0x1_0000_0000
    ensures Pow(2, 64) == 0x1_0000_0000_0000_0000
    ensures Pow(2, 7) == 0x80 && Pow(2, 15) == 0x8000 && Pow(2, 31) == 0x8000_0000
    ensures Pow(2, 63) == 0x8000_0000_0000_0000
  {
    assert Pow(2, 4) == 16 && Pow(2, 3) == 8;
    hide *;
    PowAdd(2, 4, 4);
    PowAdd(2, 8, 8);
    PowAdd(2, 16, 16);
    PowAdd(2, 32, 32);
    PowAdd(2, 4, 3);
    PowAdd(2, 8, 7);
    PowAdd(2, 16, 15);
    PowAdd(2, 32, 31);
  }

  /** Two's complement of width w, half the count of values being p. */
  lemma SignedIs(bits: nat, v: int, w: nat, p: nat)
    requires w >= 1 && p >= 1 && Pow(2, w) == 2 * p && Pow(2, w - 1) == p
    requires 0 - p <= v < p && (bits - v) % (2 * p) == 0
    ensures AsSigned(bits, w) == v
  {
    var q := (bits - v) / (2 * p);
    assert bits == q * (2 * p) + v;
    if v >= 0 { DivModUnique(bits, 2 * p, q, v); } else {
      assert bits == (q - 1) * (2 * p) + (v + 2 * p);
      DivModUnique(bits, 2 * p, q - 1, v + 2 * p);
    }
  }

  lemma UnsignedIs(bits: nat, v: int, n: nat)
    requires 0 <= v < n && (bits - v) % n == 0
    ensures bits % n == v
  {
    DivModUnique(bits, n, (bits - v) / n, v);
  }

  /** The value a conversion takes from a word is the one the word carries. */
  lemma TakesValue(spec: Spec, bits: nat, v: int)
    requires IsInteger(spec.conv) && Carries(bits, v, TypeOf(spec))
    ensures IntegerValue(spec, bits) == v
  {
    var t := TypeOf(spec);
    WordPowers();
    if spec.conv.Signed? {
      var w := IntegerWidth(spec.length);
      SignedIs(bits, v, w, t.1 + 1);
    } else {
      UnsignedIs(bits, v, t.1 + 1);
    }
    hide Pow, AsSigned;
  }

  /** Zero with an explicit precision of zero prints no digits, but for octal with '#'. */
  predicate PrintsNothing(spec: Spec, v: int) {
    v == 0 && spec.precOpt != Absent && spec.prec == 0 && !(spec.conv.Octal? && spec.alt)
  }

  /**
   * Every value of the type its length modifier names, as it is passed: the field reads back, in
   * the radix of the conversion, as that value.
   */
  lemma ValueReadsBack(spec: Spec, bits: nat, v: int)
    requires IsInteger(spec.conv) && IsCase(spec.adj) && spec.prepend in ['\0', ' ', '+']
    requires Carries(bits, v, TypeOf(spec))
    ensures ReadInteger(Layout(IntegerField(spec, bits)), Radix(spec.conv)) ==
            if PrintsNothing(spec, v) then None else Some(v)
  {
    TakesValue(spec, bits, v);
    IntegerReadsBack(spec, bits);
    assert Radix(spec.conv) == Base(spec.conv);
    hide IntegerField, Layout, ReadInteger, IntegerValue, Carries;
  }

  // ---------------------------------------------------------------------------------------------
  // The text, mark by mark.

  /** The sign a conversion shows. */
  function SignMark(spec: Spec, v: int): string {
    if !spec.conv.Signed? then ""
    else if v < 0 then "-"
    else if spec.prepend == '+' then "+"
    else if spec.prepend == ' ' then " "
    else ""
  }

  /** The prefix '#' asks for; zero has none. */
  function PrefixMark(spec: Spec, v: int): string {
    if !spec.alt || v == 0 then ""
    else
      match spec.conv
      case Hex | Pointer => if spec.adj == 0 then "0X" else "0x"
      case Binary => if spec.adj == 0 then "0B" else "0b"
      case _ => ""
  }

  function NumeralMark(spec: Spec, v: int): string
    requires IsCase(spec.adj)
  {
    Reversed(Numeral(if v < 0 then 0 - v else v, Radix(spec.conv), spec.adj))
  }

  /** The least count of digits: what the precision asks for, and a 0 in front of octal with '#'. */
  function LeastDigits(spec: Spec, v: int): nat
    requires IsCase(spec.adj)
  {
    Max(spec.prec, |NumeralMark(spec, v)| + if spec.conv.Octal? && spec.alt && v != 0 then 1 else 0)
  }

  /**
   * The whole field of a value: blanks, sign, prefix, zeros, numeral, blanks; as wide as asked for,
   * blanks on the side '-' tells, zeros instead of them with '0', and no more zeros than that and
   * the precision call for.
   */
  lemma IntegerPrinted(spec: Spec, bits: nat, v: int) returns (a: nat, k: nat, b: nat)
    requires IsInteger(spec.conv) && IsCase(spec.adj) && spec.prepend in ['\0', ' ', '+']
    requires Carries(bits, v, TypeOf(spec)) && !PrintsNothing(spec, v)
    ensures var t, sign, prefix, num := Layout(IntegerField(spec, bits)), SignMark(spec, v), PrefixMark(spec, v), NumeralMark(spec, v);
            && t == Spaces(a) + sign + prefix + Zeros(k) + num + Spaces(b)
            && |t| == Max(spec.width, |sign| + |prefix| + LeastDigits(spec, v))
            && k + |num| >= LeastDigits(spec, v)
            && (a > 0 ==> !spec.left && !spec.zeroPad) && (b > 0 ==> spec.left)
            && (k + |num| > LeastDigits(spec, v) ==> spec.zeroPad && !spec.left)
  {
    FieldMarks(spec, bits, v);
    hide *;
    a, k, b := FieldShape(IntegerField(spec, bits), NumeralMark(spec, v));
  }

  /** A field around a numeral. */
  lemma FieldShape(f: Field, num: string) returns (a: nat, k: nat, b: nat)
    requires IsPayload(f.payload, num) && (f.payload == "" && num != "" ==> f.zeros >= 1)
    ensures var t, least := Layout(f), f.zeros + |f.payload|;
            && t == Spaces(a) + f.sign + f.prefix + Zeros(k) + num + Spaces(b)
            && |t| == Max(f.width, |f.sign| + |f.prefix| + least)
            && k + |num| >= least
            && (a > 0 ==> !f.left && !f.zeroPad) && (b > 0 ==> f.left)
            && (k + |num| > least ==> f.zeroPad && !f.left)
  {
    var z;
    a, z, b := LayoutShape(f);
    assert |Layout(f)| == Max(f.width, Natural(f));
    assert Natural(f) == |f.sign| + |f.prefix| + (f.zeros + |f.payload|);
    ZerosInFront(f.payload, num, z);
    k := z + |f.payload| - |num|;
    hide Layout, Spaces, Zeros, IsPayload, Natural;
    Regrouped(Spaces(a) + f.sign + f.prefix, Zeros(z), f.payload, Zeros(k), num);
  }

  lemma Regrouped(s: string, z: string, payload: string, z': string, num: string)
    requires z + payload == z' + num
    ensures s + z + payload == s + z' + num
  {
    assert s + z + payload == s + (z + payload);
    assert s + z' + num == s + (z' + num);
  }

  /** A payload is the numeral, or the numeral behind one zero, or nothing where the numeral is "0". */
  predicate IsPayload(payload: string, num: string) {
    payload == num || payload == "0" + num || (payload == "" && num == "0")
  }

  lemma ZerosInFront(payload: string, num: string, z: nat)
    requires IsPayload(payload, num) && (payload == "" && num != "" ==> z >= 1)
    ensures z + |payload| >= |num| && Zeros(z) + payload == Zeros(z + |payload| - |num|) + num
  {
    if payload == "0" + num {
      assert Zeros(z + 1) == Zeros(z) + "0";
      assert Zeros(z) + ("0" + num) == (Zeros(z) + "0") + num;
    } else if payload != num {
      assert Zeros(z - 1) + "0" == Zeros(z);
      assert Zeros(z) + "" == Zeros(z);
    }
  }

  lemma FieldMarks(spec: Spec, bits: nat, v: int)
    requires IsInteger(spec.conv) && IsCase(spec.adj) && spec.prepend in ['\0', ' ', '+']
    requires Carries(bits, v, TypeOf(spec)) && !PrintsNothing(spec, v)
    ensures var f, num := IntegerField(spec, bits), NumeralMark(spec, v);
            && f.sign == SignMark(spec, v) && f.prefix == PrefixMark(spec, v)
            && IsPayload(f.payload, num) && (f.payload == "" && num != "" ==> f.zeros >= 1)
            && f.zeros + |f.payload| == LeastDigits(spec, v)
            && f.width == spec.width && f.left == spec.left && (f.zeroPad <==> spec.zeroPad && !spec.left)
  {
    TakesValue(spec, bits, v);
    assert Radix(spec.conv) == Base(spec.conv);
    var n := if v < 0 then 0 - v else v;
    assert n == Magnitude(spec, bits);
    ZeroNumeral(Base(spec.conv), spec.adj);
    TailZero(Numeral(n, Base(spec.conv), spec.adj));
    hide Numeral, IntegerValue, Carries, Magnitude;
  }

  lemma ZeroNumeral(base: nat, adj: nat)
    requires IsBase(base) && IsCase(adj)
    ensures Reversed(Numeral(0, base, adj)) == "0" && |Numeral(0, base, adj)| == 1
  {
  }

  lemma TailZero(s: seq<char>)
    ensures Reversed(s + ['0']) == "0" + Reversed(s) && Reversed([]) == "" && s + [] == s
  {
  }
}
