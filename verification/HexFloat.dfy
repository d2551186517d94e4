/** npf_atoa_rev, the hexadecimal float conversion, and what its text reads back as. */
module HexFloat {
  import opened Arithmetic
  import opened Numerals
  import opened Doubles
  import opened Unsigned

  const FRACTION_NIBBLES: nat := 13   // (52 + 3) / 4

  /** The printed exponent: zero is given exponent 0 rather than that of the subnormals. */
  function Exponent(x: Finite): int { if x.bin == 0 then 0 else x.exp }

  /** n / d to the nearest integer, halves up. */
  function RoundHalfUp(n: nat, d: nat): nat
    requires d > 0
  {
    (2 * n + d) / (2 * d)
  }

  /** The mantissa with prec hexadecimal fraction digits, its units digit on top. */
  function Mantissa(x: Finite, prec: nat): nat {
    RoundHalfUp(x.bin, Pow(16, FRACTION_NIBBLES - Min(prec, FRACTION_NIBBLES)))
  }

  function ExponentText(e: int, adj: nat): (s: seq<char>)
    requires IsCase(adj)
  {
    DecNumeral(if e < 0 then -e else e) + [if e < 0 then '-' else '+', ('P' as int + adj) as char]
  }

  function MantissaText(m: nat, prec: nat, point: bool, adj: nat): (s: seq<char>)
    requires IsCase(adj)
    ensures |s| == prec + 1 + if point then 1 else 0
  {
    Digits(m, prec, 16, adj) + (if point then ['.'] else []) + [DigitChar(m / Pow(16, prec) % 16, adj)]
  }

  function Text(x: Finite, prec: nat, alt: bool, adj: nat): (s: seq<char>)
    requires IsCase(adj)
  {
    var p := Min(prec, FRACTION_NIBBLES);
    ExponentText(Exponent(x), adj) + MantissaText(Mantissa(x, p), p, p > 0 || alt, adj)
  }

  // ---------------------------------------------------------------------------------------------
  // Rounding.

  predicate IsNearest(n: nat, d: nat, r: nat) { 2 * n - d < 2 * (r * d) <= 2 * n + d }

  /** Half up, and nothing else, is nearest with ties above. */
  lemma RoundHalfUpIsNearest(n: nat, d: nat, r: nat)
    requires d > 0
    ensures r == RoundHalfUp(n, d) <==> IsNearest(n, d, r)
  {
    var a, q := 2 * n + d, RoundHalfUp(n, d);
    DivModEquation(a, 2 * d);
    assert q * (2 * d) == 2 * (q * d);
    if r < q { MulMonotone(r + 1, q, d); assert (r + 1) * d == r * d + d; }
    if r > q { MulMonotone(q + 1, r, d); assert (q + 1) * d == q * d + d; }
  }

  /** Rounding on the top bit of the last nibble dropped is rounding all that was dropped. */
  lemma TopBitRounds(n: nat, k: nat)
    requires k > 0
    ensures var q := n / Pow(16, k - 1);
            RoundHalfUp(n, Pow(16, k)) == q / 16 + q / 8 % 2
  {
    var p := Pow(16, k - 1);
    assert Pow(16, k) == 16 * p;
    hide Pow;
    NibbleRounds(n, p);
  }

  lemma NibbleRounds(n: nat, p: nat)
    requires p > 0
    ensures var q := n / p; (2 * n + 16 * p) / (2 * (16 * p)) == q / 16 + q / 8 % 2
  {
    DivModEquation(n, p);
    EighthBit(n / p);
    hide *;
    NibbleFinish(n, n / p, n / p / 16 + n / p / 8 % 2, (n / p + 8) % 16, p, n % p);
  }

  lemma EighthBit(q: nat)
    ensures q + 8 == 16 * (q / 16 + q / 8 % 2) + (q + 8) % 16
  {
  }

  lemma NibbleFinish(n: nat, q: nat, h: nat, low: nat, p: nat, r: nat)
    requires n == q * p + r && r < p && q + 8 == 16 * h + low && low < 16
    ensures (2 * n + 16 * p) / (2 * (16 * p)) == h
  {
    NibbleEquation(q, h, low, p, r);
    NibbleRemainder(low, p, r);
    DivModUnique(2 * n + 16 * p, 2 * (16 * p), h, 2 * (low * p) + 2 * r);
  }

  lemma NibbleEquation(q: nat, h: nat, low: nat, p: nat, r: nat)
    requires q + 8 == 16 * h + low
    ensures 2 * (q * p + r) + 16 * p == h * (2 * (16 * p)) + (2 * (low * p) + 2 * r)
  {
    assert (q + 8) * p == q * p + 8 * p;
    assert (16 * h + low) * p == 16 * (h * p) + low * p;
    assert h * (2 * (16 * p)) == 32 * (h * p);
  }

  lemma NibbleRemainder(low: nat, p: nat, r: nat)
    requires low < 16 && r < p
    ensures 0 <= 2 * (low * p) + 2 * r < 2 * (16 * p)
  {
    MulMonotone(low + 1, 16, p);
    assert (low + 1) * p == low * p + p;
  }

  /** A carry out of the fraction ends up in the leading digit, which stays 0, 1 or 2. */
  lemma MantissaFits(x: Finite, prec: nat)
    requires IsFinite(x) && prec <= FRACTION_NIBBLES
    ensures Mantissa(x, prec) <= 2 * Pow(16, prec)
    ensures Mantissa(x, FRACTION_NIBBLES) == x.bin
    ensures Mantissa(x, prec) / Pow(16, prec) <= 2
  {
    var d, p := Pow(16, FRACTION_NIBBLES - prec), Pow(16, prec);
    assert Pow(16, 0) == 1;
    NibblePowers();
    PowAdd(16, FRACTION_NIBBLES - prec, prec);
    hide Pow;
    RoundHalfUpIsNearest(x.bin, d, Mantissa(x, prec));
    AtMostTwo(x.bin, d, p, Mantissa(x, prec));
    DivModEquation(Mantissa(x, prec), p);
    if Mantissa(x, prec) / p > 2 { MulMonotone(3, Mantissa(x, prec) / p, p); }
  }

  lemma AtMostTwo(n: nat, d: nat, p: nat, m: nat)
    requires d > 0 && p > 0 && n < 2 * (d * p) && 2 * (m * d) <= 2 * n + d
    ensures m <= 2 * p
  {
    assert (2 * p + 1) * d == 2 * (d * p) + d;
    if m > 2 * p { MulMonotone(2 * p + 1, m, d); }
  }

  lemma NibblePowers()
    ensures Pow(16, FRACTION_NIBBLES) == HIDDEN_BIT
  {
    assert Pow(16, 2) == 256 && Pow(16, 1) == 16;
    hide *;
    PowAdd(16, 2, 2);
    PowAdd(16, 4, 4);
    PowAdd(16, 8, 4);
    PowAdd(16, 12, 1);
  }

  // ---------------------------------------------------------------------------------------------
  // Reading a text back.

  /** How many decimal digits s starts with. */
  function DigitCount(s: seq<char>): (k: nat)
    ensures k <= |s|
  {
    if s != [] && '0' <= s[0] <= '9' then 1 + DigitCount(s[1..]) else 0
  }

  /** The characters of s other than the point, and how many come before it (all, if there is none). */
  function SplitAtPoint(s: seq<char>): (seq<char>, nat) {
    if s == [] then ([], 0)
    else if s[0] == '.' then (s[1..], 0)
    else var (t, k) := SplitAtPoint(s[1..]); ([s[0]] + t, k + 1)
  }

  datatype Reading = Reading(mantissa: nat, places: nat, exponent: int) | Unreadable

  /** Reads a reversed hexadecimal float: mantissa * 16^-places * 2^exponent. */
  function Read(s: seq<char>): Reading {
    var k := DigitCount(s);
    if k == 0 || k + 2 >= |s| || s[k] !in ['+', '-'] || s[k + 1] !in ['p', 'P'] then Unreadable
    else
      var e := Value(s[..k], 10);
      var (t, places) := SplitAtPoint(s[k + 2..]);
      Reading(Value(t, 16), if '.' in s[k + 2..] then places else 0, if s[k] == '-' then 0 - e else e)
  }

  lemma {:induction false} DigitCountIs(d: seq<char>, rest: seq<char>)
    requires forall i :: 0 <= i < |d| ==> '0' <= d[i] <= '9'
    requires rest != [] && !('0' <= rest[0] <= '9')
    ensures DigitCount(d + rest) == |d|
  {
    if d == [] {
      assert d + rest == rest;
    } else {
      assert (d + rest)[1..] == d[1..] + rest;
      DigitCountIs(d[1..], rest);
    }
  }

  lemma {:induction false} SplitIs(low: seq<char>, high: seq<char>, point: bool)
    requires '.' !in low && '.' !in high
    ensures SplitAtPoint(low + (if point then ['.'] else []) + high) ==
            (low + high, if point then |low| else |low| + |high|)
    decreases |low| + |high|
  {
    var s := low + (if point then ['.'] else []) + high;
    if low != [] {
      assert s[1..] == low[1..] + (if point then ['.'] else []) + high;
      SplitIs(low[1..], high, point);
      assert low + high == [low[0]] + (low[1..] + high);
    } else if point {
      assert s[1..] == high && low + high == high;
    } else if high != [] {
      assert s == high && s[1..] == [] + [] + high[1..];
      SplitIs([], high[1..], false);
      assert low + high == [high[0]] + ([] + high[1..]);
    }
  }

  lemma {:induction false} NoPointInDigits(n: nat, k: nat, adj: nat)
    requires IsCase(adj)
    ensures '.' !in Digits(n, k, 16, adj)
  {
    if k > 0 { NoPointInDigits(n / 16, k - 1, adj); }
  }

  lemma {:induction false} DigitsGrow(n: nat, k: nat, adj: nat)
    requires IsCase(adj)
    ensures Digits(n, k + 1, 16, adj) == Digits(n, k, 16, adj) + [DigitChar(n / Pow(16, k) % 16, adj)]
  {
    if k == 0 {
      assert Digits(n / 16, 0, 16, adj) == [] && n / 1 == n;
    } else {
      DigitsGrow(n / 16, k - 1, adj);
      DivDiv(n, 16, Pow(16, k - 1));
    }
  }

  lemma ReadIs(d: seq<char>, sign: char, letter: char, body: seq<char>)
    requires d != [] && (forall i :: 0 <= i < |d| ==> '0' <= d[i] <= '9') && body != []
    requires (sign == '+' || sign == '-') && (letter == 'p' || letter == 'P')
    ensures var (t, places) := SplitAtPoint(body);
            Read(d + [sign, letter] + body) ==
            Reading(Value(t, 16), if '.' in body then places else 0, if sign == '-' then 0 - Value(d, 10) else Value(d, 10))
  {
    var tail := [sign, letter] + body;
    var s := d + [sign, letter] + body;
    assert s == d + tail;
    DigitCountIs(d, tail);
    assert s[..|d|] == d && s[|d| + 2..] == body && s[|d|] == sign && s[|d| + 1] == letter;
    hide Value, SplitAtPoint, DigitCount;
  }

  /** What is printed reads back as the same mantissa digits, in as many places, and exponent. */
  lemma ReadText(m: nat, prec: nat, point: bool, e: int, adj: nat)
    requires IsCase(adj) && m < Pow(16, prec + 1) && (prec > 0 ==> point)
    ensures Read(ExponentText(e, adj) + MantissaText(m, prec, point, adj)) == Reading(m, prec, e)
  {
    var a := if e < 0 then -e else e;
    NumeralIsText(a);
    NumeralValue(a, 10, 0);
    MantissaReads(m, prec, point, adj);
    hide Numeral, Digits, Value, MantissaText, Read, SplitAtPoint, Pow;
    ReadIs(DecNumeral(a), if e < 0 then '-' else '+', ('P' as int + adj) as char, MantissaText(m, prec, point, adj));
  }

  lemma MantissaReads(m: nat, prec: nat, point: bool, adj: nat)
    requires IsCase(adj) && m < Pow(16, prec + 1)
    ensures var body := MantissaText(m, prec, point, adj);
            && SplitAtPoint(body) == (Digits(m, prec + 1, 16, adj), if point then prec else prec + 1)
            && Value(Digits(m, prec + 1, 16, adj), 16) == m
            && ('.' in body <==> point)
  {
    var low, high := Digits(m, prec, 16, adj), [DigitChar(m / Pow(16, prec) % 16, adj)];
    NoPointInDigits(m, prec, adj);
    DigitsGrow(m, prec, adj);
    DigitsValue(m, prec + 1, 16, adj);
    DivModUnique(m, Pow(16, prec + 1), 0, m);
    hide Digits, Value, Pow;
    SplitIs(low, high, point);
    if point { assert MantissaText(m, prec, point, adj)[prec] == '.'; }
  }

  /** At 13 places and more nothing is lost: any finite double reads back bit for bit. */
  lemma RoundTrip(x: Finite, prec: nat, alt: bool, adj: nat)
    requires IsFinite(x) && IsCase(adj) && prec >= FRACTION_NIBBLES
    ensures Read(Text(x, prec, alt, adj)) == Reading(x.bin, 13, if x.bin == 0 then 0 else x.exp)
  {
    MantissaFits(x, FRACTION_NIBBLES);
    NibblePowers();
    assert Pow(16, FRACTION_NIBBLES + 1) == 16 * Pow(16, FRACTION_NIBBLES);
    hide Mantissa, Pow, Read;
    ReadText(x.bin, FRACTION_NIBBLES, true, Exponent(x), adj);
  }

  /** At fewer places it reads back as the mantissa rounded there, halves up, carry included. */
  lemma RoundedReading(x: Finite, prec: nat, alt: bool, adj: nat)
    requires IsFinite(x) && IsCase(adj) && prec <= FRACTION_NIBBLES
    ensures var m := Mantissa(x, prec);
            && Read(Text(x, prec, alt, adj)) == Reading(m, prec, if x.bin == 0 then 0 else x.exp)
            && IsNearest(x.bin, Pow(16, FRACTION_NIBBLES - prec), m)
  {
    MantissaFits(x, prec);
    RoundHalfUpIsNearest(x.bin, Pow(16, FRACTION_NIBBLES - prec), Mantissa(x, prec));
    assert Pow(16, prec + 1) == 16 * Pow(16, prec);
    hide RoundHalfUp, Pow, Read, IsFinite;
    ReadText(Mantissa(x, prec), prec, prec > 0 || alt, Exponent(x), adj);
  }

  lemma TextLength(x: Finite, prec: nat, alt: bool, adj: nat)
    requires IsFinite(x) && IsCase(adj)
    ensures |Text(x, prec, alt, adj)| <= 21
  {
    var e := Exponent(x);
    var a := if e < 0 then -e else e;
    NumeralLength(a, 10, 0);
    assert Pow(10, 4) == 10000;
    hide Pow, Numeral;
    if |DecNumeral(a)| > 4 { PowMonotone(10, 4, |DecNumeral(a)| - 1); }
  }

  // ---------------------------------------------------------------------------------------------
  // The conversion.

  /** Discards low nibbles, rounding on the top bit of the last of them. */
  method DropNibbles(bin: nat, k: nat) returns (m: nat)
    ensures m == RoundHalfUp(bin, Pow(16, k))
  {
    var carry := 0;
    m := bin;
    assert Pow(16, 0) == 1 && bin / 1 == bin;
    var i := k;
    while i > 0
      invariant 0 <= i <= k
      invariant m == bin / Pow(16, k - i)
      invariant i == k ==> carry == 0
      invariant i < k ==> carry == bin / Pow(16, k - i - 1) / 8 % 2
    {
      DivDiv(bin, Pow(16, k - i), 16);
      assert Pow(16, k - i + 1) == Pow(16, k - i) * 16;
      carry := m / 8 % 2;
      m := m / 16;
      i := i - 1;
    }
    if k > 0 {
      TopBitRounds(bin, k);
      DivDiv(bin, Pow(16, k - 1), 16);
      assert Pow(16, k) == Pow(16, k - 1) * 16;
    }
    m := m + carry;
  }

  /** Zero stands for infinities and NaN, which the caller converts otherwise. */
  method AtoaRev(buf: array<char>, bits: nat, precision: nat, alt: bool, adj: nat, divisionFree: bool)
    returns (end: nat)
    requires bits < BIN_MODULUS && IsCase(adj) && buf.Length >= 23
    modifies buf
    ensures match Decode(bits)
            case Number(x) =>
              var t := Text(x, precision, alt, adj);
              end == |t| <= 21 && buf[..end] == t
            case _ => end == 0
  {
    match Decode(bits)
    case Number(x) =>
      TextLength(x, precision, alt, adj);
      var prec := if precision < FRACTION_NIBBLES then precision else FRACTION_NIBBLES;
      MantissaFits(x, prec);
      TextIs(x, precision, prec, alt, adj);
      hide *;
      var m := DropNibbles(x.bin, FRACTION_NIBBLES - prec);
      end := LayHex(buf, m, if x.bin == 0 then 0 else x.exp, prec, alt, adj, divisionFree);
    case _ =>
      end := 0;
  }

  lemma TextIs(x: Finite, precision: nat, prec: nat, alt: bool, adj: nat)
    requires IsFinite(x) && IsCase(adj) && prec == Min(precision, FRACTION_NIBBLES)
    ensures var e := if x.bin == 0 then 0 else x.exp;
            && -1023 <= e <= 1023 && FRACTION_NIBBLES - prec >= 0
            && Mantissa(x, prec) == RoundHalfUp(x.bin, Pow(16, FRACTION_NIBBLES - prec))
            && Text(x, precision, alt, adj) == ExponentText(e, adj) + MantissaText(Mantissa(x, prec), prec, prec > 0 || alt, adj)
  {
    hide ExponentText, MantissaText, RoundHalfUp, Pow;
  }

  method LayHex(buf: array<char>, mantissa: nat, exp: int, prec: nat, alt: bool, adj: nat, divisionFree: bool)
    returns (end: nat)
    requires IsCase(adj) && -1023 <= exp <= 1023 && mantissa / Pow(16, prec) <= 2
    requires |ExponentText(exp, adj) + MantissaText(mantissa, prec, prec > 0 || alt, adj)| <= buf.Length
    modifies buf
    ensures var t := ExponentText(exp, adj) + MantissaText(mantissa, prec, prec > 0 || alt, adj);
            end == |t| && buf[..end] == t
  {
    hide Numeral, Digits, Pow;
    ghost var head := ExponentText(exp, adj);
    end := UtoaRevEnd(if exp < 0 then 0 - exp else exp, buf, 0, 10, 0, divisionFree);
    assert buf[..end] == buf[0..end];
    end := Append(buf, end, if exp < 0 then '-' else '+', buf[..end]);
    end := Append(buf, end, ('P' as int + adj) as char, buf[..end]);
    assert buf[..end] == head;
    var bin;
    bin, end := LayNibbles(buf, end, mantissa, prec, adj, head);
    if prec > 0 || alt {
      end := Append(buf, end, '.', buf[..end]);
    }
    LeadIs(bin, adj);
    end := Append(buf, end, ('0' as int + bin % 16) as char, buf[..end]);
  }

  lemma LeadIs(d: nat, adj: nat)
    requires d <= 2 && IsCase(adj)
    ensures ('0' as int + d % 16) as char == DigitChar(d % 16, adj)
  {
  }

  method Append(buf: array<char>, end: nat, c: char, ghost text: seq<char>) returns (end': nat)
    requires end < buf.Length && buf[..end] == text
    modifies buf
    ensures end' == end + 1 && buf[..end'] == text + [c]
  {
    buf[end] := c;
    end' := end + 1;
  }

  /** The fraction digits, lowest nibble first. */
  method LayNibbles(buf: array<char>, at: nat, mantissa: nat, prec: nat, adj: nat, ghost head: seq<char>)
    returns (bin: nat, end: nat)
    requires at + prec <= buf.Length && IsCase(adj) && buf[..at] == head
    modifies buf
    ensures bin == mantissa / Pow(16, prec) && end == at + prec
    ensures buf[..end] == head + Digits(mantissa, prec, 16, adj)
  {
    bin, end := mantissa, at;
    assert Pow(16, 0) == 1 && mantissa / 1 == mantissa;
    var i := 0;
    while i < prec
      invariant 0 <= i <= prec && end == at + i
      invariant bin == mantissa / Pow(16, i)
      invariant buf[..end] == head + Digits(mantissa, i, 16, adj)
    {
      DigitsGrow(mantissa, i, adj);
      DivDiv(mantissa, Pow(16, i), 16);
      assert Pow(16, i + 1) == Pow(16, i) * 16;
      end := Append(buf, end, DigitChar(bin % 16, adj), buf[..end]);
      bin := bin / 16;
      i := i + 1;
    }
  }
}
