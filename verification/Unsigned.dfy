/** Unsigned integers to text: division by ten without dividing, and the digit emitters. */
module Unsigned {
  import opened Arithmetic
  import opened Numerals

  const TWO32: nat := 0x1_0000_0000
  const TWO64: nat := 0x1_0000_0000_0000_0000

  /** A 32-bit word; being a newtype, every operation below is checked not to wrap. */
  newtype uint32 = n: int | 0 <= n < 0x1_0000_0000

  // ---------------------------------------------------------------------------------------------
  // npf_bin_shr and npf_bin_shl

  /** Shifting right at once, or bit by bit where the hardware has no wide shifter. */
  method BinShr(v: nat, s: nat, divisionFree: bool) returns (r: nat)
    requires v < TWO64
    ensures r == Shr(v, s)
  {
    if !divisionFree { return v / Pow(2, s); }
    r := v;
    assert Pow(2, 0) == 1 && v / 1 == v;
    for i := 0 to s
      invariant r == v / Pow(2, i)
    {
      DivDiv(v, Pow(2, i), 2);
      assert Pow(2, i + 1) == Pow(2, i) * 2;
      r := r / 2;
    }
  }

  /** Shifting left within 64 bits; what leaves the word on the way is gone either way. */
  method BinShl(v: nat, s: nat, divisionFree: bool) returns (r: nat)
    requires v < TWO64
    ensures r == Shl(v, s) % TWO64
  {
    if !divisionFree { return (v * Pow(2, s)) % TWO64; }
    r := v;
    assert Pow(2, 0) == 1 && v * 1 == v;
    for i := 0 to s
      invariant r == (v * Pow(2, i)) % TWO64
    {
      assert Pow(2, i + 1) == Pow(2, i) * 2;
      MulAssoc(v, Pow(2, i), 2);
      DoubleInWord(v * Pow(2, i));
      r := (r * 2) % TWO64;
    }
  }

  lemma DoubleInWord(n: nat)
    ensures (n % TWO64 * 2) % TWO64 == (n * 2) % TWO64
  {
    DivModEquation(n, TWO64);
    DivModEquation(n % TWO64 * 2, TWO64);
    var q, q' := n / TWO64, n % TWO64 * 2 / TWO64;
    DivModUnique(n * 2, TWO64, 2 * q + q', n % TWO64 * 2 % TWO64);
  }

  // ---------------------------------------------------------------------------------------------
  // npf_div10

  /** Four shift-and-add refinements of n * 4/5, an eighth of it, and one correction. */
  method Div10(n: uint32) returns (r: uint32)
    ensures r as int == n as int / 10
  {
    var a := n / 2 + n / 4;
    var b := a + a / 16;
    var c := b + b / 256;
    assert a <= n && b <= n && 256 * (c as int) <= 257 * (b as int);
    var d := c + c / 65536;
    var q := d / 8;
    Div10Estimate(n as int, a as int, b as int, c as int, d as int, q as int);
    assert q as int * 10 <= n as int;
    r := q + (n - q * 10 + 6) / 16;
    assert (n as int - q as int * 10 + 6) / 16 == if n as int - q as int * 10 >= 10 then 1 else 0;
  }

  /** The estimate is never above n / 10 and at most one below it: the remainder stays under 20. */
  lemma Div10Estimate(n: nat, a: nat, b: nat, c: nat, d: nat, q: nat)
    requires n < TWO32
    requires 3 * n - 5 <= 4 * a <= 3 * n
    requires 17 * a - 15 <= 16 * b <= 17 * a
    requires 257 * b - 255 <= 256 * c <= 257 * b
    requires 65537 * c - 65535 <= 65536 * d <= 65537 * c
    requires d - 7 <= 8 * q <= d
    ensures 0 <= n - 10 * q <= 19
  {
  }

  // ---------------------------------------------------------------------------------------------
  // Division by five, as the float scaling does it: man / 5 and the carry its remainder leaves.

  method DivideByFive(man: nat, carry: nat) returns (q: nat, c: nat)
    requires carry <= 1
    ensures q == man / 5 && c == (man % 5 + carry + 1) / 4
  {
    c := (man % 5 + carry + 1) / 4;
    q := man / 5;
  }

  /** n/5 = 2*(n/10) + (n%10 >= 5), for conversion integers of at most 32 bits. */
  method DivideByFiveDivisionFree(man: nat, carry: nat) returns (q: nat, c: nat)
    requires man < TWO32 && carry <= 1
    ensures q == man / 5 && c == (man % 5 + carry + 1) / 4
  {
    var tenth := Div10(man as uint32);
    var r := man as uint32 - tenth * 10;
    var twice := tenth * 2;
    if r >= 5 {
      r := r - 5;
      twice := twice + 1;
    }
    q := twice as nat;
    c := (r as nat + carry + 1) / 4;
  }

  // ---------------------------------------------------------------------------------------------
  // npf_utoa_rev_end

  /** Shift-and-subtract long division, one quotient bit per step from the top. */
  method LongDivide(val: nat, base: nat) returns (q: nat, r: nat)
    requires val < TWO64 && IsBase(base)
    ensures q == val / base && r == val % base
  {
    q, r := 0, 0;
    var i := 63;
    ghost var k: nat := 0;  // the quotient of the bits brought down so far
    TopBits(val, i + 1);
    while i >= 0
      invariant -1 <= i <= 63
      invariant IsPartial(val, q, r, k, i + 1, base)
    {
      BringDown(val, q, r, k, i, base);
      r := 2 * r + val / Pow(2, i) % 2;
      k := 2 * k;
      if r >= base {
        r := r - base;
        q := q + Pow(2, i);
        k := k + 1;
      }
      i := i - 1;
    }
    LastBit(val, q, r, k, base);
  }

  /** The division of val's bits from position i up, its quotient k in place within q. */
  ghost predicate IsPartial(val: nat, q: nat, r: nat, k: nat, i: nat, base: nat) {
    r < base && q == k * Pow(2, i) && val / Pow(2, i) == k * base + r
  }

  lemma BringDown(val: nat, q: nat, r: nat, k: nat, i: nat, base: nat)
    requires IsPartial(val, q, r, k, i + 1, base)
    ensures var r' := 2 * r + val / Pow(2, i) % 2;
            && r' < 2 * base
            && (r' < base ==> IsPartial(val, q, r', 2 * k, i, base))
            && (r' >= base ==> IsPartial(val, q + Pow(2, i), r' - base, 2 * k + 1, i, base))
  {
    var p := Pow(2, i);
    assert Pow(2, i + 1) == 2 * p;
    DivDiv(val, p, 2);
    hide Pow;
    BringDownStep(val / p, q, r, k, p, base);
  }

  lemma BringDownStep(v: nat, q: nat, r: nat, k: nat, p: nat, base: nat)
    requires q == k * (2 * p) && v / 2 == k * base + r
    ensures q == (2 * k) * p && q + p == (2 * k + 1) * p
    ensures v == (2 * k) * base + (2 * r + v % 2) && (2 * k + 1) * base == (2 * k) * base + base
  {
    assert (2 * k) * base == 2 * (k * base);
  }

  lemma LastBit(val: nat, q: nat, r: nat, k: nat, base: nat)
    requires IsPartial(val, q, r, k, 0, base)
    ensures q == val / base && r == val % base
  {
    assert Pow(2, 0) == 1 && k * 1 == k && val / 1 == val;
    DivModUnique(val, base, k, r);
  }

  lemma TopBits(val: nat, n: nat)
    requires val < TWO64 && n == 64
    ensures val / Pow(2, n) == 0
  {
    assert n == 2 * WORD_BITS;
    hide *;
    WordSizes();
    DivModUnique(val, Pow(2, n), 0, val);
  }

  const WORD_BITS: nat := 32

  lemma WordSizes()
    ensures Pow(2, WORD_BITS) == TWO32 && Pow(2, 2 * WORD_BITS) == TWO64
  {
    assert Pow(2, 4) == 16;
    hide *;
    PowAdd(2, 4, 4);
    PowAdd(2, 8, 8);
    PowAdd(2, 16, 16);
    PowAdd(2, 32, 32);
  }

  /** The bitwise and of two numbers. */
  function And(a: nat, b: nat): nat {
    if a == 0 || b == 0 then 0 else (a % 2) * (b % 2) + 2 * And(a / 2, b / 2)
  }

  /** Masking with 2^k - 1 is taking the remainder by 2^k. */
  lemma {:induction false} MaskIsMod(v: nat, k: nat)
    ensures And(v, Pow(2, k) - 1) == v % Pow(2, k)
  {
    if k == 0 {
      assert v % 1 == 0;
    } else {
      var p := Pow(2, k - 1);
      assert (2 * p - 1) / 2 == p - 1 && (2 * p - 1) % 2 == 1;
      MaskIsMod(v / 2, k - 1);
      DivDiv(v, 2, p);
    }
  }

  predicate IsPrintBase(base: nat) { base == 8 || base == 10 || base == 16 }

  /** One digit of a 32-bit value: by division, or by npf_div10 or a mask and a shift. */
  method NextDigit(v: nat, base: nat, divisionFree: bool) returns (d: nat, rest: nat)
    requires v < TWO32 && IsPrintBase(base)
    ensures d == v % base && rest == v / base
  {
    if divisionFree {
      if base == 10 {
        var q := Div10(v as uint32);
        d := (v as uint32 - q * 10) as nat;
        rest := q as nat;
      } else {
        var shift := (base + 16) / 8;
        assert base == Pow(2, shift) by {
          assert Pow(2, 3) == 8 && Pow(2, 4) == 16;
          assert shift == if base == 8 then 3 else 4;
        }
        MaskIsMod(v, shift);
        d := And(v, base - 1);
        rest := v / Pow(2, shift);
      }
    } else {
      d := v % base;
      rest := v / base;
    }
  }

  lemma NumeralUnfolds(n: nat, base: nat, adj: nat)
    requires IsBase(base) && IsCase(adj)
    ensures n % base < 16
    ensures Numeral(n, base, adj) ==
            [DigitChar(n % base, adj)] + if n / base == 0 then [] else Numeral(n / base, base, adj)
  {
    if n < base { DivModUnique(n, base, 0, n); } else { DivideShrinks(n, base); }
  }

  /** Takes a value beyond 32 bits down digit by digit with the long division. */
  method WideDigits(val: nat, buf: array<char>, start: nat, base: nat, adj: nat) returns (v: nat, end: nat)
    requires val < TWO64 && IsPrintBase(base) && IsCase(adj)
    requires start + |Numeral(val, base, adj)| <= buf.Length
    modifies buf
    ensures v < TWO32 && start <= end <= buf.Length
    ensures buf[start..end] + Numeral(v, base, adj) == Numeral(val, base, adj)
    ensures buf[..start] == old(buf[..start])
    ensures forall i :: end <= i < buf.Length ==> buf[i] == old(buf[i])
  {
    hide Numeral;
    ghost var text := Numeral(val, base, adj);
    v := val;
    end := start;
    while v >= TWO32
      invariant start <= end <= buf.Length && v <= val
      invariant buf[start..end] + Numeral(v, base, adj) == text
      invariant buf[..start] == old(buf[..start])
      invariant forall i :: end <= i < buf.Length ==> buf[i] == old(buf[i])
      decreases v
    {
      NumeralUnfolds(v, base, adj);
      DivideShrinks(v, base);
      var q, r := LongDivide(v, base);
      PutDigit(buf, start, end, r, adj, Numeral(v, base, adj), text);
      end := end + 1;
      v := q;
    }
  }

  /** The digits of what is left, at least one of them, with 32-bit steps. */
  method NarrowDigits(val: nat, buf: array<char>, start: nat, base: nat, adj: nat, divisionFree: bool)
    returns (end: nat)
    requires val < TWO32 && IsPrintBase(base) && IsCase(adj)
    requires start + |Numeral(val, base, adj)| <= buf.Length
    modifies buf
    ensures end == start + |Numeral(val, base, adj)| && buf[start..end] == Numeral(val, base, adj)
    ensures buf[..start] == old(buf[..start])
    ensures forall i :: end <= i < buf.Length ==> buf[i] == old(buf[i])
  {
    hide Numeral, DigitChar;
    ghost var text := Numeral(val, base, adj);
    var v: nat, more := val, true;
    end := start;
    while more
      invariant start <= end <= buf.Length && v < TWO32
      invariant buf[start..end] + (if more then Numeral(v, base, adj) else []) == text
      invariant buf[..start] == old(buf[..start])
      invariant forall i :: end <= i < buf.Length ==> buf[i] == old(buf[i])
      decreases more, v
    {
      NumeralUnfolds(v, base, adj);
      if v >= base { DivideShrinks(v, base); }
      var d, rest := NextDigit(v, base, divisionFree);
      PutDigit(buf, start, end, d, adj, Numeral(v, base, adj), text);
      end := end + 1;
      more := rest != 0;
      v := rest;
    }
  }

  /**
   * Writes the reversed canonical numeral of val at buf[start..]: the part beyond 32 bits first,
   * then the rest with the narrow division.
   */
  method UtoaRevEnd(val: nat, buf: array<char>, start: nat, base: nat, adj: nat, divisionFree: bool)
    returns (end: nat)
    requires val < TWO64 && IsPrintBase(base) && IsCase(adj)
    requires start + |Numeral(val, base, adj)| <= buf.Length
    modifies buf
    ensures end == start + |Numeral(val, base, adj)|
    ensures buf[start..end] == Numeral(val, base, adj)
    ensures buf[..start] == old(buf[..start]) && buf[end..] == old(buf[end..])
  {
    hide Numeral;
    var v, mid := WideDigits(val, buf, start, base, adj);
    ghost var wide := buf[..mid];
    end := NarrowDigits(v, buf, mid, base, adj, divisionFree);
    assert buf[..start] == buf[..mid][..start] == wide[..start];
    assert buf[start..end] == buf[..mid][start..] + buf[mid..end];
  }

  /** Appends one character of text, of which todo is still unwritten. */
  method PutDigit(buf: array<char>, start: nat, end: nat, d: nat, adj: nat, ghost todo: seq<char>,
      ghost text: seq<char>)
    requires start <= end < buf.Length && d < 16 && IsCase(adj)
    requires |todo| >= 1 && todo[0] == DigitChar(d, adj) && buf[start..end] + todo == text
    modifies buf
    ensures buf[start..end + 1] + todo[1..] == text
    ensures buf[..start] == old(buf[..start])
    ensures forall i :: end < i < buf.Length ==> buf[i] == old(buf[i])
  {
    buf[end] := DigitChar(d, adj);
    assert buf[start..end + 1] == old(buf[start..end]) + [DigitChar(d, adj)];
  }

  /** The conversion buffer's minimum holds any 64-bit value in octal with room for '#': 22 digits. */
  lemma NumeralFits(val: nat, base: nat, adj: nat)
    requires val < TWO64 && IsPrintBase(base) && IsCase(adj)
    ensures |Numeral(val, base, adj)| <= 22
  {
    var k := |Numeral(val, base, adj)|;
    NumeralLength(val, base, adj);
    if k > 22 {
      EightToTwentyTwo();
      PowMonotone(8, 22, k - 1);
      BaseMonotone(8, base, k - 1);
    }
  }

  lemma EightToTwentyTwo()
    ensures Pow(8, 22) >= TWO64
  {
    assert Pow(8, 4) == 4096 && Pow(8, 2) == 64;
    hide *;
    PowAdd(8, 4, 4);
    PowAdd(8, 8, 8);
    PowAdd(8, 16, 4);
    PowAdd(8, 20, 2);
  }

  lemma {:induction false} BaseMonotone(a: nat, b: nat, n: nat)
    requires a <= b
    ensures Pow(a, n) <= Pow(b, n)
  {
    if n > 0 {
      BaseMonotone(a, b, n - 1);
      MulMonotone(a, b, Pow(a, n - 1));
      MulMonotone(Pow(a, n - 1), Pow(b, n - 1), b);
    }
  }
}
