/**
 * Numerals as the conversions store them: least significant digit first. Digits has a fixed number
 * of places; Numeral is the canonical form, without superfluous leading zeros (zero is "0").
 */
module Numerals {
  import opened Arithmetic

  const LOWER: nat := 32  // 'a' - 'A'

  predicate IsBase(base: nat) { 2 <= base <= 16 }

  predicate IsCase(adj: nat) { adj == 0 || adj == LOWER }

  function DigitChar(d: nat, adj: nat): char
    requires d < 16 && IsCase(adj)
  {
    ((if d < 10 then '0' as int else 'A' as int - 10 + adj) + d) as char
  }

  /** The digit a character stands for, in either letter case; 16 when it is no digit. */
  function DigitValue(c: char): (d: nat)
    ensures d <= 16
  {
    if '0' <= c <= '9' then c as int - '0' as int
    else if 'A' <= c <= 'F' then c as int - 'A' as int + 10
    else if 'a' <= c <= 'f' then c as int - 'a' as int + 10
    else 16
  }

  predicate IsDigitRun(s: seq<char>, base: nat) {
    forall i :: 0 <= i < |s| ==> DigitValue(s[i]) < base
  }

  /** The number a run of digits denotes, least significant digit first. */
  function Value(s: seq<char>, base: nat): nat {
    if s == [] then 0 else DigitValue(s[0]) + base * Value(s[1..], base)
  }

  function Digits(n: nat, k: nat, base: nat, adj: nat): (s: seq<char>)
    requires IsBase(base) && IsCase(adj)
    ensures |s| == k
  {
    if k == 0 then [] else [DigitChar(n % base, adj)] + Digits(n / base, k - 1, base, adj)
  }

  function Numeral(n: nat, base: nat, adj: nat): (s: seq<char>)
    requires IsBase(base) && IsCase(adj)
    ensures |s| >= 1
  {
    [DigitChar(n % base, adj)] + if n < base then [] else Numeral(n / base, base, adj)
  }

  /** The decimal forms, which is all the floating-point conversions use. */
  function Dec(n: nat, k: nat): (s: seq<char>)
    ensures |s| == k
  {
    Digits(n, k, 10, 0)
  }

  function DecNumeral(n: nat): (s: seq<char>)
    ensures |s| >= 1
  {
    Numeral(n, 10, 0)
  }

  function Zeros(k: nat): (s: seq<char>)
    ensures |s| == k
  {
    seq(k, _ => '0')
  }

  // ---------------------------------------------------------------------------------------------
  // A numeral denotes its number, and is the only canonical run of digits that does.

  lemma DigitCharValue(d: nat, adj: nat)
    requires d < 16 && IsCase(adj)
    ensures DigitValue(DigitChar(d, adj)) == d
    ensures DigitChar(d, adj) == '0' <==> d == 0
  {
  }

  lemma DigitParity(d: nat)
    requires d < 10
    ensures DigitChar(d, 0) != '.' && DigitChar(d, 0) as int % 2 == d % 2
  {
  }

  lemma DigitCons(d: nat, adj: nat, rest: seq<char>, base: nat)
    requires d < base && IsBase(base) && IsCase(adj)
    ensures Value([DigitChar(d, adj)] + rest, base) == d + base * Value(rest, base)
    ensures IsDigitRun(rest, base) ==> IsDigitRun([DigitChar(d, adj)] + rest, base)
  {
    var s := [DigitChar(d, adj)] + rest;
    assert s[1..] == rest;
    assert forall i :: 0 < i < |s| ==> s[i] == rest[i - 1];
  }

  lemma {:induction false} NumeralValue(n: nat, base: nat, adj: nat)
    requires IsBase(base) && IsCase(adj)
    ensures Value(Numeral(n, base, adj), base) == n
    ensures IsDigitRun(Numeral(n, base, adj), base)
  {
    DivModEquation(n, base);
    if n < base {
      DivModUnique(n, base, 0, n);
      DigitCons(n, adj, [], base);
    } else {
      DivideShrinks(n, base);
      NumeralValue(n / base, base, adj);
      DigitCons(n % base, adj, Numeral(n / base, base, adj), base);
      MulCommutes(base, n / base);
    }
  }

  lemma {:induction false} NumeralHasNoLeadingZero(n: nat, base: nat, adj: nat)
    requires IsBase(base) && IsCase(adj) && n > 0
    ensures Numeral(n, base, adj)[|Numeral(n, base, adj)| - 1] != '0'
  {
    DigitCharValue(n % base, adj);
    if n < base {
      DivModUnique(n, base, 0, n);
    } else {
      DivideShrinks(n, base);
      NumeralHasNoLeadingZero(n / base, base, adj);
    }
  }

  lemma DivideShrinks(n: nat, base: nat)
    requires base >= 2 && n >= base
    ensures 0 < n / base < n
  {
    DivModEquation(n, base);
    MulMonotone(2, base, n / base);
    MulCancelLess(0, n / base, base);
  }

  /** Two canonical runs of digits that denote the same number are the same run. */
  lemma {:induction false} CanonicalIsUnique(s: seq<char>, t: seq<char>, base: nat)
    requires IsBase(base) && |s| == |t| && Value(s, base) == Value(t, base)
    requires IsDigitRun(s, base) && IsDigitRun(t, base)
    ensures forall i :: 0 <= i < |s| ==> DigitValue(s[i]) == DigitValue(t[i])
  {
    if s != [] {
      var d, e := DigitValue(s[0]), DigitValue(t[0]);
      var v, w := Value(s[1..], base), Value(t[1..], base);
      assert d + base * v == e + base * w;
      DivModUnique(d + base * v, base, v, d);
      DivModUnique(d + base * v, base, w, e);
      CanonicalIsUnique(s[1..], t[1..], base);
      forall i | 0 <= i < |s| ensures DigitValue(s[i]) == DigitValue(t[i]) {
        if i > 0 { assert s[i] == s[1..][i - 1] && t[i] == t[1..][i - 1]; }
      }
    }
  }

  /** Decimal digits, and letters of one case: small ones or capitals. */
  predicate IsCased(s: seq<char>, adj: nat) {
    forall i :: 0 <= i < |s| ==>
      '0' <= s[i] <= '9' || (if adj == LOWER then 'a' <= s[i] <= 'f' else 'A' <= s[i] <= 'F')
  }

  lemma {:induction false} NumeralCased(n: nat, base: nat, adj: nat)
    requires IsBase(base) && IsCase(adj)
    ensures IsCased(Numeral(n, base, adj), adj)
  {
    BaseIsPositive(base);
    var d := DigitChar(n % base, adj);
    DigitCased(n % base, adj);
    if n >= base {
      DivideShrinks(n, base);
      NumeralCased(n / base, base, adj);
      CasedCons(d, Numeral(n / base, base, adj), adj);
      assert Numeral(n, base, adj) == [d] + Numeral(n / base, base, adj);
    } else {
      assert Numeral(n, base, adj) == [d];
    }
  }

  lemma {:induction false} DigitsCased(n: nat, k: nat, base: nat, adj: nat)
    requires IsBase(base) && IsCase(adj)
    ensures IsCased(Digits(n, k, base, adj), adj)
    decreases k
  {
    if k > 0 {
      BaseIsPositive(base);
      DigitCased(n % base, adj);
      DigitsCased(n / base, k - 1, base, adj);
      CasedCons(DigitChar(n % base, adj), Digits(n / base, k - 1, base, adj), adj);
    }
  }

  lemma DigitCased(d: nat, adj: nat)
    requires d < 16 && IsCase(adj)
    ensures IsCased([DigitChar(d, adj)], adj)
  {
  }

  lemma CasedCons(c: char, s: seq<char>, adj: nat)
    requires IsCased([c], adj) && IsCased(s, adj)
    ensures IsCased([c] + s, adj)
  {
    assert [c][0] == c;
    var t := [c] + s;
    assert forall i :: 0 < i < |t| ==> t[i] == s[i - 1];
  }

  /** In one letter case, a run of digits is determined by its length and what it denotes. */
  lemma CasedIsUnique(s: seq<char>, t: seq<char>, base: nat, adj: nat)
    requires IsBase(base) && |s| == |t| && Value(s, base) == Value(t, base)
    requires IsDigitRun(s, base) && IsDigitRun(t, base) && IsCased(s, adj) && IsCased(t, adj)
    ensures s == t
  {
    CanonicalIsUnique(s, t, base);
    forall i | 0 <= i < |s| ensures s[i] == t[i] {
      assert DigitValue(s[i]) == DigitValue(t[i]);
    }
  }

  /**
   * So a numeral is the one run of digits in its letter case that denotes its number and does not
   * end, reversed, in a superfluous zero.
   */
  lemma NumeralIsUnique(s: seq<char>, n: nat, base: nat, adj: nat)
    requires IsBase(base) && IsCase(adj) && IsDigitRun(s, base) && IsCased(s, adj) && s != []
    requires Value(s, base) == n && (|s| > 1 ==> s[|s| - 1] != '0')
    ensures s == Numeral(n, base, adj)
  {
    var t := Numeral(n, base, adj);
    NumeralValue(n, base, adj);
    NumeralCased(n, base, adj);
    NumeralLength(n, base, adj);
    RunBounds(s, base);
    SameRunLength(n, base, |s|, |t|);
    CasedIsUnique(s, t, base, adj);
  }

  /** A run without a superfluous zero denotes a number of as many digits. */
  lemma {:induction false} RunBounds(s: seq<char>, base: nat)
    requires IsBase(base) && IsDigitRun(s, base) && s != []
    ensures Value(s, base) < Pow(base, |s|)
    ensures |s| > 1 && s[|s| - 1] != '0' && IsDigitRun(s, base) ==> Pow(base, |s| - 1) <= Value(s, base)
  {
    var d, p, v := DigitValue(s[0]), Pow(base, |s| - 1), Value(s[1..], base);
    assert Pow(base, |s|) == base * p && Value(s, base) == d + base * v && d < base;
    if |s| == 1 {
      assert s[1..] == [] && p == 1 && v == 0;
      assert base * 0 == 0 && base * 1 == base;
    } else {
      var q := Pow(base, |s| - 2);
      assert p == base * q && (|s| == 2 ==> q == 1);
      RunBounds(s[1..], base);
      assert s[1..][|s| - 2] == s[|s| - 1];
      if |s| == 2 && s[1] != '0' { OneDigitBounds(s, base); }
      hide Pow, Value, DigitValue, IsDigitRun;
      BoundsStep(base, d, v, p);
      if |s| > 2 && s[|s| - 1] != '0' { BoundsStep'(base, d, v, q); }
    }
  }

  lemma BoundsStep(base: nat, d: nat, v: nat, p: nat)
    requires d < base && v < p
    ensures d + base * v < base * p
  {
    MulMonotone(v + 1, p, base);
    assert (v + 1) * base == base * v + base && p * base == base * p;
  }

  lemma BoundsStep'(base: nat, d: nat, v: nat, q: nat)
    requires q <= v
    ensures base * q <= d + base * v
  {
    MulMonotone(q, v, base);
    assert q * base == base * q && v * base == base * v;
  }

  lemma OneDigitBounds(s: seq<char>, base: nat)
    requires IsBase(base) && IsDigitRun(s, base) && |s| == 2 && s[1] != '0'
    ensures Pow(base, 1) <= Value(s, base)
  {
    var v := Value(s[1..], base);
    var t := s[1..];
    assert t == [s[1]] && t[1..] == [];
    assert v == DigitValue(t[0]) + base * Value([], base) == DigitValue(s[1]) >= 1;
    assert Pow(base, 1) == base * Pow(base, 0) == base;
    MulMonotone(1, v, base);
    assert v * base == base * v;
  }

  lemma SameRunLength(n: nat, base: nat, i: nat, j: nat)
    requires base > 1 && i >= 1 && j >= 1
    requires n < Pow(base, i) && (i > 1 ==> Pow(base, i - 1) <= n)
    requires n < Pow(base, j) && (n > 0 ==> Pow(base, j - 1) <= n) && (n == 0 ==> j == 1)
    ensures i == j
  {
    assert i > 1 ==> Pow(base, i - 1) > 0;
    if i < j && n > 0 { PowMonotone(base, i, j - 1); }
    if j < i { PowMonotone(base, j, i - 1); }
  }

  /** The count of digits of a numeral is fixed by the powers of the base around the number. */
  lemma {:induction false} NumeralLength(n: nat, base: nat, adj: nat)
    requires IsBase(base) && IsCase(adj)
    ensures n < Pow(base, |Numeral(n, base, adj)|)
    ensures n > 0 ==> Pow(base, |Numeral(n, base, adj)| - 1) <= n
  {
    if n < base {
      assert Pow(base, 1) == base * Pow(base, 0) == base;
    } else {
      DivideShrinks(n, base);
      NumeralLength(n / base, base, adj);
      PowerStep(n, base, |Numeral(n / base, base, adj)|);
    }
  }

  lemma PowerStep(n: nat, base: nat, k: nat)
    requires base > 0 && k >= 1 && Pow(base, k - 1) <= n / base < Pow(base, k)
    ensures Pow(base, k) <= n < Pow(base, k + 1)
  {
    var q := n / base;
    DivModEquation(n, base);
    MulMonotone(q + 1, Pow(base, k), base);
    MulMonotone(Pow(base, k - 1), q, base);
    assert (q + 1) * base == q * base + base;
    assert Pow(base, k + 1) == base * Pow(base, k);
  }

  lemma {:induction false} NumeralLengthIs(n: nat, k: nat)
    requires n < Pow(10, k) && k >= 1 && (k > 1 ==> Pow(10, k - 1) <= n)
    ensures |DecNumeral(n)| == k && DecNumeral(n) == Dec(n, k)
  {
    if k == 1 {
      assert Pow(10, 1) == 10 * Pow(10, 0) == 10;
      assert Dec(n, 1) == [DigitChar(n % 10, 0)] + Dec(n / 10, 0);
    } else {
      assert Pow(10, k) == 10 * Pow(10, k - 1);
      if k > 2 { assert Pow(10, k - 1) == 10 * Pow(10, k - 2); }
      assert n >= 10 by { assert Pow(10, k - 1) == 10 * Pow(10, k - 2); }
      NumeralLengthIs(n / 10, k - 1);
    }
  }

  lemma NumeralLengthMonotone(m: nat, n: nat)
    requires m <= n
    ensures |DecNumeral(m)| <= |DecNumeral(n)|
  {
    NumeralLength(m, 10, 0);
    NumeralLength(n, 10, 0);
    var a, b := |DecNumeral(m)|, |DecNumeral(n)|;
    if b < a { PowMonotone(10, b, a - 1); }
  }

  // ---------------------------------------------------------------------------------------------
  // Splitting and joining runs of digits.

  lemma {:induction false} DigitsSplit(n: nat, j: nat, k: nat)
    ensures Dec(n, j + k) == Dec(n, j) + Dec(n / Pow(10, j), k)
  {
    if j == 0 {
      assert n / 1 == n;
    } else {
      DigitsSplit(n / 10, j - 1, k);
      DivDiv(n, 10, Pow(10, j - 1));
      assert Pow(10, j) == 10 * Pow(10, j - 1);
      assert Dec(n, j + k) == [DigitChar(n % 10, 0)] + Dec(n / 10, (j - 1) + k);
      assert Dec(n, j) == [DigitChar(n % 10, 0)] + Dec(n / 10, j - 1);
    }
  }

  lemma {:induction false} DigitsOfZero(k: nat)
    ensures Dec(0, k) == Zeros(k)
  {
    if k > 0 {
      DigitsOfZero(k - 1);
      assert Dec(0, k) == [DigitChar(0, 0)] + Dec(0, k - 1);
    }
  }

  lemma {:induction false} DigitsShift(n: nat, z: nat, k: nat)
    ensures Dec(n * Pow(10, z), z + k) == Zeros(z) + Dec(n, k)
  {
    if z == 0 {
      assert n * 1 == n;
      assert Zeros(0) == [];
    } else {
      var m := n * Pow(10, z - 1);
      assert n * Pow(10, z) == 10 * m by { assert Pow(10, z) == 10 * Pow(10, z - 1); }
      DigitsShift(n, z - 1, k);
      assert Dec(10 * m, z + k) == ['0'] + Dec(m, (z - 1) + k);
      assert Zeros(z) == ['0'] + Zeros(z - 1);
    }
  }

  lemma {:induction false} DigitsMod(n: nat, k: nat)
    ensures Dec(n, k) == Dec(n % Pow(10, k), k)
  {
    if k > 0 {
      var r := n % Pow(10, k);
      assert Pow(10, k) == 10 * Pow(10, k - 1);
      DivDiv(n, 10, Pow(10, k - 1));
      var q := (n / 10) % Pow(10, k - 1);
      assert r == q * 10 + n % 10;
      DigitsMod(n / 10, k - 1);
      assert r % 10 == n % 10 && r / 10 == q;
      assert Dec(n, k) == [DigitChar(n % 10, 0)] + Dec(n / 10, k - 1);
      assert Dec(r, k) == [DigitChar(r % 10, 0)] + Dec(r / 10, k - 1);
    }
  }

  /** A run of k digits reads back as the number, up to the k-th power of the base. */
  lemma {:induction false} DigitsValue(n: nat, k: nat, base: nat, adj: nat)
    requires IsBase(base) && IsCase(adj)
    ensures Value(Digits(n, k, base, adj), base) == n % Pow(base, k)
    decreases k
  {
    if k == 0 {
      assert n % 1 == 0;
    } else {
      var rest := Digits(n / base, k - 1, base, adj);
      assert Digits(n, k, base, adj) == [DigitChar(n % base, adj)] + rest && Pow(base, k) == base * Pow(base, k - 1);
      DigitsValue(n / base, k - 1, base, adj);
      hide *;
      BaseIsPositive(base);
      DigitCons(n % base, adj, rest, base);
      DigitOnTop(n, base, Pow(base, k - 1), Pow(base, k), Value(rest, base));
    }
  }

  lemma DigitOnTop(n: nat, base: nat, p: nat, p': nat, v: nat)
    requires base > 0 && p > 0 && v == n / base % p && p' == base * p
    ensures p' > 0 && n % base + base * v == n % p'
  {
    DivDiv(n, base, p);
    MulCommutes(base, v);
  }

  lemma BaseIsPositive(base: nat)
    requires IsBase(base)
    ensures 2 <= base <= 16
  {
  }

  lemma MulCommutes(a: nat, b: nat)
    ensures a * b == b * a
  {
  }

  // ---------------------------------------------------------------------------------------------
  // Adding one unit in the last place.

  predicate IsDecimalText(s: seq<char>) {
    forall i :: 0 <= i < |s| ==> s[i] == '.' || '0' <= s[i] <= '9'
  }

  /** The successor of a run of decimal digits with an optional point inside; it may grow a digit. */
  function Successor(s: seq<char>): (r: seq<char>)
    requires IsDecimalText(s)
    ensures |s| <= |r| <= |s| + 1
  {
    if s == [] then ['1']
    else if s[0] == '.' then ['.'] + Successor(s[1..])
    else if s[0] == '9' then ['0'] + Successor(s[1..])
    else [(s[0] as int + 1) as char] + s[1..]
  }

  lemma {:induction false} DigitsAreText(n: nat, k: nat)
    ensures forall i :: 0 <= i < k ==> '0' <= Dec(n, k)[i] <= '9'
  {
    if k > 0 {
      DigitsAreText(n / 10, k - 1);
      var s, rest := Dec(n, k), Dec(n / 10, k - 1);
      assert s == [DigitChar(n % 10, 0)] + rest;
      assert forall i :: 0 < i < k ==> s[i] == rest[i - 1];
    }
  }

  lemma {:induction false} NumeralIsText(n: nat)
    ensures forall i :: 0 <= i < |DecNumeral(n)| ==> '0' <= DecNumeral(n)[i] <= '9'
  {
    if n >= 10 {
      NumeralIsText(n / 10);
      var s, rest := DecNumeral(n), DecNumeral(n / 10);
      assert s == [DigitChar(n % 10, 0)] + rest;
      assert forall i :: 0 < i < |s| ==> s[i] == rest[i - 1];
    }
  }

  lemma {:induction false} SuccessorOfNumeral(n: nat)
    ensures IsDecimalText(DecNumeral(n)) && Successor(DecNumeral(n)) == DecNumeral(n + 1)
  {
    NumeralIsText(n);
    var s := DecNumeral(n);
    if n < 10 {
      assert s[1..] == [];
      if n == 9 { assert DecNumeral(10) == ['0'] + DecNumeral(1); assert Successor([]) == ['1']; }
    } else {
      assert s == [DigitChar(n % 10, 0)] + DecNumeral(n / 10);
      assert s[1..] == DecNumeral(n / 10);
      SuccessorOfNumeral(n / 10);
      if n % 10 == 9 {
        assert (n + 1) / 10 == n / 10 + 1 && (n + 1) % 10 == 0;
      } else {
        assert (n + 1) / 10 == n / 10;
      }
    }
  }

  predicate AllNines(n: nat, k: nat) {
    k == 0 || (n % 10 == 9 && AllNines(n / 10, k - 1))
  }

  lemma {:induction false} AllNinesWraps(n: nat, k: nat)
    ensures AllNines(n, k) <==> (n + 1) % Pow(10, k) == 0
  {
    if k == 0 {
      assert (n + 1) % 1 == 0;
    } else {
      AllNinesWraps(n / 10, k - 1);
      SuccessorWraps(n, k);
    }
  }

  lemma SuccessorWraps(n: nat, k: nat)
    requires k > 0
    ensures (n + 1) % Pow(10, k) == 0 <==> n % 10 == 9 && (n / 10 + 1) % Pow(10, k - 1) == 0
  {
    DivDiv(n + 1, 10, Pow(10, k - 1));
    assert Pow(10, k) == 10 * Pow(10, k - 1);
  }

  /** In k places: the successor carries out of the run exactly when it was all nines. */
  lemma {:induction false} SuccessorOfDigits(n: nat, k: nat, t: seq<char>)
    requires IsDecimalText(t)
    ensures IsDecimalText(Dec(n, k) + t)
    ensures Successor(Dec(n, k) + t) == Dec(n + 1, k) + if AllNines(n, k) then Successor(t) else t
  {
    if k == 0 {
      assert Dec(n, k) + t == t;
    } else {
      var m, d := n / 10, n % 10;
      assert n == 10 * m + d && (AllNines(n, k) <==> d == 9 && AllNines(m, k - 1));
      SuccessorOfDigits(m, k - 1, t);
      hide *;
      SuccessorCons(d, Dec(m, k - 1) + t);
      DecCons(k, m, d, t);
      NineIsLast();
      if d == 9 {
        DecCons(k, m + 1, 0, if AllNines(m, k - 1) then Successor(t) else t);
      } else {
        DecCons(k, m, d + 1, t);
      }
    }
  }

  lemma NineIsLast()
    ensures ['0'] == [DigitChar(0, 0)]
  {
  }

  lemma DecDigit(g: nat, d: nat, k: nat)
    requires d < 10
    ensures Dec(10 * g + d, k + 1) == [DigitChar(d, 0)] + Dec(g, k)
  {
  }

  lemma DecCons(k: nat, m: nat, d: nat, t: seq<char>)
    requires k > 0 && d < 10
    ensures Dec(10 * m + d, k) + t == [DigitChar(d, 0)] + (Dec(m, k - 1) + t)
  {
  }

  lemma SuccessorCons(d: nat, rest: seq<char>)
    requires d < 10 && IsDecimalText(rest)
    ensures IsDecimalText([DigitChar(d, 0)] + rest)
    ensures Successor([DigitChar(d, 0)] + rest) ==
            if d == 9 then ['0'] + Successor(rest) else [DigitChar(d + 1, 0)] + rest
  {
    var s := [DigitChar(d, 0)] + rest;
    assert s[1..] == rest;
    assert forall i :: 0 < i < |s| ==> s[i] == rest[i - 1];
  }
}
