/** The texts of the decimal float conversions, least significant character first. */
module DecimalText {
  import opened Arithmetic
  import opened Numerals

  /** The digits above the point, with the point if it is asked for. */
  function Whole(m: nat, point: bool): (s: seq<char>)
    ensures |s| >= 1
  {
    (if point then ['.'] else []) + DecNumeral(m)
  }

  /** n / 10^prec in style f: prec fraction digits, the point if asked for, the integer digits. */
  function Fixed(n: nat, prec: nat, point: bool): (s: seq<char>)
    ensures |s| > prec
  {
    Dec(n, prec) + Whole(High(n, prec), point)
  }

  /** Style e: mantissa digits n with pe of them after the point, then the exponent x. */
  function Scientific(n: nat, pe: nat, point: bool, x: int, adj: nat): seq<char>
    requires IsCase(adj)
  {
    ExponentText(x, adj) + Dec(n, pe) + (if point then ['.'] else []) + [DigitChar(High(n, pe) % 10, 0)]
  }

  function ExponentText(x: int, adj: nat): (s: seq<char>)
    requires IsCase(adj)
  {
    var a := if x < 0 then -x else x;
    DecNumeral(a) + (if a < 10 then ['0'] else []) + [if x < 0 then '-' else '+'] + [('E' as int + adj) as char]
  }

  lemma SuccessorOfWhole(m: nat, point: bool)
    ensures IsDecimalText(Whole(m, point)) && Successor(Whole(m, point)) == Whole(m + 1, point)
  {
    SuccessorOfNumeral(m);
    var s, t := Whole(m, point), DecNumeral(m);
    if point {
      assert s[1..] == t;
      assert forall i :: 0 < i < |s| ==> s[i] == t[i - 1];
    } else {
      assert s == t && Whole(m + 1, point) == DecNumeral(m + 1);
    }
  }

  lemma QuotientOfSuccessor(n: nat, p: nat)
    requires p > 0
    ensures (n + 1) / p == if (n + 1) % p == 0 then n / p + 1 else n / p
  {
    DivModEquation(n, p);
    var q, r := n / p, n % p;
    if r + 1 == p {
      assert (q + 1) * p == q * p + p;
      DivModUnique(n + 1, p, q + 1, 0);
    } else {
      DivModUnique(n + 1, p, q, r + 1);
    }
  }

  /** The rounding ripple adds exactly one unit in the last place, growing a digit when it must. */
  lemma SuccessorOfFixed(n: nat, prec: nat, point: bool)
    ensures IsDecimalText(Fixed(n, prec, point))
    ensures Successor(Fixed(n, prec, point)) == Fixed(n + 1, prec, point)
  {
    var p := Pow(10, prec);
    SuccessorOfWhole(n / p, point);
    SuccessorOfDigits(n, prec, Whole(n / p, point));
    AllNinesWraps(n, prec);
    QuotientOfSuccessor(n, p);
  }

  lemma {:induction false} NumeralShift(n: nat, z: nat)
    requires n > 0
    ensures DecNumeral(n * Pow(10, z)) == Zeros(z) + DecNumeral(n)
  {
    if z == 0 {
      assert n * 1 == n;
      assert Zeros(0) + DecNumeral(n) == DecNumeral(n);
    } else {
      var p := Pow(10, z - 1);
      assert Pow(10, z) == 10 * p;
      assert Zeros(z) == ['0'] + Zeros(z - 1);
      NumeralShift(n, z - 1);
      hide *;
      NumeralShiftStep(n, p);
    }
  }

  lemma NumeralShiftStep(n: nat, p: nat)
    requires n > 0 && p > 0
    ensures DecNumeral(n * (10 * p)) == ['0'] + DecNumeral(n * p)
  {
    hide *;
    MulPositive(n, p);
    TenTimes(n, p);
    NumeralTen(n * p);
  }

  lemma NumeralTen(m: nat)
    requires m > 0
    ensures DecNumeral(10 * m) == ['0'] + DecNumeral(m)
  {
  }

  lemma TenTimes(n: nat, p: nat)
    ensures n * (10 * p) == 10 * (n * p)
  {
  }

  /** An integer part and a fraction below one unit of it. */
  lemma FixedOfParts(m: nat, f: nat, prec: nat, point: bool)
    requires f < Pow(10, prec)
    ensures Fixed(m * Pow(10, prec) + f, prec, point) == Dec(f, prec) + Whole(m, point)
  {
    var p := Pow(10, prec);
    DivModUnique(m * p + f, p, m, f);
    DigitsMod(m * p + f, prec);
  }

  lemma FixedOfInteger(m: nat, prec: nat, point: bool)
    ensures Fixed(m * Pow(10, prec), prec, point) == Zeros(prec) + Whole(m, point)
  {
    FixedOfParts(m, 0, prec, point);
    DigitsOfZero(prec);
  }

  /** Trailing zeros of the integer part stand directly above the point. */
  lemma WholeShift(m: nat, tens: nat, point: bool)
    requires m > 0 || tens == 0
    ensures Whole(m * Pow(10, tens), point) == (if point then ['.'] else []) + Zeros(tens) + DecNumeral(m)
  {
    if tens == 0 {
      assert m * 1 == m;
      assert Zeros(0) == [];
    } else {
      NumeralShift(m, tens);
    }
  }
}
