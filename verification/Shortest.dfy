/** %g: the style and the precision it settles on, and the digits its second pass regenerates. */
module Shortest {
  import opened Arithmetic
  import opened Rounding
  import opened Numerals
  import opened DecimalText
  import opened Doubles
  import opened Shared
  import opened SharedExact

  /** Drop trailing zeros, keeping one digit. */
  function Strip(r: Run): (s: Run)
    requires r.nsig >= 1
    ensures 1 <= s.nsig <= r.nsig
    decreases r.nsig
  {
    if r.nsig > 1 && r.g % 10 == 0 then Strip(r.(g := r.g / 10, nsig := r.nsig - 1, dec := r.dec + 1)) else r
  }

  /** The precision a %g conversion runs with: 0 means 1. */
  function Precision(prec: nat): (p: nat)
    ensures p >= 1
  {
    if prec == 0 then 1 else prec
  }

  datatype Style = F(prec: nat) | E(run: Run, pe: nat, x: int)

  /** From the rounded first pass: style f exactly when the leading digit's exponent is in [-4, prec). */
  function Choose(r: Run, prec: nat, strip: bool): Style
    requires prec >= 1 && r.nsig >= 1
  {
    var s := if strip then Strip(r) else r;
    var kept := if strip then s.nsig else prec;
    var x := r.dec + r.nsig - 1;
    if -4 <= x < prec then F(Max(0, kept - 1 - x)) else E(s, kept - 1, x)
  }

  /** A decimal fraction without its trailing zeros. */
  function StripFixed(n: nat, prec: nat): (nat, nat) {
    if prec > 0 && n % 10 == 0 then StripFixed(n / 10, prec - 1) else (n, prec)
  }

  lemma {:induction false} StripKeeps(r: Run)
    requires IsRun(r) && HasLead(r)
    ensures var s := Strip(r);
            && IsRun(s) && HasLead(s) && s.nsig <= r.nsig
            && r.g == Tenfold(s.g, r.nsig - s.nsig)
            && s.dec + s.nsig == r.dec + r.nsig
            && s.g % 10 != 0
    decreases r.nsig
  {
    if r.nsig > 1 && r.g % 10 == 0 {
      var t := r.(g := r.g / 10, nsig := r.nsig - 1, dec := r.dec + 1);
      assert Pow(10, r.nsig) == 10 * Pow(10, r.nsig - 1);
      assert Pow(10, r.nsig - 1) == 10 * Pow(10, r.nsig - 2);
      StripKeeps(t);
      TenfoldOnce(Strip(t).g, t.nsig - Strip(t).nsig);
    } else {
      assert Tenfold(r.g, 0) == r.g by { assert Pow(10, 0) == 1; }
      if r.nsig == 1 { assert Pow(10, 1) == 10 && Pow(10, 0) == 1; }
    }
  }

  /** Stripping j zeros off, no more and no fewer. */
  lemma {:induction false} StripFixedIs(m: nat, j: nat, prec: nat)
    requires j <= prec && (prec == j || m % 10 != 0)
    ensures StripFixed(Tenfold(m, j), prec) == (m, prec - j)
  {
    if j == 0 {
      assert Tenfold(m, 0) == m by { assert Pow(10, 0) == 1; }
    } else {
      TenfoldOnce(m, j - 1);
      StripFixedIs(m, j - 1, prec - 1);
    }
  }

  /** No double rounding: what rounds to a multiple of 10^j places finer rounds there directly. */
  lemma RoundCoarser(n: nat, d: nat, s: nat, j: nat, m: nat)
    requires d > 0 && RoundAt(n, d, s + j) == Tenfold(m, j)
    ensures RoundAt(n, d, s) == m
  {
    var ten, N := Pow(10, j), Tenfold(n, s);
    if j == 0 {
      assert ten == 1 && Tenfold(m, 0) == m;
    } else {
      assert ten == 10 * Pow(10, j - 1);
      PowAdd(10, s, j);
      assert Tenfold(n, s + j) == N * ten by { MulAssoc(n, Pow(10, s), ten); }
      RoundHalfEvenIsNearest(N * ten, d, m * ten);
      RoundHalfEvenIsNearest(N, d, m);
      hide RoundHalfEven, Tenfold, Pow;
      NearerStill(N, d, m, ten);
    }
  }

  lemma NearerStill(N: nat, d: nat, m: nat, ten: nat)
    requires d > 0 && ten >= 10 && IsNearestEven(N * ten, d, m * ten)
    ensures IsNearestEven(N, d, m)
  {
    var a, b := 2 * N, 2 * (m * d);
    assert 2 * ((m * ten) * d) == b * ten by { assert (m * ten) * d == (m * d) * ten; }
    assert 2 * (N * ten) == a * ten;
    Spread(a, b, d, ten);
  }

  lemma Spread(a: nat, b: nat, d: nat, ten: nat)
    requires d > 0 && ten >= 2 && a * ten - d <= b * ten <= a * ten + d
    ensures a - d < b < a + d
  {
    MulMonotone(2, ten, d);
    assert (a + d) * ten == a * ten + d * ten;
    assert (b + d) * ten == b * ten + d * ten;
    MulCancelLess(b, a + d, ten);
    MulCancelLess(a, b + d, ten);
  }

  // ---------------------------------------------------------------------------------------------
  // On the exact domain %g follows C11 section 7.21.6.1 paragraph 8.

  /** The sig-digit rounding seen as a fixed-point one, the raised exponent included. */
  lemma SignificantAsFixed(n: nat, d: nat, sig: nat, lead: int)
    requires d > 0 && sig >= 1
    ensures var (R, X) := RoundSignificant(n, d, sig, lead);
            X < sig ==> RoundAt(n, d, sig - 1 - X) == R
  {
    var r := RoundAt(n, d, sig - 1 - lead);
    if r == Pow(10, sig) && lead + 1 < sig {
      assert Tenfold(Pow(10, sig - 1), 1) == Pow(10, sig) by { assert Pow(10, 1) == 10; }
      RoundCoarser(n, d, sig - 2 - lead, 1, Pow(10, sig - 1));
    }
  }

  /** The digits of the second pass: the first pass's, without the zeros it may leave out. */
  lemma SecondPass(n: nat, d: nat, sig: nat, x: int, g: nat, nsig: nat)
    requires d > 0 && 1 <= nsig <= sig && x < sig
    requires RoundAt(n, d, sig - 1 - x) == Tenfold(g, sig - nsig)
    ensures var prec, j := Max(0, nsig - 1 - x), Min(sig - 1 - x, sig - nsig);
            && prec + j == sig - 1 - x && j <= sig - nsig
            && RoundAt(n, d, prec) == Tenfold(g, sig - nsig - j)
            && Tenfold(g, sig - nsig) == Tenfold(Tenfold(g, sig - nsig - j), j)
  {
    var prec, j := Max(0, nsig - 1 - x), Min(sig - 1 - x, sig - nsig);
    TenfoldTwice(g, sig - nsig - j, j);
    RoundCoarser(n, d, prec, j, Tenfold(g, sig - nsig - j));
  }

  /** The second pass always fits: prec digits, at most four zeros, the point and a digit before it. */
  lemma SecondPassFits(m: nat, prec: nat, sig: nat, x: int)
    requires -4 <= x < sig && prec <= sig - 1 - x
    requires m < Pow(10, Max(prec + x + 1, 0))
    ensures |Fixed(m, prec, true)| <= sig + 5
  {
    var p := Pow(10, prec);
    var k := Max(x + 1, 0);
    DivModEquation(m, p);
    PowAdd(10, k, prec);
    PowMonotone(10, Max(prec + x + 1, 0), k + prec);
    MulCancelLess(m / p, Pow(10, k), p);
    NumeralLength(m / p, 10, 0);
    assert Pow(10, 0) == 1;
    if m / p > 0 && |DecNumeral(m / p)| > k { PowMonotone(10, k, |DecNumeral(m / p)| - 1); }
  }

  /** The shared %f prints n / d rounded at every precision that leaves something of it and whose text fits. */
  ghost predicate IsFixedBy(B: nat, C: nat, x: Finite, n: nat, d: nat)
    requires IsWidth(B) && IsFinite(x) && IsCapacity(C) && d > 0
  {
    forall prec: nat :: RoundAt(n, d, prec) > 0 && |Fixed(RoundAt(n, d, prec), prec, true)| <= C ==>
      FixedConversion(B, C, x, prec) == RoundAt(n, d, prec)
  }

  /** On the exact domain that is the value itself. */
  lemma FixedByValue(B: nat, C: nat, x: Finite, V: nat)
    requires IsWidth(B) && IsFinite(x) && IsExact(B, x, V) && IsCapacity(C)
    ensures IsFixedBy(B, C, x, Num(x), Den(x))
  {
    hide *;
    forall prec: nat | |Fixed(RoundAt(Num(x), Den(x), prec), prec, true)| <= C
      ensures FixedConversion(B, C, x, prec) == RoundAt(Num(x), Den(x), prec)
    {
      FixedWhenFits(B, C, x, prec, V);
    }
    FixedByIs(B, C, x, Num(x), Den(x));
  }

  lemma FixedByIs(B: nat, C: nat, x: Finite, n: nat, d: nat)
    requires IsWidth(B) && IsFinite(x) && IsCapacity(C) && d > 0
    requires forall prec: nat :: RoundAt(n, d, prec) > 0 && |Fixed(RoundAt(n, d, prec), prec, true)| <= C ==>
               FixedConversion(B, C, x, prec) == RoundAt(n, d, prec)
    ensures IsFixedBy(B, C, x, n, d)
  {
    hide RoundAt, Fixed, FixedConversion;
  }

  /** The shared %f on the exact domain, at a precision whose text is known to fit. */
  lemma FixedWhenFits(B: nat, C: nat, x: Finite, prec: nat, V: nat)
    requires IsWidth(B) && IsFinite(x) && IsExact(B, x, V) && IsCapacity(C)
    requires |Fixed(RoundAt(Num(x), Den(x), prec), prec, true)| <= C
    ensures FixedConversion(B, C, x, prec) == RoundAt(Num(x), Den(x), prec)
  {
    FixedExact(B, C, x, prec, V);
  }

  /** The rounded digits of a nonzero value are not all zero. */
  lemma NonzeroMantissa(r: Run, sig: nat, n: nat, d: nat, lead: int)
    requires d > 0 && sig >= 1 && r.nsig <= sig && IsLeadExponent(n, d, lead)
    requires Mantissa(r, sig) == RoundSignificant(n, d, sig, lead)
    ensures r.g > 0
  {
    RoundAtLead(n, d, sig, lead);
    assert Tenfold(0, sig - r.nsig) == 0;
  }

  lemma StripPads(r: Run, sig: nat)
    requires IsRun(r) && HasLead(r) && r.nsig <= sig
    ensures Tenfold(r.g, sig - r.nsig) == Tenfold(Strip(r).g, sig - Strip(r).nsig)
    ensures Tenfold(r.g, sig - r.nsig) < Pow(10, sig)
  {
    StripKeeps(r);
    var s := Strip(r);
    TenfoldTwice(s.g, r.nsig - s.nsig, sig - r.nsig);
    TenfoldBound(r.g, r.nsig, sig - r.nsig);
  }

  lemma StyleF(B: nat, C: nat, x: Finite, sig: nat, X: int, g: nat, nsig: nat, n: nat, d: nat)
    requires IsWidth(B) && IsFinite(x) && IsCapacity(C) && d > 0 && IsFixedBy(B, C, x, n, d) && 1 <= nsig <= sig <= C - 7
    requires -4 <= X < sig && 0 < g < Pow(10, nsig)
    requires RoundAt(n, d, sig - 1 - X) == Tenfold(g, sig - nsig)
    ensures var prec := Max(0, nsig - 1 - X);
            IsSecondPass(FixedConversion(B, C, x, prec), prec, RoundAt(n, d, sig - 1 - X), sig - 1 - X, g, C)
  {
    var prec := Max(0, nsig - 1 - X);
    hide Pow, Tenfold, RoundAt, Fixed, FixedConversion, IsFinite;
    var m := SecondText(n, d, sig, X, g, nsig);
  }

  /** n at prec places is right at full places, short of zeros, and its text fits. */
  ghost predicate IsSecondPass(n: nat, prec: nat, right: nat, full: nat, g: nat, C: nat) {
    && |Fixed(n, prec, true)| <= C
    && prec <= full
    && right == Tenfold(n, full - prec)
    && (prec > 0 ==> n == Tenfold(g, 0))
  }

  lemma SecondText(n: nat, d: nat, sig: nat, X: int, g: nat, nsig: nat) returns (m: nat)
    requires d > 0 && 1 <= nsig <= sig && -4 <= X < sig && 0 < g < Pow(10, nsig)
    requires RoundAt(n, d, sig - 1 - X) == Tenfold(g, sig - nsig)
    ensures var prec := Max(0, nsig - 1 - X);
            && prec <= sig - 1 - X && m == RoundAt(n, d, prec) > 0
            && Tenfold(m, sig - 1 - X - prec) == Tenfold(g, sig - nsig)
            && |Fixed(m, prec, true)| <= sig + 5
            && (prec > 0 ==> m == Tenfold(g, 0))
  {
    var prec, j := Max(0, nsig - 1 - X), Min(sig - 1 - X, sig - nsig);
    SecondPass(n, d, sig, X, g, nsig);
    m := Tenfold(g, sig - nsig - j);
    MulPositive(g, Pow(10, sig - nsig - j));
    TenfoldIs(g, sig - nsig - j);
    hide Pow, Tenfold, RoundAt, Fixed;
    TenfoldBound(g, nsig, sig - nsig - j);
    SecondPassFits(m, prec, sig, X);
  }

  /** The rounded digits R of the first pass, held by the run r, with the leading one at 10^X. */
  ghost predicate IsFirstPass(r: Run, n: nat, d: nat, sig: nat, R: nat, X: int)
    requires d > 0
  {
    && IsRun(r) && HasLead(r) && 1 <= r.nsig <= sig && X == r.dec + r.nsig - 1
    && R == Tenfold(r.g, sig - r.nsig)
    && (X < sig ==> RoundAt(n, d, sig - 1 - X) == R)
  }

  /** Rounding to sig digits can see every tie it has to: none is beyond SHIFT_BITS over an even digit. */
  predicate SeesTies(B: nat, x: Finite, sig: nat, lead: int)
    requires IsWidth(B)
  {
    x.exp <= ShiftBits(B) || !IsEvenTie(Num(x), Den(x), sig - 1 - lead)
  }

  lemma FirstPass(B: nat, x: Finite, sig: nat, V: nat) returns (lead: int)
    requires IsWidth(B) && IsFinite(x) && IsExact(B, x, V)
    requires x.bin > 0 && 1 <= sig <= MAX_CAPACITY
    ensures IsLeadExponent(Num(x), Den(x), lead)
    ensures var (R, X) := RoundSignificant(Num(x), Den(x), sig, lead);
            SeesTies(B, x, sig, lead) ==> IsFirstPass(Significant(B, x, sig), Num(x), Den(x), sig, R, X)
  {
    lead := ScientificExact(B, x, sig, V);
    var r := Significant(B, x, sig);
    SignificantShape(B, x, sig);
    if SeesTies(B, x, sig, lead) {
      hide RoundAt, IsExact, IsFinite, Num, Den, Pow, Significant, Tenfold, IsLeadExponent, IsEvenTie;
      NonzeroMantissa(r, sig, Num(x), Den(x), lead);
      SignificantAsFixed(Num(x), Den(x), sig, lead);
    }
  }

  /** What %g prints of a value whose rounded digits are R with the leading one at 10^X. */
  ghost predicate IsShortest(B: nat, C: nat, x: Finite, n: nat, d: nat, sig: nat, strip: bool, style: Style, R: nat, X: int)
    requires IsWidth(B) && IsFinite(x) && IsCapacity(C) && d > 0
  {
    match style
    case F(prec) =>
      && -4 <= X < sig
      && var m, right := FixedConversion(B, C, x, prec), RoundAt(n, d, sig - 1 - X);
         && (m, prec) == (if strip then StripFixed(right, sig - 1 - X) else (right, sig - 1 - X))
         && |Fixed(m, prec, true)| <= C
    case E(run, pe, e) =>
      && !(-4 <= X < sig)
      && e == X && run.nsig <= sig && R == Tenfold(run.g, sig - run.nsig)
      && (if strip then run.g % 10 != 0 && pe == run.nsig - 1 else pe == sig - 1)
  }

  /**
   * %g on the exact domain: P significant digits rounded half to even, style f exactly when the
   * exponent X of the rounded digits is in [-4, P), then precision P-1-X of the value itself, with
   * trailing zeros gone unless kept by '#'; and a style f text always fits the buffer. As for %e,
   * this is so unless the value is a tie over an even digit beyond SHIFT_BITS.
   */
  lemma ShortestExact(B: nat, C: nat, x: Finite, sig: nat, strip: bool, V: nat) returns (lead: int)
    requires IsWidth(B) && IsFinite(x) && IsExact(B, x, V) && IsCapacity(C)
    requires x.bin > 0 && 1 <= sig <= C - 7
    ensures IsLeadExponent(Num(x), Den(x), lead) && Significant(B, x, sig).nsig >= 1
    ensures var (R, X) := RoundSignificant(Num(x), Den(x), sig, lead);
            SeesTies(B, x, sig, lead) ==>
            IsShortest(B, C, x, Num(x), Den(x), sig, strip, Choose(Significant(B, x, sig), sig, strip), R, X)
  {
    FixedByValue(B, C, x, V);
    lead := FirstPass(B, x, sig, V);
    SignificantShape(B, x, sig);
    var r := Significant(B, x, sig);
    var (R, X) := RoundSignificant(Num(x), Den(x), sig, lead);
    assert r.nsig >= 1;
    hide *;
    if SeesTies(B, x, sig, lead) {
      ShortestFrom(B, C, x, Num(x), Den(x), sig, strip, r, R, X);
    }
  }

  lemma ShortestFrom(B: nat, C: nat, x: Finite, n: nat, d: nat, sig: nat, strip: bool, r: Run, R: nat, X: int)
    requires IsWidth(B) && IsFinite(x) && IsCapacity(C) && d > 0 && IsFixedBy(B, C, x, n, d) && 1 <= sig <= C - 7 && r.nsig >= 1
    requires IsFirstPass(r, n, d, sig, R, X)
    ensures IsShortest(B, C, x, n, d, sig, strip, Choose(r, sig, strip), R, X)
  {
    ChooseIs(r, sig, strip);
    StrippedDigits(r, n, d, sig, R, X);
    assert X == r.dec + r.nsig - 1 && r.nsig <= sig && R == Tenfold(r.g, sig - r.nsig);
    hide *;
    ShortestStyle(B, C, x, n, d, sig, strip, r, Strip(r), Choose(r, sig, strip), R, X);
  }

  lemma ShortestStyle(B: nat, C: nat, x: Finite, n: nat, d: nat, sig: nat, strip: bool, r: Run, s: Run, style: Style,
      R: nat, X: int)
    requires IsWidth(B) && IsFinite(x) && IsCapacity(C) && d > 0 && IsFixedBy(B, C, x, n, d) && 1 <= sig <= C - 7
    requires IsRun(s) && 1 <= s.nsig <= sig && s.g % 10 != 0 && R == Tenfold(s.g, sig - s.nsig) && 0 < R < Pow(10, sig)
    requires r.nsig <= sig && R == Tenfold(r.g, sig - r.nsig)
    requires X < sig ==> RoundAt(n, d, sig - 1 - X) == R
    requires style == if -4 <= X < sig then F(if strip then Max(0, s.nsig - 1 - X) else sig - 1 - X)
                      else E(if strip then s else r, if strip then s.nsig - 1 else sig - 1, X)
    ensures IsShortest(B, C, x, n, d, sig, strip, style, R, X)
  {
    hide *;
    if -4 <= X < sig {
      if strip { StrippedF(B, C, x, sig, X, s, R, n, d); } else { PlainF(B, C, x, sig, X, R, n, d); }
    } else {
      StyleE(B, C, x, n, d, sig, strip, style, R, X);
    }
  }

  lemma StrippedDigits(r: Run, n: nat, d: nat, sig: nat, R: nat, X: int)
    requires d > 0 && r.nsig >= 1 && IsFirstPass(r, n, d, sig, R, X)
    ensures var s := Strip(r);
            && IsRun(s) && s.nsig <= sig && s.g % 10 != 0 && R > 0 && R == Tenfold(s.g, sig - s.nsig) && R < Pow(10, sig)
            && (X < sig ==> RoundAt(n, d, sig - 1 - X) == R)
  {
    StripPads(r, sig);
    StripKeeps(r);
    var s := Strip(r);
    MulPositive(s.g, Pow(10, sig - s.nsig));
    TenfoldIs(s.g, sig - s.nsig);
    hide RoundAt, Tenfold, Pow, Strip, HasLead;
  }

  lemma ChooseIs(r: Run, sig: nat, strip: bool)
    requires 1 <= r.nsig <= sig
    ensures var s, x := Strip(r), r.dec + r.nsig - 1;
            Choose(r, sig, strip) ==
            if -4 <= x < sig then F(if strip then Max(0, s.nsig - 1 - x) else sig - 1 - x)
            else E(if strip then s else r, if strip then s.nsig - 1 else sig - 1, x)
  {
  }

  lemma StyleE(B: nat, C: nat, x: Finite, n: nat, d: nat, sig: nat, strip: bool, style: Style, R: nat, X: int)
    requires IsWidth(B) && IsFinite(x) && IsCapacity(C) && d > 0 && !(-4 <= X < sig)
    requires style.E? && style.x == X && style.run.nsig <= sig && R == Tenfold(style.run.g, sig - style.run.nsig)
    requires if strip then style.run.g % 10 != 0 && style.pe == style.run.nsig - 1 else style.pe == sig - 1
    ensures IsShortest(B, C, x, n, d, sig, strip, style, R, X)
  {
  }

  lemma ShortestF(B: nat, C: nat, x: Finite, n: nat, d: nat, sig: nat, strip: bool, prec: nat, R: nat, X: int)
    requires IsWidth(B) && IsFinite(x) && IsCapacity(C) && d > 0 && -4 <= X < sig
    requires var m, right := FixedConversion(B, C, x, prec), RoundAt(n, d, sig - 1 - X);
             && (m, prec) == (if strip then StripFixed(right, sig - 1 - X) else (right, sig - 1 - X))
             && |Fixed(m, prec, true)| <= C
    ensures IsShortest(B, C, x, n, d, sig, strip, F(prec), R, X)
  {
  }

  lemma StrippedF(B: nat, C: nat, x: Finite, sig: nat, X: int, s: Run, R: nat, n: nat, d: nat)
    requires IsWidth(B) && IsFinite(x) && IsCapacity(C) && d > 0 && IsFixedBy(B, C, x, n, d) && 1 <= s.nsig <= sig <= C - 7
    requires -4 <= X < sig && IsRun(s) && s.g % 10 != 0
    requires RoundAt(n, d, sig - 1 - X) == R == Tenfold(s.g, sig - s.nsig)
    ensures IsShortest(B, C, x, n, d, sig, true, F(Max(0, s.nsig - 1 - X)), R, X)
  {
    var prec := Max(0, s.nsig - 1 - X);
    assert s.g < Pow(10, s.nsig);
    hide *;
    StyleF(B, C, x, sig, X, s.g, s.nsig, n, d);
    StrippedPair(FixedConversion(B, C, x, prec), prec, RoundAt(n, d, sig - 1 - X), sig - 1 - X, s.g, C);
    ShortestF(B, C, x, n, d, sig, true, prec, R, X);
  }

  lemma StrippedPair(n: nat, prec: nat, right: nat, full: nat, g: nat, C: nat)
    requires IsSecondPass(n, prec, right, full, g, C) && g % 10 != 0
    ensures StripFixed(right, full) == (n, prec) && |Fixed(n, prec, true)| <= C
  {
    TenfoldIs(g, 0);
    assert Pow(10, 0) == 1;
    hide Fixed, StripFixed, Tenfold, Pow;
    StripFixedIs(n, full - prec, full);
  }

  lemma RoundAsIs(R: nat, sig: nat)
    ensures R == Tenfold(R, sig - sig)
  {
    assert Pow(10, 0) == 1;
  }

  lemma PlainPair(n: nat, full: nat, R: nat, C: nat)
    requires IsSecondPass(n, full, R, full, R, C)
    ensures (n, full) == (R, full) && |Fixed(n, full, true)| <= C
  {
    TenfoldIs(n, 0);
    assert Pow(10, 0) == 1;
    hide Fixed, Tenfold, Pow;
  }

  lemma PlainF(B: nat, C: nat, x: Finite, sig: nat, X: int, R: nat, n: nat, d: nat)
    requires IsWidth(B) && IsFinite(x) && IsCapacity(C) && d > 0 && IsFixedBy(B, C, x, n, d) && 1 <= sig <= C - 7
    requires -4 <= X < sig && 0 < R < Pow(10, sig) && RoundAt(n, d, sig - 1 - X) == R
    ensures IsShortest(B, C, x, n, d, sig, false, F(sig - 1 - X), R, X)
  {
    RoundAsIs(R, sig);
    assert Max(0, sig - 1 - X) == sig - 1 - X;
    hide *;
    StyleF(B, C, x, sig, X, R, sig, n, d);
    PlainPair(FixedConversion(B, C, x, sig - 1 - X), sig - 1 - X, R, C);
    ShortestF(B, C, x, n, d, sig, false, sig - 1 - X, R, X);
  }
}
