/**
 * npf_etoa_rev, the conversion %e, %g and (when either is enabled) %f share: as numbers.
 *
 * A run of generated digits is held as the integer g they denote in nsig places; it stands for
 * g * 10^dec, carry is the rounding still to be added, and tail says that nothing was cut off.
 */
module Shared {
  import opened Arithmetic
  import opened Numerals
  import opened Doubles
  import opened DigitGeneration
  import I = IntegerPart
  import F = FractionPart
  import L = FractionBounds

  datatype Run = Run(g: nat, nsig: nat, dec: int, carry: nat, tail: bool)

  /** What ends generation: a count of significant digits, and for %f also a decimal position. */
  datatype Bound = Bound(fixed: bool, sig: nat, stop: int)

  /** Sizes of the conversion buffer: the header refuses less than 23; the widths stop at 65280. */
  const MIN_CAPACITY: nat := 23
  const MAX_CAPACITY: nat := 65280

  predicate IsCapacity(C: nat) { MIN_CAPACITY <= C <= MAX_CAPACITY }

  const INT_MIN: int := -0x8000_0000

  function FixedBound(C: nat, prec: nat): Bound
    requires C >= 1
  {
    Bound(true, C - 1, 0 - prec - 1)
  }

  function SignificantBound(sig: nat): Bound { Bound(false, sig, INT_MIN) }

  function IntegerDigits(man: nat, fixed: bool): nat {
    if man > 0 || fixed then |DecNumeral(man)| else 0
  }

  /** How many zeros the scaling loop may generate before one of the two bounds stops it. */
  function Room(n: nat, b: Bound): int {
    if n == 0 then -b.stop else Min(b.sig + 1 - n, -b.stop)
  }

  function Nudged(B: nat, s: F.Scaled): nat
    requires IsWidth(B)
  {
    (s.man + s.carry) % (16 * Unit(B))
  }

  /** The run once the fraction is scaled: n integer digits of man, then the zeros generated. */
  function Finish(B: nat, man: nat, n: nat, s: F.Scaled, b: Bound): Run
    requires IsWidth(B)
  {
    var g := man * Pow(10, s.zeros);
    var nsig := if n == 0 then 0 else n + s.zeros;
    if nsig <= b.sig && 0 - s.zeros > b.stop then
      var r := Generate(B, Nudged(B, s), g, 0, Min(b.sig + 1 - nsig, 0 - s.zeros - b.stop), false);
      Run(r.g, nsig + r.count, 0 - s.zeros - r.count, if s.exp >= 0 && r.rem >= 8 * Unit(B) then 1 else 0, r.rem == 0)
    else
      Run(g, nsig, 0 - s.zeros, if s.exp >= 0 && Nudged(B, s) >= 8 * Unit(B) then 1 else 0, Nudged(B, s) == 0)
  }

  function GenerateRun(B: nat, x: Finite, b: Bound): Run
    requires IsWidth(B) && IsFinite(x)
  {
    var i := I.Convert(B, x);
    var n := IntegerDigits(i.man, b.fixed);
    if !I.HasFraction(B, x) then Run(i.man, n, i.tens, i.carry, x.exp <= ShiftBits(B))
    else
      var s := F.Start(B, x);
      if s.man == 0 && s.carry == 0 then Run(i.man, n, 0, 0, true)
      else Finish(B, i.man, n, F.Scale(B, s, Room(n, b)), b)
  }

  /** No digits at all means zero: one '0' at exponent 0. */
  function OrZero(r: Run): Run {
    if r.nsig == 0 then Run(0, 1, 0, 0, r.tail) else r
  }

  function Excess(r: Run, b: Bound): int {
    if b.fixed then b.stop + 1 - r.dec else r.nsig - b.sig
  }

  /** The rounding decided by the first dropped digit; a tie needs nothing but zeros under it. */
  function GuardRounds(kept: nat, guard: nat, below: nat, tail: bool): nat {
    if guard == 5 && tail && below == 0 then kept % 2 else if guard >= 5 then 1 else 0
  }

  /** Drop the digits past what was asked for and decide the rounding from the first of them. */
  function Drop(r: Run, drop: int): Run
    requires drop < r.nsig
  {
    if drop <= 0 then r
    else
      var kept, low := High(r.g, drop), Low(r.g, drop);
      var guard, below := High(low, drop - 1), Low(low, drop - 1);
      Run(kept, r.nsig - drop, r.dec + drop, GuardRounds(kept, guard, below, r.tail),
          r.tail && (guard == 5 ==> below == 0))
  }

  /** Add the carry; a run of nines becomes a one followed by zeros, one decimal place up. */
  function Round(r: Run): Run
    requires r.nsig >= 1
  {
    if r.g + r.carry == Pow(10, r.nsig) then Run(Pow(10, r.nsig - 1), r.nsig, r.dec + 1, 0, r.tail)
    else r.(g := r.g + r.carry, carry := 0)
  }

  // ---------------------------------------------------------------------------------------------
  // Every input: the places of a run hold its digits, and the first is a significant one.

  predicate IsRun(r: Run) {
    r.g < Pow(10, r.nsig) && r.carry <= 1
  }

  predicate HasLead(r: Run) {
    r.nsig >= 1 && Pow(10, r.nsig - 1) <= r.g
  }

  predicate IsBound(b: Bound) {
    1 <= b.sig <= MAX_CAPACITY && (b.fixed ==> b.stop <= -1) && (!b.fixed ==> b.stop == INT_MIN)
  }

  lemma IntegerDigitsFit(B: nat, man: nat, fixed: bool)
    requires IsWidth(B) && man < 16 * Unit(B)
    ensures var n := IntegerDigits(man, fixed);
            && man < Pow(10, n) && n <= B
            && (man > 0 ==> n >= 1 && Pow(10, n - 1) <= man)
            && (n >= 1 ==> Dec(man, n) == DecNumeral(man))
  {
    var n := IntegerDigits(man, fixed);
    if n > 0 {
      NumeralLength(man, 10, 0);
      if man == 0 { assert Pow(10, 1) == 10; }
      NumeralLengthIs(man, n);
      UnitPowers(B);
      if n > B {
        PowersCompare(n - 1);
        PowMonotone(2, B, n - 1);
      }
    }
  }

  lemma {:induction false} PowersCompare(n: nat)
    ensures Pow(2, n) <= Pow(10, n)
  {
    if n > 0 { PowersCompare(n - 1); }
  }

  /** Appending c digits below g multiplies the places by 10^c. */
  lemma PlacesGrow(g: nat, g': nat, n: nat, c: nat)
    requires g * Pow(10, c) <= g' < (g + 1) * Pow(10, c)
    ensures g < Pow(10, n) ==> g' < Pow(10, n + c)
    ensures n >= 1 && Pow(10, n - 1) <= g ==> Pow(10, n + c - 1) <= g'
  {
    PowAdd(10, n, c);
    if g < Pow(10, n) { MulMonotone(g + 1, Pow(10, n), Pow(10, c)); }
    if n >= 1 && Pow(10, n - 1) <= g {
      PowAdd(10, n - 1, c);
      MulMonotone(Pow(10, n - 1), g, Pow(10, c));
    }
  }

  /** A state the scaling loop can leave behind, and a run of n integer digits before it. */
  predicate CanFinish(B: nat, man: nat, n: nat, s: F.Scaled, b: Bound)
    requires IsWidth(B)
  {
    && F.IsState(B, s) && IsBound(b)
    && man < Pow(10, n) && (n == 0 || man == 0 || Pow(10, n - 1) <= man)
    && (s.zeros < Room(n, b) ==> s.exp == 4 && s.digit)
    && (n == 0 && s.exp == 4 ==> s.man + s.carry >= Unit(B))
  }

  lemma NudgeIsPlain(B: nat, s: F.Scaled)
    requires IsWidth(B) && F.IsState(B, s) && s.exp == 4
    ensures Nudged(B, s) == s.man + s.carry < 10 * Unit(B)
  {
    DivModUnique(s.man + s.carry, 16 * Unit(B), 0, s.man + s.carry);
  }

  lemma FinishShape(B: nat, man: nat, n: nat, s: F.Scaled, b: Bound)
    requires IsWidth(B) && CanFinish(B, man, n, s, b)
    requires n == 0 ==> s.zeros < Room(n, b)
    ensures var r := Finish(B, man, n, s, b);
            && IsRun(r) && r.nsig >= 1
            && (man > 0 || n == 0 ==> HasLead(r))
            && r.dec + r.nsig == (if n == 0 then 0 - s.zeros else n) && r.dec <= 0
  {
    var nsig := if n == 0 then 0 else n + s.zeros;
    ZerosGrow(man, n, s.zeros);
    if n == 0 { assert man == 0 by { assert Pow(10, 0) == 1; } }
    if nsig <= b.sig && 0 - s.zeros > b.stop {
      NudgeIsPlain(B, s);
      var limit := Min(b.sig + 1 - nsig, 0 - s.zeros - b.stop);
      GenerateShape(B, Nudged(B, s), Tenfold(man, s.zeros), nsig, limit);
    }
  }

  lemma GenerateShape(B: nat, m: nat, g: nat, nsig: nat, limit: nat)
    requires IsWidth(B) && limit > 0 && m < 10 * Unit(B) && g < Pow(10, nsig)
    ensures var r := Generate(B, m, g, 0, limit, false);
            && r.g < Pow(10, nsig + r.count) && r.count > 0
            && (nsig >= 1 && Pow(10, nsig - 1) <= g ==> Pow(10, nsig + r.count - 1) <= r.g)
            && (nsig == 0 && m >= Unit(B) ==> Pow(10, r.count - 1) <= r.g)
  {
    GenerateDigits(B, m, g, 0, limit, false);
    var r := Generate(B, m, g, 0, limit, false);
    if nsig == 0 { assert Pow(10, 0) == 1; }
    hide *;
    PlacesGrow(g, r.g, nsig, r.count);
  }

  lemma ZerosGrow(g: nat, n: nat, z: nat)
    ensures g < Pow(10, n) ==> g * Pow(10, z) < Pow(10, n + z)
    ensures n >= 1 && Pow(10, n - 1) <= g ==> Pow(10, n + z - 1) <= g * Pow(10, z)
  {
    MulMonotone(g, g + 1, Pow(10, z));
    assert (g + 1) * Pow(10, z) == g * Pow(10, z) + Pow(10, z);
    PlacesGrow(g, g * Pow(10, z), n, z);
  }

  /** The state Finish starts from, for every finite input with a fraction worth scaling. */
  lemma ScaledState(B: nat, x: Finite, b: Bound)
    requires IsWidth(B) && IsFinite(x) && IsBound(b) && I.HasFraction(B, x)
    requires F.Start(B, x).man != 0 || F.Start(B, x).carry != 0
    ensures var i := I.Convert(B, x);
            var n := IntegerDigits(i.man, b.fixed);
            var s := F.Scale(B, F.Start(B, x), Room(n, b));
            && CanFinish(B, i.man, n, s, b)
            && (n == 0 ==> s.zeros < Room(n, b) && s.zeros <= 683)
            && (n == 0 ==> x.exp < 0)
  {
    var i := I.Convert(B, x);
    var n := IntegerDigits(i.man, b.fixed);
    I.ConvertBounds(B, x);
    IntegerDigitsFit(B, i.man, b.fixed);
    var s0 := F.Start(B, x);
    F.StartFits(B, x);
    F.ScaleFits(B, s0, Room(n, b));
    if Room(n, b) > 0 { F.ScaleStops(B, s0, Room(n, b)); }
    if n == 0 { L.FirstDigit(B, x, Room(n, b)); LeadingFour(B, x, Room(n, b)); }
  }

  lemma LeadingFour(B: nat, x: Finite, room: int)
    requires IsWidth(B) && IsFinite(x) && x.exp < 0
    requires F.Start(B, x).man != 0 || F.Start(B, x).carry != 0
    ensures var r := F.Scale(B, F.Start(B, x), room); r.exp == 4 && r.digit ==> r.man + r.carry >= Unit(B)
  {
    F.StartFits(B, x);
    L.StartAwake(B, x);
    L.ScaleAwake(B, F.Start(B, x), room);
  }

  /** The decimal places above the point. */
  function WholePlaces(i: I.Scaled, fixed: bool): nat { IntegerDigits(i.man, fixed) + i.tens }

  /**
   * Every finite input, every width: the run has its digits in place; the leading one is
   * significant, unless %f wrote a zero before the point; and the exponent of the leading digit
   * has at most three decimal digits.
   */
  lemma RunShape(B: nat, x: Finite, b: Bound)
    requires IsWidth(B) && IsFinite(x) && IsBound(b)
    ensures var r, i := GenerateRun(B, x, b), I.Convert(B, x);
            && IsRun(r)
            && (b.fixed ==> r.nsig >= 1)
            && (r.nsig >= 1 && (i.man > 0 || !b.fixed) ==> HasLead(r))
            && (b.fixed && i.man == 0 ==> r.dec + r.nsig == 1)
            && (b.fixed && I.HasFraction(B, x) ==> r.dec + r.nsig == IntegerDigits(i.man, true) && r.dec <= 0)
            && (b.fixed ==> r.dec + r.nsig >= 1)
            && (i.man > 0 || b.fixed ==> r.dec + r.nsig == WholePlaces(i, b.fixed))
            && (r.nsig >= 1 ==> -998 <= r.dec + r.nsig - 1 <= 998)
            && (r.nsig == 0 ==> r == Run(0, 0, 0, 0, true))
  {
    var i := I.Convert(B, x);
    var n := IntegerDigits(i.man, b.fixed);
    I.ConvertBounds(B, x);
    IntegerDigitsFit(B, i.man, b.fixed);
    if i.man == 0 { assert n == 0 || n == 1; }
    if I.HasFraction(B, x) && (F.Start(B, x).man != 0 || F.Start(B, x).carry != 0) {
      ScaledState(B, x, b);
      FinishShape(B, i.man, n, F.Scale(B, F.Start(B, x), Room(n, b)), b);
    }
  }

  // ---------------------------------------------------------------------------------------------
  // The conversions: generate, fix up zero, drop the excess, round.

  function Kept(B: nat, x: Finite, b: Bound): Run
    requires IsWidth(B) && IsFinite(x) && IsBound(b)
  {
    RunShape(B, x, b);
    var r := OrZero(GenerateRun(B, x, b));
    Drop(r, Excess(r, b))
  }

  /** %f: the number printed, in units of 10^-prec. */
  function FixedConversion(B: nat, C: nat, x: Finite, prec: nat): nat
    requires IsWidth(B) && IsFinite(x) && IsCapacity(C)
  {
    var r := Kept(B, x, FixedBound(C, prec));
    if r.dec + prec >= 0 then Tenfold(r.g + r.carry, r.dec + prec) else 0
  }

  /** %e and the first pass of %g: the run once rounded to at most sig significant digits. */
  function Significant(B: nat, x: Finite, sig: nat): Run
    requires IsWidth(B) && IsFinite(x) && 1 <= sig <= MAX_CAPACITY
  {
    var r := Kept(B, x, SignificantBound(sig));
    if r.nsig >= 1 then Round(r) else r
  }

  lemma DropShape(r: Run, drop: int)
    requires IsRun(r) && r.nsig >= 1 && drop < r.nsig
    ensures var d := Drop(r, drop);
            && IsRun(d) && d.nsig >= 1 && (HasLead(r) ==> HasLead(d))
            && d.nsig + d.dec == r.nsig + r.dec
            && d.nsig == r.nsig - Max(0, drop)
  {
    if drop > 0 {
      PowAdd(10, r.nsig - drop, drop);
      PowAdd(10, r.nsig - drop - 1, drop);
      hide Pow;
      HighBounds(r.g, Pow(10, drop), Pow(10, r.nsig - drop), Pow(10, r.nsig - drop - 1));
    }
  }

  lemma HighBounds(g: nat, p: nat, hi: nat, lo: nat)
    requires p > 0 && g < hi * p
    ensures g / p < hi && (lo * p <= g ==> lo <= g / p)
  {
    DivModEquation(g, p);
    MulCancelLess(g / p, hi, p);
    if lo * p <= g {
      assert (g / p + 1) * p == (g / p) * p + p;
      MulCancelLess(lo, g / p + 1, p);
    }
  }

  lemma RoundShape(r: Run)
    requires IsRun(r) && r.nsig >= 1
    ensures var t := Round(r);
            && IsRun(t) && t.nsig == r.nsig && t.carry == 0
            && (HasLead(r) ==> HasLead(t))
            && r.dec <= t.dec <= r.dec + 1
            && (t.dec == r.dec ==> t.g == r.g + r.carry)
            && (t.dec > r.dec ==> t.g * 10 == r.g + r.carry && HasLead(t))
  {
    assert Pow(10, r.nsig) == 10 * Pow(10, r.nsig - 1);
  }

  /** What every finite input leaves after dropping, in either style. */
  lemma KeptShape(B: nat, x: Finite, b: Bound)
    requires IsWidth(B) && IsFinite(x) && IsBound(b)
    ensures var r, i := Kept(B, x, b), I.Convert(B, x);
            && IsRun(r) && r.nsig >= 1
            && -998 <= r.dec + r.nsig - 1 <= 998
            && (!b.fixed ==> r.nsig <= b.sig)
            && (b.fixed ==> r.dec > b.stop && r.dec + r.nsig >= 1)
            && (HasLead(r) || (!b.fixed && r == Run(0, 1, 0, 0, true)) || (b.fixed && r.dec + r.nsig == 1))
  {
    RunShape(B, x, b);
    var g := GenerateRun(B, x, b);
    var r := OrZero(g);
    if g.nsig == 0 { assert IsRun(r) by { assert Pow(10, 1) == 10; } }
    DropShape(r, Excess(r, b));
  }

  /** What %e has to lay out, for every finite input: at most sig digits, a three-digit exponent. */
  lemma SignificantShape(B: nat, x: Finite, sig: nat)
    requires IsWidth(B) && IsFinite(x) && 1 <= sig <= MAX_CAPACITY
    ensures var r := Significant(B, x, sig);
            && IsRun(r) && 1 <= r.nsig <= sig && r.carry == 0
            && -999 <= r.dec + r.nsig - 1 <= 999
            && (HasLead(r) || r == Run(0, 1, 0, 0, true))
  {
    KeptShape(B, x, SignificantBound(sig));
    RoundShape(Kept(B, x, SignificantBound(sig)));
    assert Pow(10, 1) == 10;
  }
}
