/**
 * %e of values with more integer digits than it prints, exact or not: the integer part is right
 * whatever the fraction, so all that can go wrong is what the code believes the fraction to be.
 */
module ScientificInteger {
  import opened Arithmetic
  import opened Rounding
  import opened Numerals
  import opened Doubles
  import opened Shared
  import opened SharedExact
  import opened SharedConversion
  import opened FloatTexts
  import Shortest
  import FloatAgreement
  import I = IntegerPart
  import F = FractionPart

  /** A fraction that is not zero looks like zero: below the cut, or wrapped around by its carry. */
  predicate Vanishes(B: nat, x: Finite)
    requires IsWidth(B) && IsFinite(x) && x.exp < MAN_BITS
  {
    Num(x) % Den(x) != 0 && Nudged(B, F.Start(B, x)) == 0
  }

  lemma NudgedIs(B: nat, s: F.Scaled)
    requires IsWidth(B) && s.man < 16 * Unit(B) && s.carry <= 1
    ensures Nudged(B, s) == 0 <==> (s.man == 0 && s.carry == 0) || (s.man == 16 * Unit(B) - 1 && s.carry == 1)
  {
    var m, d := s.man + s.carry, 16 * Unit(B);
    if m < d { DivModUnique(m, d, 0, m); } else { DivModUnique(m, d, 1, 0); }
  }

  /** A value without a fraction leaves none in the cut. */
  lemma WholeHasNoCut(B: nat, x: Finite)
    requires IsWidth(B) && IsFinite(x) && 0 <= x.exp < MAN_BITS && Num(x) % Den(x) == 0
    ensures F.Start(B, x).man == 0 && F.Start(B, x).carry == 0
  {
    BitConstants();
    var p := Pow(2, BIN_BITS - MAN_BITS + x.exp);
    PowAdd(2, MAN_BITS - x.exp, BIN_BITS - MAN_BITS + x.exp);
    assert Num(x) == x.bin * 1;
    DivScale(x.bin, Den(x), p);
    assert Shl(x.bin, BIN_BITS - MAN_BITS + x.exp) % BIN_MODULUS == 0;
    hide Pow;
    NoBits(BIN_BITS - B);
    NoBits(BIN_BITS - B - 1);
  }

  lemma WholeIsSeen(B: nat, x: Finite)
    requires IsWidth(B) && IsFinite(x) && 0 <= x.exp < MAN_BITS
    ensures Num(x) % Den(x) == 0 ==> Nudged(B, F.Start(B, x)) == 0
  {
    if Num(x) % Den(x) == 0 {
      WholeHasNoCut(B, x);
      NudgedIs(B, F.Start(B, x));
    }
  }

  lemma NoBits(k: int)
    ensures k >= 0 ==> Shr(0, k) == 0
    ensures k <= 0 ==> Shl(0, -k) == 0
  {
    if k >= 0 { DivModUnique(0, Pow(2, k), 0, 0); }
  }

  /** The run generated: the integer digits alone, and whether the cut shows a fraction behind them. */
  lemma WholeRun(B: nat, x: Finite, sig: nat)
    requires IsWidth(B) && IsFinite(x) && I.HasFraction(B, x) && x.exp >= 0 && 1 <= sig <= MAX_CAPACITY
    requires |DecNumeral(Num(x) / Den(x))| > sig
    ensures var r, whole := GenerateRun(B, x, SignificantBound(sig)), Num(x) / Den(x);
            && r.g == whole && r.nsig == |DecNumeral(whole)| && r.dec == 0
            && (r.tail <==> Nudged(B, F.Start(B, x)) == 0)
            && IsRun(r) && HasLead(r) && Kept(B, x, SignificantBound(sig)) == Drop(r, r.nsig - sig)
  {
    var b, s := SignificantBound(sig), F.Start(B, x);
    I.ConvertWhole(B, x);
    I.ConvertBounds(B, x);
    RunShape(B, x, b);
    F.StartFits(B, x);
    NudgedIs(B, s);
    var man := I.Convert(B, x).man;
    assert F.Scale(B, s, Room(|DecNumeral(man)|, b)) == s;
    assert man * Pow(10, 0) == man by { assert Pow(10, 0) == 1; }
    hide I.Convert, F.Start, F.Scale, Numeral, Pow, Unit, Num, Den, Nudged;
    assert s.zeros == 0;
  }

  /** What the value and the digits in front of its point round to, given that something is behind it. */
  lemma FloorCovers(r: Run, n: nat, d: nat)
    requires d > 0 && r.g == n / d && r.dec == 0
    ensures Covers(r, n, d, n % d) && Covers(r, n / d, 1, 0)
  {
    assert Pow(10, 0) == 1;
    DivModEquation(n, d);
  }

  /** The cut made by the code, against the value: off by one exactly for a tie that is none. */
  lemma CutInteger(r: Run, n: nat, d: nat, sig: nat)
    requires d > 0 && r.g == n / d && r.dec == 0 && 1 <= sig < r.nsig
    requires n % d == 0 ==> r.tail
    ensures var c, s := Drop(r, r.nsig - sig), sig - r.nsig;
            var off := if n % d != 0 && r.tail && IsEvenTie(n / d, 1, s) then 1 else 0;
            c.g + c.carry + off == RoundAt(n, d, s) && c.carry + off <= 1
  {
    var drop := r.nsig - sig;
    var blind := r.(tail := false);
    assert Drop(r, drop).g == Drop(blind, drop).g && Drop(r, drop).carry <= 1 && Drop(blind, drop).carry <= 1;
    FloorCovers(r, n, d);
    FloorCovers(blind, n, d);
    hide Covers, Drop, RoundAt, IsEvenTie;
    if n % d == 0 {
      DropExact(r, drop, n, d, 0);
    } else {
      DropExact(blind, drop, n, d, n % d);
      DropExact(blind, drop, n / d, 1, 0);
      if r.tail { DropExact(r, drop, n / d, 1, 0); } else { assert r == blind; }
    }
  }

  /**
   * %e of a value with a fraction and more than sig integer digits, at every width: the value
   * rounded half to even, if and only if not both the fraction vanishes in the cut and the integer
   * part alone is a tie above an even digit.
   */
  lemma ScientificAtInteger(B: nat, x: Finite, sig: nat) returns (lead: int)
    requires IsWidth(B) && IsFinite(x) && I.HasFraction(B, x) && x.exp >= 0 && 1 <= sig <= MAX_CAPACITY
    requires |DecNumeral(Num(x) / Den(x))| > sig
    ensures IsLeadExponent(Num(x), Den(x), lead) && lead == |DecNumeral(Num(x) / Den(x))| - 1
    ensures Mantissa(Significant(B, x, sig), sig) == RoundSignificant(Num(x), Den(x), sig, lead) <==>
            !(Vanishes(B, x) && IsEvenTie(Num(x) / Den(x), 1, sig - 1 - lead))
    ensures IsMantissa(RoundSignificant(Num(x), Den(x), sig, lead), sig)
  {
    var n, d, r, k := Num(x), Den(x), GenerateRun(B, x, SignificantBound(sig)), Kept(B, x, SignificantBound(sig));
    hide GenerateRun, Kept, Significant, Num, Den, Numeral, F.Start, Nudged, IsFinite, I.HasFraction, IsRun, HasLead,
        IsEvenTie, Pow, IsLeadExponent, RoundSignificant, Mantissa, I.Convert;
    WholeRun(B, x, sig);
    WholeIsSeen(B, x);
    RunShape(B, x, SignificantBound(sig));
    SignificantOfKept(B, x, sig);
    lead := r.nsig - 1;
    var unseen := Vanishes(B, x) && IsEvenTie(n / d, 1, sig - 1 - lead);
    assert unseen <==> n % d != 0 && r.tail && IsEvenTie(n / d, 1, sig - r.nsig);
    hide *;
    CutInteger(r, n, d, sig);
    FloorCovers(r, n, d);
    LeadOfRun(r, n, d, n % d);
    DropShape(r, r.nsig - sig);
    TenfoldZero(k.g + k.carry);
    RoundedMantissa(k, sig, k.g + k.carry, lead);
    RoundsOrNot(k, n, d, sig, lead, if unseen then 1 else 0);
  }

  lemma RoundsOrNot(k: Run, n: nat, d: nat, sig: nat, lead: int, off: nat)
    requires d > 0 && sig >= 1 && IsRun(k) && k.nsig == sig && -998 <= lead <= 998 && off <= 1
    requires k.g + k.carry + off == RoundAt(n, d, sig - 1 - lead)
    requires Mantissa(Round(k), sig) ==
             if k.g + k.carry == Pow(10, sig) then (Pow(10, sig - 1), lead + 1) else (k.g + k.carry, lead)
    requires k.carry + off <= 1
    ensures Mantissa(Round(k), sig) == RoundSignificant(n, d, sig, lead) <==> off == 0
    ensures IsMantissa(RoundSignificant(n, d, sig, lead), sig)
  {
    hide RoundAt, Mantissa, Round, Pow;
    SignificantFits(n, d, sig, lead);
  }

  /** From 64 bits on the cut holds every bit of the fraction. */
  lemma WideNeverVanishes(B: nat, x: Finite)
    requires IsWidth(B) && IsFinite(x) && 0 <= x.exp < MAN_BITS && B >= BIN_BITS
    ensures !Vanishes(B, x)
  {
    BitConstants();
    var d, p := Den(x), Pow(2, BIN_BITS - MAN_BITS + x.exp);
    PowAdd(2, MAN_BITS - x.exp, BIN_BITS - MAN_BITS + x.exp);
    assert Num(x) == x.bin * 1;
    DivScale(x.bin, d, p);
    assert F.Start(B, x).man == ((x.bin % d) * p) * Pow(2, B - BIN_BITS) && F.Start(B, x).carry == 0;
    F.StartFits(B, x);
    NudgedIs(B, F.Start(B, x));
    hide F.Start, Pow, Num, Den;
    if x.bin % d != 0 {
      MulPositive(x.bin % d, p);
      MulPositive((x.bin % d) * p, Pow(2, B - BIN_BITS));
    }
  }

  /** The same for the text. */
  lemma ScientificOutputAtInteger(B: nat, C: nat, x: Finite, prec: nat, alt: bool, adj: nat) returns (lead: int)
    requires IsWidth(B) && IsFinite(x) && IsCapacity(C) && IsCase(adj) && prec + 1 <= C - 7
    requires I.HasFraction(B, x) && x.exp >= 0 && |DecNumeral(Num(x) / Den(x))| > prec + 1
    ensures IsLeadExponent(Num(x), Den(x), lead) && lead == |DecNumeral(Num(x) / Den(x))| - 1
    ensures ScientificOutput(B, C, x, prec, alt, adj) == Printed(RightScientific(x, prec, alt, adj, lead)) <==>
            !(Vanishes(B, x) && IsEvenTie(Num(x) / Den(x), 1, prec - lead))
  {
    lead := ScientificAtInteger(B, x, prec + 1);
    FloatAgreement.NeverOverruns(B, C, x);
    ScientificOutputIs(B, C, x, prec, alt, adj);
    RightIs(x, prec, alt, adj, lead);
    hide *;
    OutputsEqual(Mantissa(Significant(B, x, prec + 1), prec + 1), RoundSignificant(Num(x), Den(x), prec + 1, lead),
        prec, alt, adj);
  }

  /** And for %g, which is in style e there. */
  lemma ShortestOutputAtInteger(B: nat, C: nat, x: Finite, prec: nat, alt: bool, adj: nat) returns (lead: int)
    requires IsWidth(B) && IsFinite(x) && IsCapacity(C) && IsCase(adj) && Shortest.Precision(prec) <= C - 7
    requires I.HasFraction(B, x) && x.exp >= 0 && |DecNumeral(Num(x) / Den(x))| > Shortest.Precision(prec)
    ensures IsLeadExponent(Num(x), Den(x), lead) && lead == |DecNumeral(Num(x) / Den(x))| - 1
    ensures var sig := Shortest.Precision(prec);
            var m := RoundSignificant(Num(x), Den(x), sig, lead);
            ShortestOutput(B, C, x, prec, alt, adj) == Printed(RightShortest(Num(x), Den(x), sig, alt, adj, m.0, m.1)) <==>
            !(Vanishes(B, x) && IsEvenTie(Num(x) / Den(x), 1, sig - 1 - lead))
  {
    var sig := Shortest.Precision(prec);
    assert sig <= MAX_CAPACITY;
    hide *;
    lead := ScientificAtInteger(B, x, sig);
    FloatAgreement.NeverOverruns(B, C, x);
    RunLead(B, x, sig);
    ShortestLarge(B, C, x, Num(x), Den(x), prec, alt, adj, lead);
  }

  lemma RunLead(B: nat, x: Finite, sig: nat)
    requires IsWidth(B) && IsFinite(x) && I.HasFraction(B, x) && x.exp >= 0 && 1 <= sig <= MAX_CAPACITY
    requires |DecNumeral(Num(x) / Den(x))| > sig
    ensures var r := Significant(B, x, sig); HasLead(r) && |DecNumeral(Num(x) / Den(x))| - 1 <= r.dec + r.nsig - 1
  {
    var b := SignificantBound(sig);
    WholeRun(B, x, sig);
    SignificantOfKept(B, x, sig);
    var r := GenerateRun(B, x, b);
    hide GenerateRun, Kept, Significant, IsFinite, Num, Den, Numeral, Nudged;
    DropShape(r, r.nsig - sig);
    RoundShape(Kept(B, x, b));
  }

  /** 26 - 2^-33: its 33 fraction bits are ones, which the carry of a 32-bit cut wraps around to zero. */
  lemma OnesVanish(x: Finite)
    requires x == Finite((26 * 0x2_0000_0000 - 1) * 0x8000, 4)
    ensures IsFinite(x) && Vanishes(32, x) && Num(x) / Den(x) == 25
  {
    FloatAgreement.Powers(32);
    BitConstants();
    assert Pow(2, 4) == 16;
    PowAdd(2, 12, 4);
    PowAdd(2, 48, 4);
    assert Num(x) == x.bin * 1 && Den(x) == 0x1_0000_0000_0000;
    DivModUnique(Num(x), Den(x), 25, 0x1_FFFF_FFFF * 0x8000);
    var bits := Shl(x.bin, BIN_BITS - MAN_BITS + 4) % BIN_MODULUS;
    assert bits == 0xFFFF_FFFF_8000_0000 by { assert Shl(x.bin, BIN_BITS - MAN_BITS + 4) == x.bin * 65536; }
    assert Shr(bits, 32) == 0xFFFF_FFFF && Shr(bits, 31) == 0x1_FFFF_FFFF;
    assert F.Start(32, x) == F.Scaled(0xFFFF_FFFF, 1, 0, false, 0);
    NudgedIs(32, F.Start(32, x));
  }

  /** %.0e of 26 - 2^-33 with a 32-bit integer: 2e+01 where the nearest is 3e+01. */
  lemma VanishingTie() returns (lead: int)
    ensures var x := Finite((26 * 0x2_0000_0000 - 1) * 0x8000, 4);
            && IsFinite(x) && IsLeadExponent(Num(x), Den(x), lead)
            && ScientificOutput(32, 64, x, 0, false, 32) != Printed(RightScientific(x, 0, false, 32, lead))
  {
    var x := Finite((26 * 0x2_0000_0000 - 1) * 0x8000, 4);
    OnesVanish(x);
    lead := PrintsTwo(x);
  }

  lemma PrintsTwo(x: Finite) returns (lead: int)
    requires IsFinite(x) && 0 <= x.exp < 31 && Vanishes(32, x) && Num(x) / Den(x) == 25
    ensures IsLeadExponent(Num(x), Den(x), lead)
    ensures ScientificOutput(32, 64, x, 0, false, 32) != Printed(RightScientific(x, 0, false, 32, lead))
  {
    assert I.HasFraction(32, x);
    hide *;
    TwentyFive();
    lead := ScientificOutputAtInteger(32, 64, x, 0, false, 32);
  }

  lemma TwentyFive()
    ensures |DecNumeral(25)| == 2 && IsEvenTie(25, 1, -1)
  {
    assert Pow(10, 1) == 10 && Pow(10, 2) == 100;
    NumeralLengthIs(25, 2);
  }
}
