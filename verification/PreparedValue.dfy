/**
 * What is printed of a value with a converted fraction, in or off the exact domain. Scaling leaves
 * one fraction behind, the integer part and the prepared mantissa over a power of two and of ten;
 * from there on no error is made: every style prints that fraction correctly rounded.
 */
module PreparedValue {
  import opened Arithmetic
  import opened Rounding
  import opened Numerals
  import opened DecimalText
  import opened Doubles
  import opened DigitGeneration
  import opened Shared
  import opened SharedExact
  import opened Shortest
  import opened SharedConversion
  import opened FloatPaths
  import opened FloatAgreement
  import opened FloatTexts
  import I = IntegerPart
  import F = FractionPart
  import Fused

  /** The state the first digit is read from. */
  function Prepared(B: nat, x: Finite): F.Scaled
    requires IsWidth(B) && IsFinite(x) && x.exp < MAN_BITS
  {
    F.Scale(B, F.Start(B, x), -INT_MIN)
  }

  /** Its mantissa, and the power of two and of ten the fraction was scaled by. */
  function Amount(B: nat, x: Finite): nat
    requires IsWidth(B) && IsFinite(x) && x.exp < MAN_BITS
  {
    Prepared(B, x).man + Prepared(B, x).carry
  }

  function Scaling(B: nat, x: Finite): (k: nat)
    requires IsWidth(B) && IsFinite(x) && x.exp < MAN_BITS
    ensures k > 0
  {
    MulPositive(Unit(B), Pow(10, Prepared(B, x).zeros + 1));
    Unit(B) * Pow(10, Prepared(B, x).zeros + 1)
  }

  /** The integer part and the prepared mantissa as one number of units 1 / Scaling. */
  function Total(B: nat, x: Finite): nat
    requires IsWidth(B) && IsFinite(x) && x.exp < MAN_BITS
  {
    I.Convert(B, x).man * Scaling(B, x) + Amount(B, x)
  }

  predicate IsCutToZero(B: nat, x: Finite)
    requires IsWidth(B) && IsFinite(x) && x.exp < MAN_BITS
  {
    F.Start(B, x).man == 0 && F.Start(B, x).carry == 0
  }

  // ---------------------------------------------------------------------------------------------
  // The run of digits covers that number.

  lemma PreparedIs(B: nat, x: Finite)
    requires IsWidth(B) && IsFinite(x) && x.exp < MAN_BITS
    ensures var s := Prepared(B, x);
            && s.exp == 4 && s.zeros <= 1022 && F.IsState(B, s) && (x.exp >= 0 ==> s.zeros == 0)
            && (IsCutToZero(B, x) ==> Amount(B, x) == 0)
  {
    var s := F.Start(B, x);
    F.StartFits(B, x);
    F.ScaleFits(B, s, -INT_MIN);
    F.ScaleZeros(B, s, -INT_MIN);
    if IsCutToZero(B, x) { ZeroScales(B, s, -INT_MIN); }
    assert s.zeros == 0 && s.exp >= -1022;
    hide F.Start, F.Scale, F.IsState;
  }

  /** With enough places the scaling ends in the same state. */
  lemma ScaleIsPrepared(B: nat, x: Finite, room: int)
    requires IsWidth(B) && IsFinite(x) && x.exp < MAN_BITS && Prepared(B, x).zeros < room
    ensures F.Scale(B, F.Start(B, x), room) == Prepared(B, x)
  {
    var s, most := F.Start(B, x), -INT_MIN;
    PreparedIs(B, x);
    F.StartFits(B, x);
    F.ScaleFits(B, s, room);
    hide F.Start, F.Scale, F.IsState;
    if room <= most {
      ScaleContinues(B, s, room, most);
      F.ScaleFits(B, F.Scale(B, s, room), most);
      ScaleDone(B, F.Scale(B, s, room), most);
    } else {
      ScaleContinues(B, s, most, room);
      ScaleDone(B, Prepared(B, x), room);
    }
  }

  /** The bound leaves room for the zeros in front of the first digit. */
  predicate ReachesDigit(B: nat, x: Finite, b: Bound)
    requires IsWidth(B) && IsFinite(x) && x.exp < MAN_BITS
  {
    IsCutToZero(B, x) || Prepared(B, x).zeros < Room(IntegerDigits(I.Convert(B, x).man, b.fixed), b)
  }

  lemma RunIsFinish(B: nat, x: Finite, b: Bound)
    requires IsWidth(B) && IsFinite(x) && IsBound(b) && I.HasFraction(B, x) && x.exp < MAN_BITS
    requires !IsCutToZero(B, x) && ReachesDigit(B, x, b)
    ensures var man := I.Convert(B, x).man;
            GenerateRun(B, x, b) == Finish(B, man, IntegerDigits(man, b.fixed), Prepared(B, x), b)
  {
    ScaleIsPrepared(B, x, Room(IntegerDigits(I.Convert(B, x).man, b.fixed), b));
    hide F.Scale, Finish, I.Convert, Numeral, Prepared, IsFinite;
  }

  /** The run of a state whose first digit is ready, by the digits generated from it. */
  lemma FinishIs(B: nat, man: nat, n: nat, s: F.Scaled, b: Bound)
    requires IsWidth(B) && IsBound(b) && F.IsState(B, s) && s.exp == 4 && s.zeros < Room(n, b) && s.zeros <= 1022
    ensures var nsig := if n == 0 then 0 else n + s.zeros;
            var limit := Min(b.sig + 1 - nsig, 0 - s.zeros - b.stop);
            limit >= 1 &&
            var h := Generate(B, s.man + s.carry, Tenfold(man, s.zeros), 0, limit, false);
            Finish(B, man, n, s, b) ==
            Run(h.g, nsig + h.count, 0 - s.zeros - h.count, if h.rem >= 8 * Unit(B) then 1 else 0, h.rem == 0)
  {
    NudgeIsPlain(B, s);
    hide Generate, Pow;
  }

  /** m units behind man, the digits h read off them and the rest, over z zeros. */
  lemma DigitsCover(r: Run, h: Generated, man: nat, m: nat, z: nat, u: nat)
    requires u > 0 && h.count >= 1 && h.rem % 16 == 0 && h.rem / 16 < u
    requires h.g * u + h.rem / 16 == (Tenfold(man, z) * Pow(10, h.count)) * u + m * Pow(10, h.count - 1)
    requires r.g == h.g && r.dec == 0 - z - h.count && (r.tail <==> h.rem == 0)
    ensures var K := u * Pow(10, z + 1);
            var rem := (h.rem / 16) * Pow(10, z + 1);
            Covers(r, man * K + m, K, rem) && (r.tail <==> rem == 0)
  {
    assert z + h.count == h.count - 1 + (z + 1);
    PowAdd(10, h.count - 1, z + 1);
    PowAdd(10, z, h.count);
    TenfoldIs(man, z);
    var p, ten, a, b := Pow(10, h.count - 1), Pow(10, z + 1), Pow(10, z), Pow(10, h.count);
    hide Pow, Tenfold;
    RunCovers(man, m, p, ten, a, b, h.g, u, h.rem / 16);
  }

  lemma RunCovers(man: nat, m: nat, p: nat, ten: nat, a: nat, b: nat, g: nat, u: nat, rest: nat)
    requires ten > 0 && rest < u && g * u + rest == ((man * a) * b) * u + m * p && a * b == p * ten
    ensures (man * (u * ten) + m) * (p * ten) == g * (u * ten) + rest * ten
    ensures rest * ten < u * ten && (rest * ten == 0 <==> rest == 0)
  {
    WholeMoves(man, u, ten, a * b);
    MulAssoc(man, a, b);
    MulAssoc(m, p, ten);
    MulAssoc(g, u, ten);
    var w, v := (man * (a * b)) * u, m * p;
    assert (w + v) * ten == (g * u + rest) * ten;
    MulMonotone(rest + 1, u, ten);
    if rest > 0 { MulPositive(rest, ten); }
  }

  lemma WholeMoves(man: nat, u: nat, ten: nat, c: nat)
    ensures (man * (u * ten)) * c == ((man * c) * u) * ten
  {
    MulShuffle(man, u * ten, c, 1);
    MulAssoc(man * c, u, ten);
    assert (man * (u * ten)) * c == (man * c) * (u * ten);
  }

  /** The digits of any run with a fraction, and what they leave, are the total; only a bound leaves anything. */
  lemma PreparedRun(B: nat, x: Finite, b: Bound) returns (rem: nat)
    requires IsWidth(B) && IsFinite(x) && IsBound(b) && I.HasFraction(B, x) && x.exp < MAN_BITS && ReachesDigit(B, x, b)
    ensures var r := GenerateRun(B, x, b);
            && Covers(r, Total(B, x), Scaling(B, x), rem)
            && (r.tail <==> rem == 0) && (rem == 0 ==> r.carry == 0) && (rem != 0 ==> StoppedBy(r, b))
  {
    PreparedIs(B, x);
    if IsCutToZero(B, x) {
      rem := 0;
      ZeroCovers(B, x, b);
    } else {
      var s, man := Prepared(B, x), I.Convert(B, x).man;
      var n := IntegerDigits(man, b.fixed);
      assert s.zeros < Room(n, b);
      assert Amount(B, x) == s.man + s.carry && Scaling(B, x) == Unit(B) * Pow(10, s.zeros + 1);
      assert Total(B, x) == man * Scaling(B, x) + Amount(B, x);
      hide *;
      RunIsFinish(B, x, b);
      rem := FinishCovers(B, man, n, s, b, Total(B, x), Scaling(B, x));
    }
  }

  lemma ZeroCovers(B: nat, x: Finite, b: Bound)
    requires IsWidth(B) && IsFinite(x) && IsBound(b) && I.HasFraction(B, x) && x.exp < MAN_BITS
    requires IsCutToZero(B, x) && Amount(B, x) == 0
    ensures var r := GenerateRun(B, x, b); Covers(r, Total(B, x), Scaling(B, x), 0) && r.tail && r.carry == 0
  {
    assert Pow(10, 0) == 1;
    hide I.Convert, F.Start, Scaling, Amount, Numeral, Pow, IsFinite;
  }

  lemma FinishCovers(B: nat, man: nat, n: nat, s: F.Scaled, b: Bound, V: nat, K: nat) returns (rem: nat)
    requires IsWidth(B) && IsBound(b) && F.IsState(B, s) && s.exp == 4 && s.zeros < Room(n, b) && s.zeros <= 1022
    requires K == Unit(B) * Pow(10, s.zeros + 1) && V == man * K + (s.man + s.carry)
    ensures var r := Finish(B, man, n, s, b);
            && Covers(r, V, K, rem)
            && (r.tail <==> rem == 0) && (rem == 0 ==> r.carry == 0) && (rem != 0 ==> StoppedBy(r, b))
  {
    FinishIs(B, man, n, s, b);
    var nsig := if n == 0 then 0 else n + s.zeros;
    var limit := Min(b.sig + 1 - nsig, 0 - s.zeros - b.stop);
    var m, g0 := s.man + s.carry, Tenfold(man, s.zeros);
    GenerateValue(B, m, g0, 0, limit, false);
    var h := Generate(B, m, g0, 0, limit, false);
    rem := (h.rem / 16) * Pow(10, s.zeros + 1);
    assert h.rem / 16 < Unit(B) && h.rem % 16 == 0;
    assert h.rem != 0 ==> StoppedBy(Finish(B, man, n, s, b), b);
    assert Unit(B) >= 16;
    hide Generate, Finish, Pow, Tenfold, Unit, F.IsState, Covers, Room;
    DigitsCover(Finish(B, man, n, s, b), h, man, m, s.zeros, Unit(B));
  }

  // ---------------------------------------------------------------------------------------------
  // %e

  /** There is something to print: an integer part, or a fraction the cut left something of. */
  predicate HasTotal(B: nat, x: Finite)
    requires IsWidth(B) && IsFinite(x) && x.exp < MAN_BITS
  {
    x.exp >= 0 || !IsCutToZero(B, x)
  }

  lemma ScientificReaches(B: nat, x: Finite, sig: nat)
    requires IsWidth(B) && IsFinite(x) && x.exp < MAN_BITS && 1 <= sig <= MAX_CAPACITY && HasTotal(B, x)
    requires I.HasFraction(B, x) && IntegerDigits(I.Convert(B, x).man, false) <= sig
    ensures ReachesDigit(B, x, SignificantBound(sig)) && GenerateRun(B, x, SignificantBound(sig)).nsig >= 1
  {
    var b, man := SignificantBound(sig), I.Convert(B, x).man;
    PreparedIs(B, x);
    I.ConvertBounds(B, x);
    if x.exp >= 0 {
      FloatPaths.SomeDigits(B, x, b);
    } else {
      assert man == 0;
      RunIsFinish(B, x, b);
      FinishIs(B, man, 0, Prepared(B, x), b);
      GenerateValue(B, Amount(B, x), Tenfold(man, Prepared(B, x).zeros), 0, sig + 1, false);
    }
    hide F.Scale, F.Start, Finish, GenerateRun, I.Convert, IsFinite, Prepared, Unit, Pow, F.IsState, Numeral;
  }

  /**
   * %e of every value with a fraction whose integer digits it prints, at every width: the total is
   * rounded half to even, and no second error is made.
   */
  lemma ScientificRounds(B: nat, x: Finite, sig: nat) returns (lead: int)
    requires IsWidth(B) && IsFinite(x) && x.exp < MAN_BITS && 1 <= sig <= MAX_CAPACITY && HasTotal(B, x)
    requires I.HasFraction(B, x) && IntegerDigits(I.Convert(B, x).man, false) <= sig
    ensures IsLeadExponent(Total(B, x), Scaling(B, x), lead)
    ensures Mantissa(Significant(B, x, sig), sig) == RoundSignificant(Total(B, x), Scaling(B, x), sig, lead)
  {
    var b := SignificantBound(sig);
    var r, V, K := GenerateRun(B, x, b), Total(B, x), Scaling(B, x);
    ScientificReaches(B, x, sig);
    var rem := PreparedRun(B, x, b);
    RunShape(B, x, b);
    KeptIs(B, x, b);
    SignificantOfKept(B, x, sig);
    lead := r.dec + r.nsig - 1;
    assert IsRun(r) && HasLead(r) && Kept(B, x, b) == Drop(r, r.nsig - sig);
    assert rem != 0 ==> r.nsig > sig;
    hide *;
    LeadOfRun(r, V, K, rem);
    KeptRounds(r, sig, V, K, rem, true);
    RoundedKept(Kept(B, x, b), sig, V, K, lead, true);
  }

  /** The same for the text. */
  lemma ScientificOutputRounds(B: nat, C: nat, x: Finite, prec: nat, alt: bool, adj: nat) returns (lead: int)
    requires IsWidth(B) && IsFinite(x) && IsCapacity(C) && IsCase(adj) && x.exp < MAN_BITS && HasTotal(B, x)
    requires I.HasFraction(B, x) && IntegerDigits(I.Convert(B, x).man, false) <= prec + 1 <= C - 7
    ensures IsLeadExponent(Total(B, x), Scaling(B, x), lead)
    ensures ScientificOutput(B, C, x, prec, alt, adj) ==
            Printed(ScientificOf(RoundSignificant(Total(B, x), Scaling(B, x), prec + 1, lead), prec, alt, adj))
  {
    assert prec + 1 <= MAX_CAPACITY;
    hide *;
    lead := ScientificRounds(B, x, prec + 1);
    NeverOverruns(B, C, x);
    ScientificOutputIs(B, C, x, prec, alt, adj);
  }

  // ---------------------------------------------------------------------------------------------
  // %f

  lemma FixedReaches(B: nat, C: nat, x: Finite, prec: nat)
    requires IsWidth(B) && IsFinite(x) && IsCapacity(C) && x.exp < MAN_BITS && HasRoom(B, C, x, prec)
    requires IsCutToZero(B, x) || Prepared(B, x).zeros <= prec
    ensures ReachesDigit(B, x, FixedBound(C, prec))
  {
    hide Prepared, I.Convert, Numeral;
  }

  /**
   * The shared %f of every value with a fraction, at every precision that reaches its first digit
   * and leaves it room: the total rounded half to even.
   */
  lemma SharedFixedRounds(B: nat, C: nat, x: Finite, prec: nat)
    requires IsWidth(B) && IsFinite(x) && IsCapacity(C) && x.exp < MAN_BITS && I.HasFraction(B, x)
    requires HasRoom(B, C, x, prec) && (IsCutToZero(B, x) || Prepared(B, x).zeros <= prec)
    ensures FixedConversion(B, C, x, prec) == RoundAt(Total(B, x), Scaling(B, x), prec)
  {
    var b := FixedBound(C, prec);
    var r := GenerateRun(B, x, b);
    FixedReaches(B, C, x, prec);
    var rem := PreparedRun(B, x, b);
    RunShape(B, x, b);
    assert rem != 0 ==> 0 - prec - r.dec > 0;
    hide *;
    CoveredRun(B, C, x, prec, Total(B, x), Scaling(B, x), rem);
  }

  /** So the fused one, at every precision but 0 on values next to one half. */
  lemma FusedRounds(B: nat, C: nat, x: Finite, prec: nat)
    requires IsWidth(B) && IsFinite(x) && IsCapacity(C) && x.exp < MAN_BITS && I.HasFraction(B, x)
    requires HasRoom(B, C, x, prec) && (IsCutToZero(B, x) || Prepared(B, x).zeros <= prec)
    ensures Fused.Conversion(B, x, prec) == RoundAt(Total(B, x), Scaling(B, x), prec) <==>
            !(prec == 0 && Diverges(B, x))
  {
    hide *;
    SharedFixedRounds(B, C, x, prec);
    PathsAgree(B, C, x, prec);
  }

  // ---------------------------------------------------------------------------------------------
  // %g

  /** A rounding that leaves something reaches the first digit. */
  lemma NonzeroReaches(B: nat, x: Finite, prec: nat)
    requires IsWidth(B) && IsFinite(x) && x.exp < MAN_BITS && RoundAt(Total(B, x), Scaling(B, x), prec) > 0
    ensures Prepared(B, x).zeros <= prec
  {
    PreparedIs(B, x);
    if x.exp < 0 && Prepared(B, x).zeros > prec {
      var z, u, m := Prepared(B, x).zeros, Unit(B), Amount(B, x);
      assert m < 10 * u && Total(B, x) == m && Scaling(B, x) == u * Pow(10, z + 1) by {
        assert I.Convert(B, x).man == 0;
      }
      hide *;
      TooSmall(m, u, z, prec);
    }
  }

  lemma TooSmall(m: nat, u: nat, z: nat, prec: nat)
    requires prec < z && m < 10 * u
    ensures u * Pow(10, z + 1) > 0 && RoundAt(m, u * Pow(10, z + 1), prec) == 0
  {
    hide *;
    var ten, rest := Pow(10, prec), Pow(10, z - 1 - prec);
    PowAdd(10, prec, z - 1 - prec);
    PowAdd(10, z - 1, 2);
    assert Pow(10, 2) == 100 by { HundredIs(); }
    MulPositive(u, Pow(10, z + 1));
    RoundAtUp(m, u * Pow(10, z + 1), prec);
    SmallAgainst(m, u, ten, rest);
    RoundFromParts(m * ten, u * Pow(10, z + 1), 0, m * ten);
  }

  lemma HundredIs()
    ensures Pow(10, 2) == 100
  {
  }

  lemma SmallAgainst(m: nat, u: nat, ten: nat, rest: nat)
    requires m < 10 * u && ten > 0 && rest > 0
    ensures 2 * (m * ten) < u * ((ten * rest) * 100)
  {
    MulMonotone(m + 1, 10 * u, ten);
    assert (m + 1) * ten == m * ten + ten && (10 * u) * ten == 10 * (u * ten);
    MulMonotone(1, rest, u * ten);
    assert u * ((ten * rest) * 100) == 100 * ((u * ten) * rest) by {
      MulAssoc(u, ten, rest);
      assert u * ((ten * rest) * 100) == (u * (ten * rest)) * 100;
    }
    assert rest * (u * ten) == (u * ten) * rest;
  }

  /** A text that fits has room for its digits. */
  lemma FittingHasRoom(B: nat, C: nat, x: Finite, prec: nat)
    requires IsWidth(B) && IsFinite(x) && x.exp < MAN_BITS
    requires |Fixed(RoundAt(Total(B, x), Scaling(B, x), prec), prec, true)| <= C
    ensures HasRoom(B, C, x, prec)
  {
    var man, K, V := I.Convert(B, x).man, Scaling(B, x), Total(B, x);
    assert man * K <= V;
    hide I.Convert, Scaling, Total, RoundAt, Fixed, Numeral, Pow, IsFinite;
    FloorOverWhole(man, V, K, prec);
    LongText(RoundAt(V, K, prec), man, prec, true);
  }

  lemma FixedByTotal(B: nat, C: nat, x: Finite)
    requires IsWidth(B) && IsFinite(x) && IsCapacity(C) && x.exp < MAN_BITS && I.HasFraction(B, x)
    ensures IsFixedBy(B, C, x, Total(B, x), Scaling(B, x))
  {
    var n, d := Total(B, x), Scaling(B, x);
    hide *;
    forall prec: nat | RoundAt(n, d, prec) > 0 && |Fixed(RoundAt(n, d, prec), prec, true)| <= C
      ensures FixedConversion(B, C, x, prec) == RoundAt(n, d, prec)
    {
      NonzeroReaches(B, x, prec);
      FittingHasRoom(B, C, x, prec);
      SharedFixedRounds(B, C, x, prec);
    }
    FixedByIs(B, C, x, n, d);
  }

  /** The first pass, once its digits are known. */
  lemma FirstPassIs(r: Run, sig: nat, n: nat, d: nat, lead: int)
    requires d > 0 && IsRun(r) && 1 <= r.nsig <= sig && (HasLead(r) || r == Run(0, 1, 0, 0, true))
    requires IsLeadExponent(n, d, lead) && Mantissa(r, sig) == RoundSignificant(n, d, sig, lead)
    ensures var m := RoundSignificant(n, d, sig, lead); IsFirstPass(r, n, d, sig, m.0, m.1)
  {
    hide RoundAt, Pow, Tenfold, IsLeadExponent;
    NonzeroMantissa(r, sig, n, d, lead);
    SignificantAsFixed(n, d, sig, lead);
  }

  /**
   * %g of every value with a fraction whose integer digits it prints, at every width: the text that
   * C11 section 7.21.6.1 paragraph 8 asks for, of the total.
   */
  lemma ShortestOutputRounds(B: nat, C: nat, x: Finite, prec: nat, alt: bool, adj: nat) returns (lead: int)
    requires IsWidth(B) && IsFinite(x) && IsCapacity(C) && IsCase(adj) && x.exp < MAN_BITS && HasTotal(B, x)
    requires I.HasFraction(B, x) && IntegerDigits(I.Convert(B, x).man, false) <= Precision(prec) <= C - 7
    ensures IsLeadExponent(Total(B, x), Scaling(B, x), lead)
    ensures var sig := Precision(prec);
            var m := RoundSignificant(Total(B, x), Scaling(B, x), sig, lead);
            ShortestOutput(B, C, x, prec, alt, adj) ==
            Printed(RightShortest(Total(B, x), Scaling(B, x), sig, alt, adj, m.0, m.1))
  {
    var sig, n, d := Precision(prec), Total(B, x), Scaling(B, x);
    SignificantShape(B, x, sig);
    var r := Significant(B, x, sig);
    hide *;
    lead := ScientificRounds(B, x, sig);
    var m := RoundSignificant(n, d, sig, lead);
    FirstPassIs(r, sig, n, d, lead);
    FixedByTotal(B, C, x);
    ShortestFrom(B, C, x, n, d, sig, !alt, r, m.0, m.1);
    NeverOverruns(B, C, x);
    ShortestRight(B, C, x, n, d, prec, alt, adj, lead);
  }
}
