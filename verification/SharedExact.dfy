/**
 * The shared conversion on the exact domain, where v = V / K with K = 2^(B-3): a run of digits
 * covers v up to a remainder below one unit of its last place, and rounding it is rounding v.
 */
module SharedExact {
  import opened Arithmetic
  import opened Rounding
  import opened Numerals
  import opened DecimalText
  import opened Doubles
  import opened DigitGeneration
  import opened Shared
  import I = IntegerPart
  import F = FractionPart

  ghost predicate Covers(r: Run, V: nat, K: nat, rem: nat) {
    r.dec <= 0 && rem < K && V * Pow(10, -r.dec) == r.g * K + rem
  }

  /** Generation ended because a bound stopped it, unless nothing is left of the value. */
  predicate StoppedBy(r: Run, b: Bound) {
    if b.fixed then r.dec <= b.stop || r.nsig > b.sig else r.nsig > b.sig
  }

  lemma GeneratedParts(whole: nat, Q: nat, u: nat, tz: nat, tc: nat, g: nat, r16: nat)
    requires g * u + r16 == ((whole * tz) * (10 * tc)) * u + (5 * (Q * tz)) * tc
    ensures (whole * (2 * u) + Q) * (tz * (10 * tc)) == g * (2 * u) + 2 * r16
  {
    var a := tz * (10 * tc);
    assert (whole * (2 * u)) * a == 2 * ((whole * a) * u) by {
      assert (whole * (2 * u)) * a == (whole * a) * (2 * u);
    }
    assert (whole * tz) * (10 * tc) == whole * a;
    assert (5 * (Q * tz)) * tc == 5 * ((Q * tz) * tc);
    assert Q * a == (Q * tz) * (10 * tc) == 10 * ((Q * tz) * tc);
    assert g * (2 * u) == 2 * (g * u);
  }

  /** The digits generated after z zeros, with what is left, add up to the value again. */
  lemma GenerateExact(B: nat, whole: nat, Q: nat, z: nat, limit: nat)
    requires IsWidth(B) && limit > 0
    ensures var r := Generate(B, 5 * (Q * Pow(10, z)), whole * Pow(10, z), 0, limit, false);
            && (whole * (2 * Unit(B)) + Q) * Pow(10, z + r.count) == r.g * (2 * Unit(B)) + r.rem / 8
            && r.rem % 16 == 0 && r.rem < 16 * Unit(B)
            && 0 < r.count <= limit && (r.rem != 0 ==> r.count == limit)
  {
    var m, g := 5 * (Q * Pow(10, z)), whole * Pow(10, z);
    GenerateValue(B, m, g, 0, limit, false);
    var r := Generate(B, m, g, 0, limit, false);
    PowAdd(10, z, r.count);
    GeneratedParts(whole, Q, Unit(B), Pow(10, z), Pow(10, r.count - 1), r.g, r.rem / 16);
  }

  lemma FinishGenerates(B: nat, whole: nat, Q: nat, n: nat, s: F.Scaled, b: Bound) returns (rem: nat)
    requires IsWidth(B) && s.exp == 4 && s.digit && F.IsState(B, s) && F.IsExactly(s, Q)
    requires 0 - s.zeros > b.stop && (if n == 0 then 0 <= b.sig else n + s.zeros <= b.sig)
    requires !b.fixed ==> b.stop + b.sig + s.zeros < 0
    ensures var r := Finish(B, whole, n, s, b);
            && Covers(r, whole * (2 * Unit(B)) + Q, 2 * Unit(B), rem)
            && (r.tail <==> rem == 0)
            && (rem == 0 ==> r.carry == 0)
            && (rem != 0 ==> StoppedBy(r, b))
  {
    F.ReadyMantissa(s, Q);
    NudgeIsPlain(B, s);
    var nsig := if n == 0 then 0 else n + s.zeros;
    var limit := Min(b.sig + 1 - nsig, 0 - s.zeros - b.stop);
    GenerateExact(B, whole, Q, s.zeros, limit);
    rem := Generate(B, 5 * (Q * Pow(10, s.zeros)), whole * Pow(10, s.zeros), 0, limit, false).rem / 8;
  }

  /** The loop ran out of room on a zero: the run is full and something is left. */
  lemma FinishStops(B: nat, whole: nat, Q: nat, n: nat, s: F.Scaled, b: Bound)
    requires IsWidth(B) && s.exp <= 0 && !s.digit && F.IsState(B, s) && F.IsExactly(s, Q) && Q > 0
    requires n > 0 && s.zeros >= Room(n, b) && s.zeros < -INT_MIN
    requires !b.fixed ==> b.stop == INT_MIN
    ensures var r := Finish(B, whole, n, s, b);
            && Covers(r, whole * (2 * Unit(B)) + Q, 2 * Unit(B), Q * Pow(10, s.zeros))
            && Q * Pow(10, s.zeros) > 0 && !r.tail && StoppedBy(r, b)
  {
    var ten := Pow(10, s.zeros);
    F.StoppedMantissa(B, s, Q, ten);
    WholeNudge(B, s);
    hide Pow, F.IsExactly, Unit;
    MulPositive(Q, ten);
    TimesTen(whole, Unit(B), Q, ten);
  }

  lemma WholeNudge(B: nat, s: F.Scaled)
    requires IsWidth(B) && s.carry == 0 && s.man < 16 * Unit(B)
    ensures Nudged(B, s) == s.man
  {
    DivModUnique(s.man, 16 * Unit(B), 0, s.man);
  }

  lemma TimesTen(whole: nat, u: nat, Q: nat, ten: nat)
    ensures (whole * (2 * u) + Q) * ten == (whole * ten) * (2 * u) + Q * ten
  {
  }

  /** A run generated on the exact domain covers the value; only a bound leaves a remainder. */
  lemma RunExact(B: nat, x: Finite, b: Bound, V: nat) returns (rem: nat)
    requires IsWidth(B) && IsFinite(x) && IsExact(B, x, V) && IsBound(b)
    ensures var r := GenerateRun(B, x, b);
            && Covers(r, V, Pow(2, B - 3), rem)
            && (r.tail <==> rem == 0 && x.exp <= ShiftBits(B))
            && (rem == 0 ==> r.carry == 0)
            && (rem != 0 ==> StoppedBy(r, b) && x.exp < MAN_BITS)
  {
    var K := Pow(2, B - 3);
    var whole, Q := V / K, V % K;
    I.ConvertExact(B, x, V);
    DivModEquation(V, K);
    rem := 0;
    if x.exp < MAN_BITS {
      F.StartExact(B, x, V);
      ZeroStart(B, F.Start(B, x), Q);
      if Q > 0 {
        rem := FinishExact(B, x, b, V);
      }
    }
    if Q == 0 || x.exp >= MAN_BITS {
      assert Pow(10, 0) == 1 && V * 1 == V;
    }
  }

  lemma ZeroStart(B: nat, s: F.Scaled, Q: nat)
    requires s.exp <= 0 && !s.digit && s.zeros == 0 && F.IsExactly(s, Q)
    ensures s.man == 0 && s.carry == 0 <==> Q == 0
  {
    assert Pow(10, 0) == 1;
    hide Pow;
    if Q > 0 { MulPositive(Q * 1, Pow(2, 4 - s.exp)); }
  }

  lemma FinishExact(B: nat, x: Finite, b: Bound, V: nat) returns (rem: nat)
    requires IsWidth(B) && IsFinite(x) && IsExact(B, x, V) && IsBound(b) && x.exp < MAN_BITS
    requires V % Pow(2, B - 3) > 0 && I.Convert(B, x).man == V / Pow(2, B - 3) && I.HasFraction(B, x)
    ensures var r := GenerateRun(B, x, b);
            && Covers(r, V, Pow(2, B - 3), rem)
            && (r.tail <==> rem == 0)
            && (rem == 0 ==> r.carry == 0)
            && (rem != 0 ==> StoppedBy(r, b))
  {
    var whole, Q := V / Pow(2, B - 3), V % Pow(2, B - 3);
    var n := IntegerDigits(whole, b.fixed);
    F.StartExact(B, x, V);
    F.StartFits(B, x);
    ZeroStart(B, F.Start(B, x), Q);
    ScaledState(B, x, b);
    F.ScaleExact(B, F.Start(B, x), Room(n, b), Q);
    F.ScaleZeros(B, F.Start(B, x), Room(n, b));
    var s := F.Scale(B, F.Start(B, x), Room(n, b));
    DivModEquation(V, Pow(2, B - 3));
    UnitPowers(B);
    if s.zeros < Room(n, b) {
      rem := FinishGenerates(B, whole, Q, n, s, b);
    } else {
      StoppedState(B, x, b);
      FinishStops(B, whole, Q, n, s, b);
      rem := Q * Pow(10, s.zeros);
    }
  }

  lemma StoppedState(B: nat, x: Finite, b: Bound)
    requires IsWidth(B) && IsFinite(x) && x.exp < MAN_BITS
    ensures var n := IntegerDigits(I.Convert(B, x).man, b.fixed);
            var s := F.Scale(B, F.Start(B, x), Room(n, b));
            F.IsState(B, s) && (s.zeros >= Room(n, b) ==> s.exp <= 0 && !s.digit)
  {
    var room := Room(IntegerDigits(I.Convert(B, x).man, b.fixed), b);
    F.StartFits(B, x);
    F.ScaleFits(B, F.Start(B, x), room);
    if room > 0 { F.ScaleStops(B, F.Start(B, x), room); }
  }

  // ---------------------------------------------------------------------------------------------
  // Dropping excess digits rounds the value, half to even, as long as tail tells the truth.

  lemma SplitDigits(g: nat, drop: nat)
    requires drop > 0
    ensures var kept, low := High(g, drop), Low(g, drop);
            var guard, below := High(low, drop - 1), Low(low, drop - 1);
            guard < 10 && below < Pow(10, drop - 1) && g == (kept * 10 + guard) * Pow(10, drop - 1) + below
  {
    var p := Pow(10, drop - 1);
    var kept, low := High(g, drop), Low(g, drop);
    assert Pow(10, drop) == 10 * p;
    DivModEquation(g, 10 * p);
    DivModEquation(low, p);
    MulCancelLess(low / p, 10, p);
    assert (kept * 10) * p == kept * (10 * p);
  }

  lemma DropExact(r: Run, drop: nat, V: nat, K: nat, rem: nat)
    requires Covers(r, V, K, rem) && 0 < drop < r.nsig && (r.tail ==> rem == 0)
    ensures var d := Drop(r, drop);
            var s := 0 - r.dec - drop;
            && ((r.tail <==> rem == 0) ==> d.g + d.carry == RoundAt(V, K, s))
            && (!r.tail && rem == 0 ==>
                  d.g + d.carry == RoundAt(V, K, s) + if IsEvenTie(V, K, s) then 1 else 0)
  {
    var t: nat := -r.dec;
    var low := Low(r.g, drop);
    var kept, guard, below := High(r.g, drop), High(low, drop - 1), Low(low, drop - 1);
    var p := Pow(10, drop - 1);
    SplitDigits(r.g, drop);
    RoundByGuard(V * Pow(10, t), K, p, kept, guard, below, rem);
    RoundAtShift(V, K, t, drop);
    TenUnits(K, drop);
    hide RoundHalfEven, IsEvenHalf, RoundAt, IsEvenTie, High, Low, Pow;
    MulPositive(K, Pow(10, drop));
    assert RoundScaled(V * Pow(10, t), K, Pow(10, drop)) == RoundHalfEven(V * Pow(10, t), 10 * (p * K));
  }

  lemma TenUnits(K: nat, drop: nat)
    requires drop > 0
    ensures K * Pow(10, drop) == 10 * (Pow(10, drop - 1) * K)
  {
    assert Pow(10, drop) == 10 * Pow(10, drop - 1);
    assert K * (10 * Pow(10, drop - 1)) == 10 * (Pow(10, drop - 1) * K);
  }

  /** Nothing to drop and nothing left: the digits, padded with zeros, are the value itself. */
  lemma PadExact(r: Run, V: nat, K: nat, s: nat)
    requires K > 0 && Covers(r, V, K, 0) && 0 - r.dec <= s
    ensures r.g * Pow(10, r.dec + s) == RoundAt(V, K, s) && !IsEvenTie(V, K, s)
  {
    var a := Pow(10, r.dec + s);
    PowAdd(10, -r.dec, r.dec + s);
    RoundAtUp(V, K, s);
    hide Pow, RoundAt, RoundHalfEven, IsEvenTie;
    PadMoves(V, K, r.g, Pow(10, -r.dec), a);
    RoundFromParts(V * Pow(10, s), K, r.g * a, 0);
    DivModUnique(V * Pow(10, s), K, r.g * a, 0);
  }

  lemma PadMoves(V: nat, K: nat, g: nat, ten: nat, a: nat)
    requires V * ten == g * K
    ensures V * (ten * a) == (g * a) * K
  {
    assert V * (ten * a) == (V * ten) * a == (g * K) * a;
  }

  // ---------------------------------------------------------------------------------------------
  // %f

  lemma LongText(n: nat, man: nat, prec: nat, point: bool)
    requires man * Pow(10, prec) <= n
    ensures |Fixed(n, prec, point)| >= prec + (if point then 1 else 0) + |DecNumeral(man)|
  {
    var p := Pow(10, prec);
    DivModEquation(n, p);
    assert (n / p + 1) * p == (n / p) * p + p;
    MulCancelLess(man, n / p + 1, p);
    NumeralLengthMonotone(man, n / p);
  }

  lemma SixteenDigits(man: nat)
    requires man < 2 * HIDDEN_BIT
    ensures |DecNumeral(man)| <= 16
  {
    NumeralLength(man, 10, 0);
    assert Pow(10, 4) == 10000;
    hide *;
    PowAdd(10, 4, 4);
    PowAdd(10, 8, 8);
    if |DecNumeral(man)| > 16 { PowMonotone(10, 16, |DecNumeral(man)| - 1); }
  }

  /** %f in terms of the run it generates. */
  lemma ConversionOfRun(B: nat, C: nat, x: Finite, prec: nat)
    requires IsWidth(B) && IsFinite(x) && IsCapacity(C)
    ensures var r := GenerateRun(B, x, FixedBound(C, prec));
            var drop := 0 - prec - r.dec;
            && r.nsig >= 1 && drop < r.nsig
            && FixedConversion(B, C, x, prec) ==
               if drop > 0 then Drop(r, drop).g + Drop(r, drop).carry else Tenfold(r.g + r.carry, 0 - drop)
  {
    hide GenerateRun, IsRun, HasLead, IsFinite, High, Low, Pow;
    RunShape(B, x, FixedBound(C, prec));
    var r := GenerateRun(B, x, FixedBound(C, prec));
    if 0 - prec - r.dec > 0 { TenfoldZero(Drop(r, 0 - prec - r.dec).g + Drop(r, 0 - prec - r.dec).carry); }
  }

  lemma WholeBelowConversion(r: Run, man: nat, V: nat, K: nat, prec: nat, rem: nat)
    requires man * K <= V && Covers(r, V, K, rem) && 0 - prec - r.dec <= 0
    ensures man * Pow(10, prec) <= Tenfold(r.g + r.carry, r.dec + prec)
  {
    var t: nat := -r.dec;
    var a, c := Pow(10, t), Pow(10, r.dec + prec);
    PowAdd(10, t, r.dec + prec);
    assert Tenfold(r.g + r.carry, r.dec + prec) == (r.g + r.carry) * c;
    hide *;
    DigitsOverWhole(man, V, K, a, r.g, rem);
    TenfoldOverWhole(man, a, c, r.g, r.carry);
  }

  /** A run that filled the buffer before its remainder ran out belongs to a text that is too long. */
  lemma FullRun(B: nat, C: nat, x: Finite, prec: nat, V: nat, K: nat, rem: nat)
    requires IsWidth(B) && IsFinite(x) && IsCapacity(C) && x.exp < MAN_BITS && I.HasFraction(B, x)
    requires I.Convert(B, x).man * K <= V && I.Convert(B, x).man == Num(x) / Den(x)
    requires var r := GenerateRun(B, x, FixedBound(C, prec));
             Covers(r, V, K, rem) && 0 - prec - r.dec <= 0 && r.nsig >= C
    ensures C < |Fixed(FixedConversion(B, C, x, prec), prec, prec > 0)|
    ensures C < |Fixed(RoundAt(V, K, prec), prec, prec > 0)|
  {
    FullRunDigits(B, C, x, prec);
    var r, man := GenerateRun(B, x, FixedBound(C, prec)), I.Convert(B, x).man;
    assert K > 0;
    ConversionOfRun(B, C, x, prec);
    WholeBelowConversion(r, man, V, K, prec, rem);
    hide *;
    FloorOverWhole(man, V, K, prec);
    LongText(FixedConversion(B, C, x, prec), man, prec, true);
    LongText(RoundAt(V, K, prec), man, prec, true);
  }

  lemma FullRunDigits(B: nat, C: nat, x: Finite, prec: nat)
    requires IsWidth(B) && IsFinite(x) && IsCapacity(C) && x.exp < MAN_BITS && I.HasFraction(B, x)
    requires I.Convert(B, x).man == Num(x) / Den(x)
    requires var r := GenerateRun(B, x, FixedBound(C, prec)); 0 - prec - r.dec <= 0 && r.nsig >= C
    ensures prec > 0 && |DecNumeral(I.Convert(B, x).man)| + prec >= C
  {
    RunShape(B, x, FixedBound(C, prec));
    WholeIsSmall(x);
  }

  lemma WholeIsSmall(x: Finite)
    requires IsFinite(x) && x.exp < MAN_BITS
    ensures |DecNumeral(Num(x) / Den(x))| <= 16
  {
    assert Num(x) == x.bin * 1;
    QuotientSmaller(x.bin, Den(x));
    SixteenDigits(x.bin / Den(x));
  }

  lemma QuotientSmaller(n: nat, d: nat)
    requires d > 0
    ensures n / d <= n
  {
    DivModEquation(n, d);
    MulMonotone(1, d, n / d);
  }

  lemma DigitsOverWhole(man: nat, V: nat, K: nat, ten: nat, g: nat, rem: nat)
    requires man * K <= V && V * ten == g * K + rem && rem < K
    ensures man * ten <= g
  {
    MulMonotone(man * K, V, ten);
    assert (man * K) * ten == (man * ten) * K;
    assert (g + 1) * K == g * K + K;
    MulCancelLess(man * ten, g + 1, K);
  }

  lemma FloorOverWhole(man: nat, V: nat, K: nat, prec: nat)
    requires K > 0 && man * K <= V
    ensures man * Pow(10, prec) <= RoundAt(V, K, prec)
  {
    var n := Tenfold(V, prec);
    TenfoldIs(V, prec);
    DivModEquation(n, K);
    hide Pow, Tenfold;
    DigitsOverWhole(man, V, K, Pow(10, prec), n / K, n % K);
    RoundBounds(n, K);
  }

  lemma TenfoldOverWhole(man: nat, a: nat, c: nat, g: nat, carry: nat)
    requires man * a <= g
    ensures man * (a * c) <= (g + carry) * c
  {
    MulMonotone(man * a, g + carry, c);
    assert man * (a * c) == (man * a) * c;
  }

  /** The shared %f prints the correctly rounded decimal whenever that decimal fits the buffer. */
  lemma FixedExact(B: nat, C: nat, x: Finite, prec: nat, V: nat)
    requires IsWidth(B) && IsFinite(x) && IsExact(B, x, V) && IsCapacity(C)
    ensures var n, right := FixedConversion(B, C, x, prec), RoundAt(Num(x), Den(x), prec);
            n == right || (C < |Fixed(n, prec, prec > 0)| && C < |Fixed(right, prec, prec > 0)|)
  {
    var K, b := Pow(2, B - 3), FixedBound(C, prec);
    assert Num(x) * K == V * Den(x);
    hide *;
    FixedInUnits(B, C, x, prec, V);
    RoundAtRatio(Num(x), Den(x), V, K, prec);
  }

  lemma FixedInUnits(B: nat, C: nat, x: Finite, prec: nat, V: nat)
    requires IsWidth(B) && IsFinite(x) && IsExact(B, x, V) && IsCapacity(C)
    ensures var n, right := FixedConversion(B, C, x, prec), RoundAt(V, Pow(2, B - 3), prec);
            n == right || (C < |Fixed(n, prec, prec > 0)| && C < |Fixed(right, prec, prec > 0)|)
  {
    var K, b := Pow(2, B - 3), FixedBound(C, prec);
    var rem := RunExact(B, x, b, V);
    var r := GenerateRun(B, x, b);
    var drop := 0 - prec - r.dec;
    FixedTail(B, C, x, prec, V);
    I.ConvertExact(B, x, V);
    assert rem != 0 && drop <= 0 ==> r.nsig >= C && x.exp < MAN_BITS;
    assert x.exp < MAN_BITS ==> I.HasFraction(B, x);
    DivModEquation(V, K);
    assert drop > 0 ==> (r.tail <==> rem == 0);
    hide *;
    if drop > 0 || rem == 0 {
      CoveredRun(B, C, x, prec, V, K, rem);
    } else {
      FullRun(B, C, x, prec, V, K, rem);
    }
  }

  lemma CoveredRun(B: nat, C: nat, x: Finite, prec: nat, V: nat, K: nat, rem: nat)
    requires IsWidth(B) && IsFinite(x) && IsCapacity(C) && K > 0
    requires var r := GenerateRun(B, x, FixedBound(C, prec));
             && Covers(r, V, K, rem) && (rem == 0 ==> r.carry == 0)
             && (if 0 - prec - r.dec > 0 then r.tail <==> rem == 0 else rem == 0)
    ensures FixedConversion(B, C, x, prec) == RoundAt(V, K, prec)
  {
    var r := GenerateRun(B, x, FixedBound(C, prec));
    var drop := 0 - prec - r.dec;
    ConversionOfRun(B, C, x, prec);
    hide *;
    if drop > 0 {
      DropExact(r, drop, V, K, rem);
    } else {
      PadExact(r, V, K, prec);
      TenfoldIs(r.g, r.dec + prec);
    }
  }

  /** Digits below the precision come from a fraction, where a tie can be seen. */
  lemma FixedTail(B: nat, C: nat, x: Finite, prec: nat, V: nat)
    requires IsWidth(B) && IsFinite(x) && IsExact(B, x, V) && IsCapacity(C)
    ensures GenerateRun(B, x, FixedBound(C, prec)).dec < 0 ==> x.exp <= ShiftBits(B)
  {
    hide Pow, Numeral, IsExact;
    I.ConvertExact(B, x, V);
  }

  // ---------------------------------------------------------------------------------------------
  // %e

  /** The digits of a rounded run, padded to sig places, and the exponent of the leading one. */
  function Mantissa(r: Run, sig: nat): (nat, int) {
    (if r.nsig <= sig then Tenfold(r.g, sig - r.nsig) else 0, r.dec + r.nsig - 1)
  }

  lemma LeadOfRun(r: Run, V: nat, K: nat, rem: nat)
    requires Covers(r, V, K, rem) && IsRun(r) && HasLead(r)
    ensures K > 0 && IsLeadExponent(V, K, r.dec + r.nsig - 1)
  {
    LeadFromRun(V, K, -r.dec, r.g, r.nsig, rem);
  }

  /**
   * What rounding a kept run of a value whose leading digit is at 10^lead comes to, given that the
   * digits and the carry add up to n.
   */
  lemma RoundedMantissa(d: Run, sig: nat, n: nat, lead: int)
    requires IsRun(d) && HasLead(d) && 1 <= d.nsig <= sig && d.dec + d.nsig - 1 == lead
    requires n == Tenfold(d.g + d.carry, sig - d.nsig)
    ensures Mantissa(Round(d), sig) == if n == Pow(10, sig) then (Pow(10, sig - 1), lead + 1) else (n, lead)
  {
    var a, p := Pow(10, sig - d.nsig), Pow(10, d.nsig);
    PowAdd(10, d.nsig, sig - d.nsig);
    PowAdd(10, d.nsig - 1, sig - d.nsig);
    if d.g + d.carry != p && (d.g + d.carry) * a == p * a { MulCancel(d.g + d.carry, p, a); }
  }

  lemma NonzeroRun(x: Finite, V: nat, K: nat, r: Run, rem: nat)
    requires x.bin > 0 && Num(x) * K == V * Den(x) && Covers(r, V, K, rem)
    requires r.nsig == 0 ==> r.g == 0 && r.dec == 0 && rem == 0
    ensures r.nsig >= 1
  {
    assert Pow(10, 0) == 1;
    MulPositive(x.bin, Pow(2, if x.exp > MAN_BITS then x.exp - MAN_BITS else 0));
    MulPositive(Num(x), K);
    assert V * 1 == V;
  }

  /** The run %e generates for a nonzero exact value, and how it is cut down. */
  lemma SignificantRun(B: nat, x: Finite, sig: nat, V: nat) returns (rem: nat)
    requires IsWidth(B) && IsFinite(x) && IsExact(B, x, V) && 1 <= sig <= MAX_CAPACITY && x.bin > 0
    ensures var b := SignificantBound(sig);
            var r := GenerateRun(B, x, b);
            && Covers(r, V, Pow(2, B - 3), rem) && IsRun(r) && HasLead(r)
            && Kept(B, x, b) == Drop(r, r.nsig - sig)
            && (r.tail <==> rem == 0 && x.exp <= ShiftBits(B))
            && (rem != 0 ==> x.exp <= ShiftBits(B) && r.nsig > sig)
            && (rem == 0 ==> r.carry == 0)
  {
    rem := RunExact(B, x, SignificantBound(sig), V);
    var r := GenerateRun(B, x, SignificantBound(sig));
    RunShape(B, x, SignificantBound(sig));
    I.ConvertExact(B, x, V);
    NonzeroRun(x, V, Pow(2, B - 3), r, rem);
  }

  /** d is n / k cut to sig digits from the leading one at 10^lead, rounded once its carry is added. */
  ghost predicate RoundsTo(d: Run, sig: nat, n: nat, k: nat, lead: int, visible: bool)
    requires k > 0
  {
    var s := sig - 1 - lead;
    && IsRun(d) && HasLead(d) && 1 <= d.nsig <= sig && d.dec + d.nsig - 1 == lead
    && Tenfold(d.g + d.carry, sig - d.nsig) == RoundAt(n, k, s) + if !visible && IsEvenTie(n, k, s) then 1 else 0
  }

  lemma RoundsToRatio(d: Run, sig: nat, n: nat, k: nat, n': nat, k': nat, lead: int, visible: bool)
    requires k > 0 && k' > 0 && n * k' == n' * k && RoundsTo(d, sig, n, k, lead, visible)
    ensures RoundsTo(d, sig, n', k', lead, visible)
  {
    RoundAtRatio(n, k, n', k', sig - 1 - lead);
    hide RoundAt, IsEvenTie, Tenfold, IsRun, HasLead;
  }

  /**
   * On the exact domain a kept run is the value rounded half to even; above SHIFT_BITS, where the
   * code assumes something was cut off, an exact tie with an even last digit is rounded up instead.
   */
  lemma KeptExact(B: nat, x: Finite, sig: nat, V: nat) returns (lead: int)
    requires IsWidth(B) && IsFinite(x) && IsExact(B, x, V) && 1 <= sig <= MAX_CAPACITY && x.bin > 0
    ensures IsLeadExponent(Num(x), Den(x), lead)
    ensures RoundsTo(Kept(B, x, SignificantBound(sig)), sig, Num(x), Den(x), lead, x.exp <= ShiftBits(B))
  {
    var K := Pow(2, B - 3);
    var rem := SignificantRun(B, x, sig, V);
    var r := GenerateRun(B, x, SignificantBound(sig));
    assert V * Den(x) == Num(x) * K;
    lead := r.dec + r.nsig - 1;
    hide *;
    LeadOfRun(r, V, K, rem);
    LeadExponentRatio(V, K, Num(x), Den(x), lead);
    KeptRounds(r, sig, V, K, rem, x.exp <= ShiftBits(B));
    RoundsToRatio(Drop(r, r.nsig - sig), sig, V, K, Num(x), Den(x), lead, x.exp <= ShiftBits(B));
  }

  lemma KeptRounds(r: Run, sig: nat, V: nat, K: nat, rem: nat, visible: bool)
    requires K > 0 && Covers(r, V, K, rem) && IsRun(r) && HasLead(r) && sig >= 1
    requires r.tail <==> rem == 0 && visible
    requires rem != 0 ==> visible && r.nsig > sig
    requires rem == 0 ==> r.carry == 0
    ensures RoundsTo(Drop(r, r.nsig - sig), sig, V, K, r.dec + r.nsig - 1, visible)
  {
    var drop := r.nsig - sig;
    DropShape(r, drop);
    hide RoundAt, IsEvenTie, Tenfold, High, Low, Pow;
    if drop > 0 {
      DropExact(r, drop, V, K, rem);
      TenfoldZero(Drop(r, drop).g + Drop(r, drop).carry);
    } else {
      PadExact(r, V, K, sig - r.dec - r.nsig);
      TenfoldIs(r.g, sig - r.nsig);
    }
  }

  /**
   * %e on the exact domain: exactly sig significant digits, the value rounded half to even, with
   * the exponent of its leading digit -- unless the binary exponent is beyond SHIFT_BITS and the
   * value lies exactly half way above an even last digit, which is rounded up.
   */
  lemma ScientificExact(B: nat, x: Finite, sig: nat, V: nat) returns (lead: int)
    requires IsWidth(B) && IsFinite(x) && IsExact(B, x, V) && 1 <= sig <= MAX_CAPACITY && x.bin > 0
    ensures IsLeadExponent(Num(x), Den(x), lead)
    ensures Mantissa(Significant(B, x, sig), sig) == RoundSignificant(Num(x), Den(x), sig, lead) <==>
            x.exp <= ShiftBits(B) || !IsEvenTie(Num(x), Den(x), sig - 1 - lead)
  {
    lead := KeptExact(B, x, sig, V);
    var d := Kept(B, x, SignificantBound(sig));
    SignificantOfKept(B, x, sig);
    hide *;
    RoundedKept(d, sig, Num(x), Den(x), lead, x.exp <= ShiftBits(B));
  }

  lemma SignificantOfKept(B: nat, x: Finite, sig: nat)
    requires IsWidth(B) && IsFinite(x) && 1 <= sig <= MAX_CAPACITY
    ensures var d := Kept(B, x, SignificantBound(sig)); d.nsig >= 1 && Significant(B, x, sig) == Round(d)
  {
    KeptShape(B, x, SignificantBound(sig));
    hide Kept, Round;
  }

  lemma RoundedKept(d: Run, sig: nat, n: nat, k: nat, lead: int, visible: bool)
    requires k > 0 && d.nsig >= 1 && sig >= 1 && RoundsTo(d, sig, n, k, lead, visible)
    ensures Mantissa(Round(d), sig) == RoundSignificant(n, k, sig, lead) <==> visible || !IsEvenTie(n, k, sig - 1 - lead)
  {
    RoundedMantissa(d, sig, Tenfold(d.g + d.carry, sig - d.nsig), lead);
    hide RoundAt, IsEvenTie, Tenfold, Pow, Round, Mantissa;
  }

  lemma ScientificZero(B: nat, x: Finite, sig: nat)
    requires IsWidth(B) && IsFinite(x) && x.bin == 0 && 1 <= sig <= MAX_CAPACITY
    ensures Mantissa(Significant(B, x, sig), sig) == (0, 0)
  {
    var b := SignificantBound(sig);
    ZeroFraction(B, x);
    assert GenerateRun(B, x, b) == Run(0, 0, 0, 0, true);
    assert Pow(10, 1) == 10;
    assert Tenfold(0, sig - 1) == 0;
  }

  lemma ZeroFraction(B: nat, x: Finite)
    requires IsWidth(B) && IsFinite(x) && x.bin == 0
    ensures x.exp == -1022 && F.Start(B, x).man == 0 && F.Start(B, x).carry == 0
  {
    F.ElevenBits(0);
    if B < BIN_BITS {
      DivModUnique(0, Pow(2, BIN_BITS - B), 0, 0);
      DivModUnique(0, Pow(2, BIN_BITS - B - 1), 0, 0);
    }
  }

  /** 9007199254741250 is an even tie at 14 digits, and beyond SHIFT_BITS. */
  lemma EvenTieInput(x: Finite)
    requires x == Finite(4503599627370625, 53)
    ensures IsFinite(x) && InExactDomain(64, x) && x.exp > ShiftBits(64) && Num(x) == 9007199254741250 && Den(x) == 1
    ensures IsLeadExponent(Num(x), Den(x), 15) && IsEvenTie(Num(x), Den(x), 14 - 1 - 15)
  {
    var n := 9007199254741250;
    assert Pow(2, 1) == 2 && Pow(2, 0) == 1;
    assert Pow(10, 2) == 100;
    assert IsEvenTie(n, 1, -2) by { assert n % 100 == 50 && (n / 100) % 2 == 0; }
    LeadOfSixteen(n);
  }

  /** With a 64-bit integer its 14 digits end in 3 where half to even ends in 2. */
  lemma EvenTieRoundsUp()
    ensures var x := Finite(4503599627370625, 53);
            && IsFinite(x) && x.exp > ShiftBits(64)
            && Mantissa(Significant(64, x, 14), 14) != RoundSignificant(Num(x), Den(x), 14, 15)
  {
    var x := Finite(4503599627370625, 53);
    EvenTieInput(x);
    hide *;
    var V := ExactValue(64, x);
    var lead := ScientificExact(64, x, 14, V);
    LeadExponentUnique(Num(x), Den(x), lead, 15);
  }

  lemma LeadOfSixteen(n: nat)
    requires 1000000000000000 <= n < 10000000000000000
    ensures IsLeadExponent(n, 1, 15)
  {
    assert Pow(10, 4) == 10000 && Pow(10, 3) == 1000;
    ReachesUp(n, 1, 15);
    ReachesUp(n, 1, 16);
    hide *;
    PowAdd(10, 4, 4);
    PowAdd(10, 8, 4);
    PowAdd(10, 12, 3);
    PowAdd(10, 12, 4);
  }
}
