/**
 * The two %f conversions on every finite input, exact or not: they print the same number at every
 * precision of at least 1, and at precision 0 unless the fraction is within a few units in the last
 * bit of one half.
 */
module FloatAgreement {
  import opened Arithmetic
  import opened Numerals
  import opened DecimalText
  import opened Doubles
  import opened DigitGeneration
  import opened Shared
  import opened SharedExact
  import opened SharedConversion
  import opened FloatPaths
  import I = IntegerPart
  import F = FractionPart
  import Fused
  import DigitBuffer
  import SharedLayout
  import FusedBuffer

  // ---------------------------------------------------------------------------------------------
  // More room only continues the scaling.

  lemma {:induction false} ScaleContinues(B: nat, s: F.Scaled, room: int, more: int)
    requires IsWidth(B) && F.IsState(B, s) && room <= more
    ensures F.Scale(B, s, more) == F.Scale(B, F.Scale(B, s, room), more)
    decreases 4 - s.exp
  {
    if s.zeros < room && s.exp < 4 {
      F.StepIsWide(B, s);
      ScaleContinues(B, F.Step(B, s), room, more);
    }
  }

  /** Running out of room happens right behind a multiplication, whose result is 0 or 3 modulo 5. */
  lemma {:induction false} StopsOnFive(B: nat, s: F.Scaled, room: int)
    requires IsWidth(B) && F.IsState(B, s) && s.zeros < room
    ensures var r := F.Scale(B, s, room); r.zeros >= room ==> r.carry == 0 && (r.man % 5 == 0 || r.man % 5 == 3)
    decreases 4 - s.exp
  {
    if s.exp < 4 {
      F.StepIsWide(B, s);
      FivefoldResidue(B, s);
      if F.Step(B, s).zeros < room { StopsOnFive(B, F.Step(B, s), room); }
    }
  }

  lemma FivefoldResidue(B: nat, s: F.Scaled)
    requires IsWidth(B) && F.IsState(B, s) && s.exp < 4
    ensures var t := F.Step(B, s); t.zeros > s.zeros ==> t.carry == 0 && (t.man % 5 == 0 || t.man % 5 == 3)
  {
    F.StepIsWide(B, s);
  }

  // ---------------------------------------------------------------------------------------------
  // The guard digit the shared path generates where the fused one looks at the mantissa.

  /** The mantissa the digits are read from. */
  function Ready(B: nat, s: F.Scaled, room: int): nat
    requires IsWidth(B)
  {
    F.Scale(B, s, room).man + F.Scale(B, s, room).carry
  }

  /** From exponent 0 on no more zeros are generated. */
  lemma ScaleOnce(B: nat, s: F.Scaled, room: int)
    requires IsWidth(B) && F.IsState(B, s) && 0 <= s.exp < 4 && s.zeros < room
    ensures var t := F.Step(B, s);
            && F.IsState(B, t) && t.exp == s.exp + 1 && t.zeros == s.zeros
            && F.Scale(B, s, room) == F.Scale(B, t, room) && Ready(B, s, room) == Ready(B, t, room)
  {
    F.StepIsWide(B, s);
  }

  lemma ScaleDone(B: nat, s: F.Scaled, room: int)
    requires IsWidth(B) && s.exp == 4
    ensures F.Scale(B, s, room) == s && Ready(B, s, room) == s.man + s.carry
  {
  }

  /** What a step does to the mantissa and the carry. */
  lemma StepParts(B: nat, s: F.Scaled)
    requires IsWidth(B) && F.IsState(B, s) && s.exp < 4
    ensures var t, T := F.Step(B, s), F.Threshold(B);
            && 5 * T + 6 == 16 * Unit(B)
            && (s.digit || s.man > T ==> t.man == s.man / 2 && t.carry == s.man % 2 && t.digit == s.digit)
            && (!s.digit && s.man <= T ==> t.man == 5 * s.man + 3 * s.carry && t.carry == 0)
            && (!s.digit && s.man <= T && s.exp >= 0 ==> t.digit)
  {
    F.ThresholdFits(B);
    F.StepIsWide(B, s);
    if !s.digit && s.man <= F.Threshold(B) {
      DivModUnique(s.man * 5 + if s.carry != 0 then 3 else 0, 16 * Unit(B), 0,
          s.man * 5 + if s.carry != 0 then 3 else 0);
    }
  }

  lemma LastStep(B: nat, s: F.Scaled, room: int)
    requires IsWidth(B) && F.IsState(B, s) && s.exp == 3 && s.zeros < room
    ensures var ready, w, u := Ready(B, s, room), F.Wide(s), Unit(B);
            && (s.digit ==> ready == (s.man + 1) / 2)
            && (!s.digit ==> ready == 5 * s.man + 3 * s.carry)
            && (!s.digit ==> (w < 2 * u ==> ready < 5 * u) && (w == 2 * u ==> ready == 5 * u) && (w > 2 * u ==> ready > 5 * u))
  {
    ScaleOnce(B, s, room);
    StepParts(B, s);
    ScaleDone(B, F.Step(B, s), room);
    assert !s.digit ==> s.man < 2 * Unit(B) && s.carry <= 1;
    hide F.Step, F.Scale, Ready, F.IsState;
  }

  lemma TwoSteps(B: nat, s: F.Scaled, room: int)
    requires IsWidth(B) && F.IsState(B, s) && s.exp == 2 && s.zeros < room
    ensures var ready, w, u := Ready(B, s, room), F.Wide(s), Unit(B);
            && (s.digit ==> ready == (s.man / 2 + 1) / 2)
            && (!s.digit ==> (w < 4 * u ==> ready < 5 * u) && (w == 4 * u ==> ready == 5 * u) && (w > 4 * u ==> ready > 5 * u))
  {
    ScaleOnce(B, s, room);
    StepParts(B, s);
    LastStep(B, F.Step(B, s), room);
    assert s.carry <= 1;
    hide F.Step, F.Scale, Ready, F.IsState;
  }

  lemma ThreeSteps(B: nat, s: F.Scaled, room: int)
    requires IsWidth(B) && F.IsState(B, s) && s.exp == 1 && s.zeros < room
    ensures var ready, w, u := Ready(B, s, room), F.Wide(s), Unit(B);
            && (s.digit ==> ready <= s.man / 8 + 2)
            && (!s.digit ==>
                  && (w < 8 * u ==> ready < 5 * u) && (8 * u <= w < 8 * u + 2 ==> ready == 5 * u)
                  && (w >= 8 * u + 2 ==> ready > 5 * u))
  {
    ScaleOnce(B, s, room);
    StepParts(B, s);
    TwoSteps(B, F.Step(B, s), room);
    assert s.carry <= 1;
    hide F.Step, F.Scale, Ready, F.IsState;
  }

  /** From exponent 0 the digit is prepared in four steps: what it comes to around one half. */
  lemma GuardMantissa(B: nat, s: F.Scaled, room: int)
    requires IsWidth(B) && F.IsState(B, s) && s.exp == 0 && !s.digit && s.zeros < room
    ensures var ready, w, u := Ready(B, s, room), F.Wide(s), Unit(B);
            && (w < 16 * u ==> ready < 5 * u)
            && (16 * u <= w < 16 * u + 4 ==> ready == 5 * u)
            && (w >= 16 * u + 4 ==> ready > 5 * u)
  {
    ScaleOnce(B, s, room);
    StepParts(B, s);
    ThreeSteps(B, F.Step(B, s), room);
    assert s.carry <= 1;
    hide F.Step, F.Scale, Ready, F.IsState;
  }

  /** Stopped below exponent 0 the value is under a half: another zero, or a digit of at most 4. */
  lemma {:induction false} BelowHalf(B: nat, s: F.Scaled, room: int)
    requires IsWidth(B) && F.IsState(B, s) && s.exp < 0 && !s.digit && s.zeros + 1 == room
    ensures var r := F.Scale(B, s, room);
            r.zeros == room || (r.zeros == s.zeros && r.exp == 4 && Ready(B, s, room) < 5 * Unit(B))
    decreases 4 - s.exp
  {
    var t := F.Step(B, s);
    F.StepIsWide(B, s);
    StepParts(B, s);
    F.ScaleFits(B, s, room);
    if t.zeros == s.zeros {
      assert !t.digit && F.Scale(B, s, room) == F.Scale(B, t, room);
      if t.exp == 0 {
        GuardMantissa(B, t, room);
        F.ScaleStops(B, t, room);
        ZerosFrozen(B, t, room);
      } else {
        BelowHalf(B, t, room);
      }
    }
  }

  lemma {:induction false} ZerosFrozen(B: nat, s: F.Scaled, room: int)
    requires IsWidth(B) && F.IsState(B, s) && s.exp >= 0 && s.zeros < room
    ensures F.Scale(B, s, room).zeros == s.zeros && F.Scale(B, s, room).exp == 4
    decreases 4 - s.exp
  {
    if s.exp < 4 {
      ScaleOnce(B, s, room);
      ZerosFrozen(B, F.Step(B, s), room);
    }
  }

  // ---------------------------------------------------------------------------------------------
  // One digit more, and a decision on it, against a decision on the mantissa left over.

  lemma GuardDecides(u: nat, rest: nat, guard: nat, rest': nat, n: nat)
    requires rest < u && rest' < u && guard * u + rest' == 10 * rest && u >= 16
    ensures guard < 10
    ensures GuardRounds(n, guard, 0, rest' == 0) == if Fused.RemainderRounds(u, 16 * rest, n) then 1 else 0
  {
    MulCancelLess(guard, 10, u);
    if guard >= 6 { MulMonotone(6, guard, u); }
    if guard <= 4 { MulMonotone(guard, 4, u); }
  }

  /** Full generation of limit digits, against generation of one more that stops when exhausted. */
  ghost predicate Agrees(u: nat, n: nat, rem: nat, g: nat, count: nat, rem': nat, limit: nat) {
    && 0 < count <= limit + 1
    && (count == limit + 1 ==>
          && 0 <= g - 10 * n < 10
          && GuardRounds(n, g - 10 * n, 0, rem' == 0) == if Fused.RemainderRounds(u, rem, n) then 1 else 0)
    && (count <= limit ==> rem' == 0 && Tenfold(g, limit - count) == n && !Fused.RemainderRounds(u, rem, n))
  }

  lemma GenerateAgrees(B: nat, m: nat, g0: nat, limit: nat)
    requires IsWidth(B) && limit >= 1
    ensures var f, s := Generate(B, m, 0, 0, limit, true), Generate(B, m, g0, 0, limit + 1, false);
            Agrees(Unit(B), Tenfold(g0, limit) + f.g, f.rem, s.g, s.count, s.rem, limit)
  {
    var f, s, u := Generate(B, m, 0, 0, limit, true), Generate(B, m, g0, 0, limit + 1, false), Unit(B);
    GenerateValue(B, m, 0, 0, limit, true);
    GenerateValue(B, m, g0, 0, limit + 1, false);
    var c := s.count;
    assert (0 * Pow(10, limit)) * u == 0;
    assert f.g * u + f.rem / 16 == m * Pow(10, limit - 1);
    assert Tenfold(g0, limit) == g0 * Pow(10, limit);
    assert f.rem == 16 * (f.rem / 16) && s.rem == 16 * (s.rem / 16);
    assert f.rem / 16 < u && s.rem / 16 < u && u >= 16;
    if c == limit + 1 {
      assert Pow(10, limit + 1) == 10 * Pow(10, limit) && Pow(10, limit) == 10 * Pow(10, limit - 1);
      hide *;
      OneMore(u, m, g0, Pow(10, limit), Pow(10, limit - 1), f.g, f.rem / 16, s.g, s.rem / 16, f.rem, s.rem, limit);
    } else {
      PowAdd(10, c, limit - c);
      PowAdd(10, c - 1, limit - c);
      hide *;
      Exhausted(u, m, g0, c, limit, f.g, f.rem / 16, s.g, s.rem / 16, f.rem, s.rem);
    }
  }

  lemma OneMore(u: nat, m: nat, g0: nat, ten: nat, ten': nat, fg: nat, fr: nat, sg: nat, sr: nat, frem: nat,
      srem: nat, limit: nat)
    requires u >= 16 && fr < u && sr < u && frem == 16 * fr && srem == 16 * sr && ten == 10 * ten' && limit >= 1
    requires fg * u + fr == m * ten'
    requires sg * u + sr == (g0 * (10 * ten)) * u + m * ten
    requires Tenfold(g0, limit) == g0 * ten
    ensures Agrees(u, Tenfold(g0, limit) + fg, frem, sg, limit + 1, srem, limit)
  {
    var n := g0 * ten + fg;
    OneMoreValue(u, m, g0, ten, ten', fg, fr, sg, sr);
    assert (sg + 1) * u == sg * u + u;
    if sg < 10 * n { MulMonotone(sg + 1, 10 * n, u); }
    assert (sg - 10 * n) * u + sr == 10 * fr by { Difference(sg, 10 * n, u); }
    GuardDecides(u, fr, sg - 10 * n, sr, n);
  }

  lemma OneMoreValue(u: nat, m: nat, g0: nat, ten: nat, ten': nat, fg: nat, fr: nat, sg: nat, sr: nat)
    requires ten == 10 * ten' && fg * u + fr == m * ten' && sg * u + sr == (g0 * (10 * ten)) * u + m * ten
    ensures sg * u + sr == (10 * (g0 * ten + fg)) * u + 10 * fr
  {
    assert m * ten == 10 * (m * ten');
    assert g0 * (10 * ten) == 10 * (g0 * ten);
    assert (10 * (g0 * ten + fg)) * u == (10 * (g0 * ten)) * u + 10 * (fg * u);
  }

  lemma Difference(a: int, b: int, u: int)
    ensures (a - b) * u == a * u - b * u
  {
  }

  lemma Exhausted(u: nat, m: nat, g0: nat, c: nat, limit: nat, fg: nat, fr: nat, sg: nat, sr: nat, frem: nat, srem: nat)
    requires u >= 16 && fr < u && frem == 16 * fr && srem == 16 * sr && 0 < c <= limit
    requires Pow(10, limit) == Pow(10, c) * Pow(10, limit - c)
    requires Pow(10, limit - 1) == Pow(10, c - 1) * Pow(10, limit - c)
    requires fg * u + fr == m * Pow(10, limit - 1)
    requires sg * u + sr == (g0 * Pow(10, c)) * u + m * Pow(10, c - 1)
    requires srem == 0 && Tenfold(g0, limit) == g0 * Pow(10, limit)
    ensures Agrees(u, Tenfold(g0, limit) + fg, frem, sg, c, srem, limit)
  {
    var a := Pow(10, limit - c);
    assert Tenfold(sg, limit - c) == sg * a by { TenfoldIs(sg, limit - c); }
    ExhaustedValue(u, m, g0, Pow(10, c), Pow(10, c - 1), a, fg, fr, sg);
  }

  lemma ExhaustedValue(u: nat, m: nat, g0: nat, ten: nat, ten': nat, a: nat, fg: nat, fr: nat, sg: nat)
    requires u > 0 && fr < u
    requires fg * u + fr == m * (ten' * a) && sg * u == (g0 * ten) * u + m * ten'
    ensures fr == 0 && sg * a == g0 * (ten * a) + fg
  {
    assert (sg * a) * u == (sg * u) * a;
    assert ((g0 * ten) * u + m * ten') * a == (g0 * (ten * a)) * u + m * (ten' * a) by {
      assert ((g0 * ten) * u) * a == (g0 * (ten * a)) * u;
      MulAssoc(m, ten', a);
    }
    assert (sg * a) * u == (g0 * (ten * a) + fg) * u + fr by {
      assert (g0 * (ten * a) + fg) * u == (g0 * (ten * a)) * u + fg * u;
    }
    DivModUnique((sg * a) * u, u, sg * a, 0);
    DivModUnique((sg * a) * u, u, g0 * (ten * a) + fg, fr);
  }

  // ---------------------------------------------------------------------------------------------
  // The shared conversion, by where its generation ended.

  lemma DropOne(r: Run, n: nat)
    requires r.nsig > 1 && 0 <= r.g - 10 * n < 10
    ensures Drop(r, 1).g + Drop(r, 1).carry == n + GuardRounds(n, r.g - 10 * n, 0, r.tail)
  {
    assert Pow(10, 1) == 10 && Pow(10, 0) == 1;
    DivModUnique(r.g, 10, n, r.g - 10 * n);
    assert High(r.g, 1) == n && Low(r.g, 1) == r.g - 10 * n;
    assert High(r.g - 10 * n, 0) == r.g - 10 * n && Low(r.g - 10 * n, 0) == 0;
    hide High, Low;
  }

  /** One digit past the precision. */
  lemma FixedByGuard(B: nat, C: nat, x: Finite, prec: nat, n: nat)
    requires IsWidth(B) && IsFinite(x) && IsCapacity(C)
    requires var r := GenerateRun(B, x, FixedBound(C, prec)); r.dec == 0 - prec - 1 && 0 <= r.g - 10 * n < 10
    ensures var r := GenerateRun(B, x, FixedBound(C, prec));
            FixedConversion(B, C, x, prec) == n + GuardRounds(n, r.g - 10 * n, 0, r.tail)
  {
    var r := GenerateRun(B, x, FixedBound(C, prec));
    hide *;
    ConversionOfRun(B, C, x, prec);
    DropOne(r, n);
  }

  lemma FixedAsIs(B: nat, C: nat, x: Finite, prec: nat)
    requires IsWidth(B) && IsFinite(x) && IsCapacity(C)
    requires GenerateRun(B, x, FixedBound(C, prec)).dec + prec >= 0
    ensures var r := GenerateRun(B, x, FixedBound(C, prec));
            FixedConversion(B, C, x, prec) == Tenfold(r.g + r.carry, r.dec + prec)
  {
    hide *;
    ConversionOfRun(B, C, x, prec);
  }

  /** The count of integer digits leaves room for the fraction and the guard digit. */
  predicate HasRoom(B: nat, C: nat, x: Finite, prec: nat)
    requires IsWidth(B)
  {
    IntegerDigits(I.Convert(B, x).man, true) + prec < C
  }

  lemma RunIs(B: nat, C: nat, x: Finite, prec: nat)
    requires IsWidth(B) && IsFinite(x) && IsCapacity(C) && HasRoom(B, C, x, prec) && I.HasFraction(B, x)
    requires F.Start(B, x).man != 0 || F.Start(B, x).carry != 0
    ensures var i := I.Convert(B, x);
            GenerateRun(B, x, FixedBound(C, prec)) ==
            Finish(B, i.man, IntegerDigits(i.man, true), F.Scale(B, F.Start(B, x), prec + 1), FixedBound(C, prec))
  {
    hide I.Convert, F.Scale, F.Start, Finish, Numeral, IsFinite;
  }

  /** The digits of a state whose first digit is ready. */
  lemma FinishReady(B: nat, C: nat, man: nat, n: nat, s: F.Scaled, prec: nat)
    requires IsWidth(B) && C >= 1 && n >= 1 && n + prec < C && s.zeros <= prec && s.exp == 4 && F.IsState(B, s)
    ensures var r := Generate(B, s.man + s.carry, Tenfold(man, s.zeros), 0, prec + 1 - s.zeros, false);
            var t := Finish(B, man, n, s, FixedBound(C, prec));
            && t.g == r.g && t.dec == 0 - s.zeros - r.count && t.tail == (r.rem == 0)
            && t.carry == if r.rem >= 8 * Unit(B) then 1 else 0
  {
    NudgeIsPlain(B, s);
    hide Generate, Pow;
  }

  /** A run that ended on one more zero. */
  lemma FinishFull(B: nat, C: nat, man: nat, n: nat, s: F.Scaled, prec: nat)
    requires IsWidth(B) && C >= 1 && n >= 1 && s.zeros == prec + 1
    ensures var t := Finish(B, man, n, s, FixedBound(C, prec)); t.g == 10 * Tenfold(man, prec) && t.dec == 0 - prec - 1
  {
    TenfoldOnce(man, prec);
  }

  // ---------------------------------------------------------------------------------------------
  // The cases.

  /** The state in which the fused path stops scaling. */
  function Stop(B: nat, x: Finite, prec: nat): F.Scaled
    requires IsWidth(B) && IsFinite(x) && x.exp < MAN_BITS
  {
    F.Scale(B, F.Start(B, x), prec)
  }

  function PlusOneIf(n: nat, up: bool): nat { if up then n + 1 else n }

  lemma FusedIs(B: nat, x: Finite, prec: nat)
    requires IsWidth(B) && IsFinite(x) && I.HasFraction(B, x)
    ensures var s, man := Stop(B, x, prec), I.Convert(B, x).man;
            && (s.zeros < prec && s.exp == 4 && F.IsState(B, s) ==>
                  var f := Generate(B, s.man + s.carry, 0, 0, prec - s.zeros, true);
                  var n := Tenfold(man, prec) + f.g;
                  Fused.Conversion(B, x, prec) == PlusOneIf(n, Fused.RemainderRounds(Unit(B), f.rem, n)))
            && (s.zeros >= prec ==>
                  var n := Tenfold(man, prec);
                  var up := s.exp >= 0 && Fused.RemainderRounds(Unit(B), Fused.Nudged(B, s), n);
                  Fused.Conversion(B, x, prec) == PlusOneIf(n, up))
  {
    var s := Stop(B, x, prec);
    if s.zeros < prec && s.exp == 4 && F.IsState(B, s) { assert Fused.Nudged(B, s) == s.man + s.carry; }
    hide I.Convert, F.Scale, F.Start, Generate, Tenfold, Fused.Nudged, IsFinite;
  }

  /** The run behind a state whose first digit is ready: h, in the places behind the zeros. */
  ghost predicate IsReadyRun(r: Run, h: Generated, zeros: nat) {
    r.g == h.g && r.dec == 0 - zeros - h.count && r.tail == (h.rem == 0) && (h.rem == 0 ==> r.carry == 0)
  }

  lemma ReadyRun(B: nat, C: nat, x: Finite, prec: nat)
    requires IsWidth(B) && IsFinite(x) && IsCapacity(C) && HasRoom(B, C, x, prec) && I.HasFraction(B, x)
    requires F.Start(B, x).man != 0 || F.Start(B, x).carry != 0
    requires var s := Stop(B, x, prec); s.zeros < prec && s.exp == 4 && F.IsState(B, s)
    ensures var s := Stop(B, x, prec);
            IsReadyRun(GenerateRun(B, x, FixedBound(C, prec)),
                       Generate(B, s.man + s.carry, Tenfold(I.Convert(B, x).man, s.zeros), 0, prec - s.zeros + 1, false), s.zeros)
  {
    var s, man := Stop(B, x, prec), I.Convert(B, x).man;
    F.StartFits(B, x);
    ScaleContinues(B, F.Start(B, x), prec, prec + 1);
    ScaleDone(B, s, prec + 1);
    assert s == F.Scale(B, F.Start(B, x), prec + 1);
    RunIs(B, C, x, prec);
    var n := IntegerDigits(man, true);
    assert n >= 1 && n + prec < C;
    hide F.Scale, F.Start, I.Convert, Finish, GenerateRun, Generate, IsFinite, Numeral, F.IsState, Tenfold;
    FinishReady(B, C, man, n, s, prec);
    assert prec + 1 - s.zeros == prec - s.zeros + 1;
  }

  lemma ReadyAgrees(B: nat, C: nat, x: Finite, prec: nat)
    requires IsWidth(B) && IsFinite(x) && IsCapacity(C) && HasRoom(B, C, x, prec) && I.HasFraction(B, x)
    requires F.Start(B, x).man != 0 || F.Start(B, x).carry != 0
    requires var s := Stop(B, x, prec); s.zeros < prec && s.exp == 4 && F.IsState(B, s)
    ensures FixedConversion(B, C, x, prec) == Fused.Conversion(B, x, prec)
  {
    var s, man := Stop(B, x, prec), I.Convert(B, x).man;
    hide *;
    var limit, g0, m := prec - s.zeros, Tenfold(man, s.zeros), s.man + s.carry;
    var f, h := Generate(B, m, 0, 0, limit, true), Generate(B, m, g0, 0, limit + 1, false);
    ReadyRun(B, C, x, prec);
    FusedIs(B, x, prec);
    GenerateAgrees(B, m, g0, limit);
    TenfoldTwice(man, s.zeros, limit);
    ReadyCases(B, C, x, prec, Tenfold(man, prec) + f.g, f.rem, h, limit, Unit(B));
  }

  lemma ReadyCases(B: nat, C: nat, x: Finite, prec: nat, n: nat, rem: nat, h: Generated, limit: nat, u: nat)
    requires IsWidth(B) && IsFinite(x) && IsCapacity(C) && limit <= prec
    requires Agrees(u, n, rem, h.g, h.count, h.rem, limit)
    requires IsReadyRun(GenerateRun(B, x, FixedBound(C, prec)), h, prec - limit)
    ensures FixedConversion(B, C, x, prec) == PlusOneIf(n, Fused.RemainderRounds(u, rem, n))
  {
    hide GenerateRun, FixedConversion, Fused.RemainderRounds, GuardRounds, Tenfold, IsFinite;
    if h.count == limit + 1 {
      FixedByGuard(B, C, x, prec, n);
    } else {
      FixedAsIs(B, C, x, prec);
    }
  }

  lemma OneDigit'(B: nat, m: nat, g: nat)
    requires IsWidth(B)
    ensures Generate(B, m, g, 0, 1, false) == Generated(10 * g + m / Unit(B), 1, 16 * (m % Unit(B)))
  {
  }

  /** Where the fused path ran out of places, the shared one continues by at most one digit. */
  lemma ContinuedRun(B: nat, C: nat, x: Finite, prec: nat)
    requires IsWidth(B) && IsFinite(x) && IsCapacity(C) && HasRoom(B, C, x, prec) && I.HasFraction(B, x)
    requires F.Start(B, x).man != 0 || F.Start(B, x).carry != 0
    requires var s := Stop(B, x, prec); s.zeros == prec && F.IsState(B, s)
    ensures var man, t := I.Convert(B, x).man, F.Scale(B, Stop(B, x, prec), prec + 1);
            var n := IntegerDigits(man, true);
            && n >= 1 && n + prec < C && F.IsState(B, t)
            && (t.zeros == prec + 1 || (t.zeros == prec && t.exp == 4))
            && GenerateRun(B, x, FixedBound(C, prec)) == Finish(B, man, n, t, FixedBound(C, prec))
  {
    F.StartFits(B, x);
    ScaleContinues(B, F.Start(B, x), prec, prec + 1);
    F.ScaleFits(B, Stop(B, x, prec), prec + 1);
    RunIs(B, C, x, prec);
    hide F.Scale, F.Start, F.IsState, I.Convert, Finish, GenerateRun, IsFinite, Numeral;
  }

  lemma StoppedShared(B: nat, C: nat, x: Finite, prec: nat)
    requires IsWidth(B) && IsFinite(x) && IsCapacity(C) && HasRoom(B, C, x, prec) && I.HasFraction(B, x)
    requires F.Start(B, x).man != 0 || F.Start(B, x).carry != 0
    requires var s := Stop(B, x, prec); s.zeros == prec && F.IsState(B, s)
    ensures FixedConversion(B, C, x, prec) ==
            SharedResult(B, Tenfold(I.Convert(B, x).man, prec), F.Scale(B, Stop(B, x, prec), prec + 1), prec)
  {
    var n := Tenfold(I.Convert(B, x).man, prec);
    hide *;
    ContinuedRun(B, C, x, prec);
    FinishesAt(B, C, I.Convert(B, x).man, IntegerDigits(I.Convert(B, x).man, true), F.Scale(B, Stop(B, x,
        prec), prec + 1), prec);
    FixedYields(B, C, x, prec, n, SharedResult(B, n, F.Scale(B, Stop(B, x, prec), prec + 1), prec));
  }

  lemma FixedYields(B: nat, C: nat, x: Finite, prec: nat, n: nat, v: nat)
    requires IsWidth(B) && IsFinite(x) && IsCapacity(C) && Yields(GenerateRun(B, x, FixedBound(C, prec)), n, prec, v)
    ensures FixedConversion(B, C, x, prec) == v
  {
    hide FixedConversion, GenerateRun, GuardRounds;
    FixedByGuard(B, C, x, prec, n);
  }

  /** The number n of units printed, once rounded by the digit the state t behind it still yields. */
  function SharedResult(B: nat, n: nat, t: F.Scaled, prec: nat): nat
    requires IsWidth(B)
  {
    if t.zeros == prec + 1 then n else GuardResult(n, t.man + t.carry, Unit(B))
  }

  function GuardResult(n: nat, m: nat, u: nat): nat
    requires u > 0
  {
    n + GuardRounds(n, m / u, 0, m % u == 0)
  }

  lemma FinishesAt(B: nat, C: nat, man: nat, n: nat, t: F.Scaled, prec: nat)
    requires IsWidth(B) && C >= 1 && n >= 1 && n + prec < C && F.IsState(B, t)
    requires t.zeros == prec + 1 || (t.zeros == prec && t.exp == 4)
    ensures var k := Tenfold(man, prec); Yields(Finish(B, man, n, t, FixedBound(C, prec)), k, prec, SharedResult(B, k, t, prec))
  {
    var r, k := Finish(B, man, n, t, FixedBound(C, prec)), Tenfold(man, prec);
    SharedResultIs(B, k, t, prec);
    if t.zeros == prec + 1 {
      FinishFull(B, C, man, n, t, prec);
      hide *;
      FullYields(r, k, prec);
    } else {
      FinishOne(B, C, man, n, t, prec);
      var m, u := t.man + t.carry, Unit(B);
      hide *;
      DigitYields(r, k, prec, m, u);
    }
  }

  /** One digit past the precision, whose rounding leads to v. */
  ghost predicate Yields(r: Run, k: nat, prec: nat, v: nat) {
    r.dec == 0 - prec - 1 && 0 <= r.g - 10 * k < 10 && k + GuardRounds(k, r.g - 10 * k, 0, r.tail) == v
  }

  lemma FullYields(r: Run, k: nat, prec: nat)
    requires r.dec == 0 - prec - 1 && r.g == 10 * k
    ensures Yields(r, k, prec, k)
  {
  }

  lemma DigitYields(r: Run, k: nat, prec: nat, m: nat, u: nat)
    requires u > 0 && m / u < 10 && r.dec == 0 - prec - 1 && r.g == 10 * k + m / u && r.tail == (m % u == 0)
    ensures Yields(r, k, prec, GuardResult(k, m, u))
  {
    DivModEquation(m, u);
    hide GuardRounds;
  }

  lemma FinishOne(B: nat, C: nat, man: nat, n: nat, t: F.Scaled, prec: nat)
    requires IsWidth(B) && C >= 1 && n >= 1 && n + prec < C && t.zeros == prec && t.exp == 4 && F.IsState(B, t)
    ensures var r, m, u := Finish(B, man, n, t, FixedBound(C, prec)), t.man + t.carry, Unit(B);
            && r.dec == 0 - prec - 1 && m / u < 10 && r.g == 10 * Tenfold(man, prec) + m / u && r.tail == (m % u == 0)
  {
    FinishReady(B, C, man, n, t, prec);
    NudgeIsPlain(B, t);
    hide *;
    assert prec + 1 - t.zeros == 1;
    OneDigit'(B, t.man + t.carry, Tenfold(man, prec));
    GuardBelowTen(B, t.man + t.carry);
  }

  lemma GuardBelowTen(B: nat, m: nat)
    requires IsWidth(B) && m < 10 * Unit(B)
    ensures m / Unit(B) < 10 && (16 * (m % Unit(B)) == 0 <==> m % Unit(B) == 0)
  {
    DigitBuffer.TopDigit(m, Unit(B));
  }

  /** The guard digit of the prepared mantissa, against half of the range. */
  lemma GuardOfMantissa(u: nat, m: nat, n: nat)
    requires u > 0
    ensures m < 5 * u ==> GuardResult(n, m, u) == n
    ensures m == 5 * u ==> GuardResult(n, m, u) == n + n % 2
    ensures m > 5 * u ==> GuardResult(n, m, u) == n + 1
  {
    DivModEquation(m, u);
    if m < 5 * u { MulCancelLess(m / u, 5, u); }
    if m == 5 * u { DivModUnique(m, u, 5, 0); }
    if m > 5 * u {
      if m / u < 5 { MulMonotone(m / u + 1, 5, u); }
    }
  }

  /** At exponent 0 the fused path nudges the mantissa, the shared one reads a digit off it. */
  predicate Parts(u: nat, w: nat, n: nat) {
    (w == 16 * u - 1 && n % 2 == 1) || (16 * u < w < 16 * u + 4 && n % 2 == 0)
  }

  lemma NudgeAgainstGuard(B: nat, s: F.Scaled, n: nat, m: nat)
    requires IsWidth(B) && s.man < 16 * Unit(B) && s.carry <= 1
    requires var w, u := F.Wide(s), Unit(B);
             && (w < 16 * u ==> m < 5 * u) && (16 * u <= w < 16 * u + 4 ==> m == 5 * u) && (w >= 16 * u + 4 ==> m > 5 * u)
    ensures GuardResult(n, m, Unit(B)) == PlusOneIf(n, Fused.RemainderRounds(Unit(B), Fused.Nudged(B, s), n)) <==>
            !Parts(Unit(B), F.Wide(s), n)
  {
    GuardOfMantissa(Unit(B), m, n);
    hide GuardResult;
  }

  lemma StoppedAgrees(B: nat, C: nat, x: Finite, prec: nat)
    requires IsWidth(B) && IsFinite(x) && IsCapacity(C) && HasRoom(B, C, x, prec) && I.HasFraction(B, x)
    requires F.Start(B, x).man != 0 || F.Start(B, x).carry != 0
    requires var s := Stop(B, x, prec); s.zeros == prec && s.exp <= 0 && !s.digit && F.IsState(B, s)
    ensures FixedConversion(B, C, x, prec) == Fused.Conversion(B, x, prec) <==>
            !(Stop(B, x, prec).exp == 0 && Parts(Unit(B), F.Wide(Stop(B, x, prec)), Tenfold(I.Convert(B, x).man, prec)))
  {
    var s, n := Stop(B, x, prec), Tenfold(I.Convert(B, x).man, prec);
    StoppedShared(B, C, x, prec);
    FusedIs(B, x, prec);
    var t := F.Scale(B, s, prec + 1);
    assert t.man + t.carry == Ready(B, s, prec + 1);
    assert s.man < 16 * Unit(B) && s.carry <= 1;
    SharedResultIs(B, n, t, prec);
    if s.exp == 0 {
      GuardMantissa(B, s, prec + 1);
      ZerosFrozen(B, s, prec + 1);
      hide *;
      NudgeAgainstGuard(B, s, n, Ready(B, s, prec + 1));
    } else {
      BelowHalf(B, s, prec + 1);
      hide *;
      GuardOfMantissa(Unit(B), Ready(B, s, prec + 1), n);
      NotRounded(n);
    }
  }

  lemma SharedResultIs(B: nat, n: nat, t: F.Scaled, prec: nat)
    requires IsWidth(B)
    ensures SharedResult(B, n, t, prec) == if t.zeros == prec + 1 then n else GuardResult(n, t.man + t.carry, Unit(B))
  {
  }

  lemma NotRounded(n: nat)
    ensures PlusOneIf(n, false) == n
  {
  }

  // ---------------------------------------------------------------------------------------------
  // Nothing to scale, or nothing but an integer.

  lemma {:induction false} ZeroScales(B: nat, s: F.Scaled, room: int)
    requires IsWidth(B) && F.IsState(B, s) && s.man == 0 && s.carry == 0
    ensures F.Scale(B, s, room).man == 0 && F.Scale(B, s, room).carry == 0
    decreases 4 - s.exp
  {
    if s.zeros < room && s.exp < 4 {
      F.StepIsWide(B, s);
      StepParts(B, s);
      ZeroScales(B, F.Step(B, s), room);
    }
  }

  lemma ZeroDigitsLeft(B: nat, limit: nat)
    requires IsWidth(B) && limit >= 1
    ensures Generate(B, 0, 0, 0, limit, true).g == 0 && Generate(B, 0, 0, 0, limit, true).rem == 0
  {
    FusedBuffer.GenerateNothing(B, 0, limit);
    GenerateValue(B, 0, 0, 0, limit, true);
    var r := Generate(B, 0, 0, 0, limit, true);
    assert (0 * Pow(10, limit)) * Unit(B) + 0 * Pow(10, limit - 1) == 0;
    hide Generate, Pow, Unit;
  }

  lemma ZeroAgrees(B: nat, C: nat, x: Finite, prec: nat)
    requires IsWidth(B) && IsFinite(x) && IsCapacity(C) && I.HasFraction(B, x)
    requires F.Start(B, x).man == 0 && F.Start(B, x).carry == 0
    ensures FixedConversion(B, C, x, prec) == Fused.Conversion(B, x, prec) == Tenfold(I.Convert(B, x).man, prec)
  {
    var s := Stop(B, x, prec);
    F.StartFits(B, x);
    ZeroScales(B, F.Start(B, x), prec);
    F.ScaleFits(B, F.Start(B, x), prec);
    ZeroRun(B, C, x, prec);
    FusedIs(B, x, prec);
    if s.zeros < prec { ZeroDigitsLeft(B, prec - s.zeros); }
    assert Fused.Nudged(B, s) == 0;
    assert s.man + s.carry == 0;
    var n := Tenfold(I.Convert(B, x).man, prec);
    NothingRoundsUp(Unit(B), n);
    hide F.Scale, F.Start, I.Convert, Generate, FixedConversion, Fused.Conversion, IsFinite, Pow, Tenfold;
  }

  lemma NothingRoundsUp(u: nat, n: nat)
    requires u > 0
    ensures !Fused.RemainderRounds(u, 0, n)
  {
  }

  lemma ZeroRun(B: nat, C: nat, x: Finite, prec: nat)
    requires IsWidth(B) && IsFinite(x) && IsCapacity(C) && I.HasFraction(B, x)
    requires F.Start(B, x).man == 0 && F.Start(B, x).carry == 0
    ensures FixedConversion(B, C, x, prec) == Tenfold(I.Convert(B, x).man, prec)
  {
    var r := GenerateRun(B, x, FixedBound(C, prec));
    assert r.g == I.Convert(B, x).man && r.dec == 0 && r.carry == 0;
    hide *;
    FixedAsIs(B, C, x, prec);
  }

  lemma IntegerAgrees(B: nat, C: nat, x: Finite, prec: nat)
    requires IsWidth(B) && IsFinite(x) && IsCapacity(C) && !I.HasFraction(B, x)
    ensures FixedConversion(B, C, x, prec) == Fused.Conversion(B, x, prec)
  {
    var r, i := GenerateRun(B, x, FixedBound(C, prec)), I.Convert(B, x);
    assert r.g == i.man && r.dec == i.tens && r.carry == i.carry;
    FixedAsIs(B, C, x, prec);
    TenfoldTwice(i.man + i.carry, i.tens, prec);
    hide GenerateRun, I.Convert, FixedConversion, Tenfold, IsFinite;
  }

  // ---------------------------------------------------------------------------------------------
  // The theorem.

  /** The fraction, to 2^-(B+1), is just under one half above an odd integer, or just over an even one. */
  predicate Diverges(B: nat, x: Finite)
    requires IsWidth(B) && IsFinite(x)
  {
    && I.HasFraction(B, x) && x.exp >= -1
    && Parts(Unit(B), F.Wide(F.Start(B, x)), I.Convert(B, x).man)
  }

  lemma StopIs(B: nat, x: Finite, prec: nat)
    requires IsWidth(B) && IsFinite(x) && x.exp < MAN_BITS
    ensures var s := Stop(B, x, prec);
            && F.IsState(B, s)
            && (prec == 0 ==> s == F.Start(B, x))
            && (s.zeros < prec ==> s.exp == 4)
            && (s.zeros >= prec ==> s.zeros == prec && s.exp <= 0 && !s.digit)
            && (s.zeros >= prec > 0 ==> s.carry == 0 && (s.man % 5 == 0 || s.man % 5 == 3))
            && F.Start(B, x).exp == Min(x.exp + 1, 0)
  {
    F.StartFits(B, x);
    F.ScaleFits(B, F.Start(B, x), prec);
    if prec > 0 {
      F.ScaleStops(B, F.Start(B, x), prec);
      StopsOnFive(B, F.Start(B, x), prec);
    }
  }

  /** Behind a multiplication the mantissa is never one of those the paths part on. */
  lemma FiveNeverParts(B: nat, s: F.Scaled, n: nat)
    requires IsWidth(B) && s.carry == 0 && (s.man % 5 == 0 || s.man % 5 == 3)
    ensures !Parts(Unit(B), F.Wide(s), n)
  {
    UnitPowers(B);
  }

  /**
   * For every finite double, every width and every precision that leaves the fraction, if there is
   * one, room for one more digit, the two %f conversions compute the same number, except at
   * precision 0 when the value diverges; and then they do not.
   */
  lemma PathsAgree(B: nat, C: nat, x: Finite, prec: nat)
    requires IsWidth(B) && IsFinite(x) && IsCapacity(C) && (I.HasFraction(B, x) ==> HasRoom(B, C, x, prec))
    ensures FixedConversion(B, C, x, prec) == Fused.Conversion(B, x, prec) <==> !(prec == 0 && Diverges(B, x))
  {
    if !I.HasFraction(B, x) {
      IntegerAgrees(B, C, x, prec);
    } else if F.Start(B, x).man == 0 && F.Start(B, x).carry == 0 {
      ZeroAgrees(B, C, x, prec);
    } else {
      StopIs(B, x, prec);
      var s := Stop(B, x, prec);
      hide FixedConversion, Fused.Conversion, F.Scale, F.Start, I.Convert, IsFinite, Unit, Stop, F.IsState,
          HasRoom, I.HasFraction;
      if s.zeros < prec {
        ReadyAgrees(B, C, x, prec);
      } else {
        StoppedAgrees(B, C, x, prec);
        if prec > 0 { FiveNeverParts(B, s, Tenfold(I.Convert(B, x).man, prec)); } else { TenfoldZero(I.Convert(B, x).man); }
      }
    }
  }

  lemma WholeInjective(m: nat, n: nat, point: bool)
    requires Fixed(m, 0, point) == Fixed(n, 0, point)
    ensures m == n
  {
    FusedBuffer.FixedAtZero(m, point);
    FusedBuffer.FixedAtZero(n, point);
    NumeralValue(m, 10, 0);
    NumeralValue(n, 10, 0);
    hide Fixed, Numeral, Value;
    if point {
      assert Whole(m, point)[1..] == DecNumeral(m) && Whole(n, point)[1..] == DecNumeral(n);
    } else {
      assert Whole(m, point) == DecNumeral(m) && Whole(n, point) == DecNumeral(n);
    }
  }

  /** Behind a fraction at most 16 integer digits stand in front of the point. */
  lemma FractionIsSmall(B: nat, x: Finite)
    requires IsWidth(B) && IsFinite(x) && I.HasFraction(B, x)
    ensures var i := I.Convert(B, x);
            i.tens == 0 && |DecNumeral(i.man)| <= |DecNumeral(i.man + 1)| <= 16
  {
    var man := Num(x) / Den(x);
    I.ConvertWhole(B, x);
    assert Num(x) == x.bin * 1 && Den(x) == 2 * Pow(2, MAN_BITS - x.exp - 1);
    QuotientBelowHalf(x.bin, Pow(2, MAN_BITS - x.exp - 1));
    hide Num, Den, I.Convert, Numeral, Pow;
    NumeralLengthMonotone(man, man + 1);
    SixteenDigits(man + 1);
  }

  lemma NeverOverruns(B: nat, C: nat, x: Finite)
    requires IsWidth(B) && IsFinite(x) && IsCapacity(C) && I.HasFraction(B, x)
    ensures !Overruns(B, C, x)
  {
    FractionIsSmall(B, x);
    hide I.Convert, Numeral;
  }

  lemma QuotientBelowHalf(n: nat, p: nat)
    requires p > 0 && n < 2 * HIDDEN_BIT
    ensures n / (2 * p) + 1 < 2 * HIDDEN_BIT
  {
    DivModEquation(n, 2 * p);
    MulMonotone(2, 2 * p, n / (2 * p));
  }

  /** A fraction whose digits would not fit is too long for both. */
  lemma NoRoomIsLong(B: nat, C: nat, x: Finite, prec: nat, alt: bool)
    requires IsWidth(B) && IsFinite(x) && IsCapacity(C) && I.HasFraction(B, x) && !HasRoom(B, C, x, prec)
    ensures |Fixed(FixedConversion(B, C, x, prec), prec, prec > 0 || alt)| > C
    ensures |Fused.Text(B, x, prec, alt)| > C
  {
    FractionIsSmall(B, x);
    FixedLength(B, C, x, prec, alt);
    FusedBuffer.TextIsLong(B, x, prec, alt);
    hide FixedConversion, Fixed, Fused.Text, I.Convert, Numeral, Shared.Round, IsFinite, I.HasFraction;
  }

  /** Without places behind the point both texts of a fraction fit. */
  lemma WholeTextsFit(B: nat, C: nat, x: Finite, alt: bool)
    requires IsWidth(B) && IsFinite(x) && IsCapacity(C) && I.HasFraction(B, x)
    ensures |Fixed(FixedConversion(B, C, x, 0), 0, alt)| <= C
    ensures |Fused.Text(B, x, 0, alt)| <= C
  {
    FractionIsSmall(B, x);
    FixedLength(B, C, x, 0, alt);
    WholeConversion(B, x);
    TextOf(B, x, 0, alt);
    var man, n := I.Convert(B, x).man, Fused.Conversion(B, x, 0);
    hide FixedConversion, Fixed, Fused.Text, Fused.Conversion, I.Convert, Numeral, IsFinite, I.HasFraction;
    FusedBuffer.FixedAtZero(n, alt);
  }

  lemma WholeConversion(B: nat, x: Finite)
    requires IsWidth(B) && IsFinite(x) && I.HasFraction(B, x)
    ensures var man := I.Convert(B, x).man; man <= Fused.Conversion(B, x, 0) <= man + 1
  {
    F.StartFits(B, x);
    F.ScaleFits(B, F.Start(B, x), 0);
    FusedIs(B, x, 0);
    TenfoldZero(I.Convert(B, x).man);
    hide I.Convert, F.Start, Fused.Conversion, Fused.Nudged;
  }

  /**
   * The buffers, for every finite double and every width: the shared path reports ERR exactly when
   * the fused text is longer than the buffer; any other text it prints too, if and only if the
   * number does not diverge at precision 0 and does not lose a digit to the point.
   */
  lemma OutputsAgree(B: nat, C: nat, x: Finite, prec: nat, alt: bool)
    requires IsWidth(B) && IsFinite(x) && IsCapacity(C)
    ensures var t, out := Fused.Text(B, x, prec, alt), FixedOutput(B, C, x, prec, alt);
            && (out == TooLong <==> |t| > C)
            && (|t| <= C ==> (out == Printed(t) <==> !(prec == 0 && Diverges(B, x)) && !LosesDigit(B, C, x, prec, alt)))
            && (B > 32 ==> (Fused.Fits(B, C, x, prec, alt) <==> |t| <= C))
  {
    if I.HasFraction(B, x) {
      if HasRoom(B, C, x, prec) { FractionOutputs(B, C, x, prec, alt); } else {
        NoRoomIsLong(B, C, x, prec, alt);
        OutputOf(B, C, x, prec, alt);
        hide FixedConversion, Fused.Text, Fixed, Diverges, I.Convert, Numeral, FixedOutput, Overruns, IsFinite;
      }
    } else {
      IntegerOutputs(B, C, x, prec, alt);
    }
  }

  lemma IntegerOutputs(B: nat, C: nat, x: Finite, prec: nat, alt: bool)
    requires IsWidth(B) && IsFinite(x) && IsCapacity(C) && !I.HasFraction(B, x)
    ensures var t, out := Fused.Text(B, x, prec, alt), FixedOutput(B, C, x, prec, alt);
            && (out == TooLong <==> |t| > C)
            && (|t| <= C ==> (out == Printed(t) <==> !LosesDigit(B, C, x, prec, alt)))
  {
    IntegerAgrees(B, C, x, prec);
    TextOf(B, x, prec, alt);
    OutputOf(B, C, x, prec, alt);
    FusedBuffer.TextIsLong(B, x, prec, alt);
    var t := Fused.Text(B, x, prec, alt);
    if |t| <= C { ClobbersExactly(B, C, x, prec, alt); }
    if prec == 0 && !alt { FirstCharacter(Fused.Conversion(B, x, 0)); }
    hide FixedConversion, Fused.Conversion, Fused.Text, Fixed, I.Convert, Numeral, FixedOutput, IsFinite, Clobbers;
    if LosesDigit(B, C, x, prec, alt) && |t| <= C { assert t[0 := '.'][0] == '.'; }
  }

  lemma FractionOutputs(B: nat, C: nat, x: Finite, prec: nat, alt: bool)
    requires IsWidth(B) && IsFinite(x) && IsCapacity(C) && I.HasFraction(B, x) && HasRoom(B, C, x, prec)
    ensures var t, out := Fused.Text(B, x, prec, alt), FixedOutput(B, C, x, prec, alt);
            && (out == TooLong <==> |t| > C)
            && (|t| <= C ==> (out == Printed(t) <==> !(prec == 0 && Diverges(B, x))))
            && !LosesDigit(B, C, x, prec, alt)
  {
    FractionIsSmall(B, x);
    PathsAgree(B, C, x, prec);
    TextOf(B, x, prec, alt);
    OutputOf(B, C, x, prec, alt);
    var m, n, point := FixedConversion(B, C, x, prec), Fused.Conversion(B, x, prec), prec > 0 || alt;
    if |Fixed(m, prec, point)| <= C { ClobbersExactly(B, C, x, prec, alt); }
    if prec == 0 {
      WholeTextsFit(B, C, x, alt);
      if Fixed(m, 0, point) == Fixed(n, 0, point) { WholeInjective(m, n, point); }
    }
    hide FixedConversion, Fused.Conversion, Fused.Text, Fixed, Diverges, I.Convert, Numeral, FixedOutput, IsFinite,
        Clobbers, I.HasFraction;
  }

  lemma TextOf(B: nat, x: Finite, prec: nat, alt: bool)
    requires IsWidth(B) && IsFinite(x)
    ensures Fused.Text(B, x, prec, alt) == Fixed(Fused.Conversion(B, x, prec), prec, prec > 0 || alt)
  {
  }

  lemma OutputOf(B: nat, C: nat, x: Finite, prec: nat, alt: bool)
    requires IsWidth(B) && IsFinite(x) && IsCapacity(C)
    ensures var t := Fixed(FixedConversion(B, C, x, prec), prec, prec > 0 || alt);
            FixedOutput(B, C, x, prec, alt) ==
            if Overruns(B, C, x) || |t| > C then TooLong
            else Printed(if Clobbers(B, C, x, prec, alt) then t[0 := '.'] else t)
  {
    hide FixedConversion, Fixed, Overruns, Clobbers, IsFinite;
  }

  /** The cut of a fraction whose 64 bits are 0x7FFF_FFFF and the next bit set: W = 2^32 - 1. */
  lemma JustUnderHalf(B: nat, x: Finite)
    requires B == 32 && x == Finite(HIDDEN_BIT + 0xFFFF_FFFF * 0x8_0000, 0)
    ensures F.Wide(F.Start(B, x)) == 16 * Unit(B) - 1
  {
    var bits := Shl(x.bin, BIN_BITS - MAN_BITS) % BIN_MODULUS;
    Powers(B);
    assert bits == 0xFFFF_FFFF * 0x8000_0000 by { assert Shl(x.bin, BIN_BITS - MAN_BITS) == x.bin * 4096; }
    assert Shr(bits, B) == 0x7FFF_FFFF && Shr(bits, B - 1) == 0xFFFF_FFFF;
  }

  lemma Powers(B: nat)
    requires B == 32
    ensures Pow(2, BIN_BITS - MAN_BITS) == 4096
    ensures Pow(2, B - 1) == 0x8000_0000 && Pow(2, B) == 0x1_0000_0000 && Unit(B) == 0x1000_0000
  {
    assert Pow(2, 4) == 16;
    assert Unit(B) == Pow(2, 28);
    hide *;
    UnitPowers(32);
    PowAdd(2, 4, 4);
    PowAdd(2, 8, 4);
    PowAdd(2, 12, 12);
    PowAdd(2, 24, 4);
  }

  lemma WholePartIsOne(B: nat, x: Finite)
    requires IsWidth(B) && x == Finite(HIDDEN_BIT + 0xFFFF_FFFF * 0x8_0000, 0)
    ensures I.Convert(B, x).man == 1 && I.HasFraction(B, x)
  {
    assert Min(x.exp, ShiftBits(B)) == 0;
    assert I.Steps(B, x) == 0;
    BitConstants();
    assert Pow(2, MAN_BITS) == 2 * Pow(2, MAN_BITS - 1);
    var p := Pow(2, MAN_BITS - 1);
    DivModUnique(x.bin, p, 2, x.bin - HIDDEN_BIT);
  }

  /** 1.4999999998835847 with a 32-bit integer and %.0f: the fused path prints 2, the shared one 1. */
  lemma DivergingInput(B: nat)
    requires B == 32
    ensures var x := Finite(HIDDEN_BIT + 0xFFFF_FFFF * 0x8_0000, 0);
            && IsFinite(x) && Diverges(B, x)
            && Fused.Conversion(B, x, 0) != FixedConversion(B, 64, x, 0)
  {
    var x := Finite(HIDDEN_BIT + 0xFFFF_FFFF * 0x8_0000, 0);
    JustUnderHalf(B, x);
    WholePartIsOne(B, x);
    assert IsFinite(x) && Parts(Unit(B), F.Wide(F.Start(B, x)), 1);
    SharedLayout.OneDigit(1);
    assert HasRoom(B, 64, x, 0);
    hide F.Start, I.Convert, FixedConversion, Fused.Conversion;
    PathsAgree(B, 64, x, 0);
  }
}
