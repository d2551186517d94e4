/**
 * How far a printed decimal is from the double it stands for, exact or not: the errors of cutting,
 * scaling and rounding, put together.
 */
module PrintedError {
  import opened Arithmetic
  import opened Rounding
  import opened Numerals
  import opened Doubles
  import opened DigitGeneration
  import opened Shared
  import opened SharedExact
  import opened Shortest
  import opened FloatAgreement
  import opened PreparedValue
  import I = IntegerPart
  import F = FractionPart
  import E = FractionError
  import FloatPaths
  import Fused

  // ---------------------------------------------------------------------------------------------
  // Values whose fraction is not converted: beyond 2^52, or beyond the width.

  /** W0, and the weight of its last bit in halves of 1 / Den. */
  function Cut(B: nat, x: Finite): nat
    requires IsWidth(B) && x.exp >= 0
  {
    I.Wide(I.Start(B, x).man, I.Start(B, x).carry)
  }

  function Weight(B: nat, x: Finite): nat
    requires IsWidth(B) && x.exp >= 0
  {
    Pow(2, I.Steps(B, x)) * Den(x)
  }

  function Shifted(B: nat, x: Finite): nat
    requires IsWidth(B) && x.exp >= 0
  {
    MAN_BITS - Min(x.exp, ShiftBits(B))
  }

  lemma CutIs(B: nat, x: Finite)
    requires IsWidth(B) && x.exp >= 0
    ensures Shifted(B, x) > 0 ==> Cut(B, x) == x.bin / Pow(2, Shifted(B, x) - 1)
    ensures Shifted(B, x) == 0 ==> Cut(B, x) == 2 * x.bin
  {
    hide Pow;
  }

  lemma WeightIs(B: nat, x: Finite)
    requires IsWidth(B) && IsFinite(x) && x.exp >= 0
    ensures var e := Pow(2, if x.exp > MAN_BITS then x.exp - MAN_BITS else 0);
            e > 0 && Weight(B, x) == Pow(2, Shifted(B, x)) * e && Num(x) == x.bin * e
  {
    var e := if x.exp > MAN_BITS then x.exp - MAN_BITS else 0;
    var f := if x.exp < MAN_BITS then MAN_BITS - x.exp else 0;
    assert Den(x) == Pow(2, f) && I.Steps(B, x) + f == Shifted(B, x) + e;
    PowAdd(2, I.Steps(B, x), f);
    PowAdd(2, Shifted(B, x), e);
  }

  /** The cut keeps B + 1 bits: W0 is twice the value, rounded down to 2^Steps. */
  lemma IntegerCut(B: nat, x: Finite)
    requires IsWidth(B) && IsFinite(x) && x.exp >= 0
    ensures Cut(B, x) * Weight(B, x) <= 2 * Num(x) < (Cut(B, x) + 1) * Weight(B, x)
    ensures Shifted(B, x) == 0 ==> Cut(B, x) * Weight(B, x) == 2 * Num(x)
  {
    CutIs(B, x);
    WeightIs(B, x);
    var s, a := Shifted(B, x), Pow(2, if x.exp > MAN_BITS then x.exp - MAN_BITS else 0);
    if s > 0 {
      assert Pow(2, s) == 2 * Pow(2, s - 1);
      hide *;
      CutBetween(x.bin, Pow(2, s - 1), a);
    } else {
      assert Pow(2, 0) == 1;
      hide *;
      NothingCut(x.bin, a);
    }
  }

  lemma NothingCut(n: nat, a: nat)
    requires a > 0
    ensures (2 * n) * (1 * a) == 2 * (n * a) < (2 * n + 1) * (1 * a)
  {
  }

  lemma CutBetween(n: nat, q: nat, a: nat)
    requires q > 0 && a > 0
    ensures (n / q) * ((2 * q) * a) <= 2 * (n * a) < (n / q + 1) * ((2 * q) * a)
  {
    var w := n / q;
    DivModEquation(n, q);
    assert w * ((2 * q) * a) == 2 * ((w * q) * a) && (w + 1) * ((2 * q) * a) == 2 * ((w * q + q) * a);
    MulMonotone(w * q, n, a);
    MulMonotone(n + 1, w * q + q, a);
    assert (n + 1) * a == n * a + a;
  }

  /** What the cut takes off is less than one part in 2^B - 1. */
  lemma IntegerCutLoss(B: nat, x: Finite)
    requires IsWidth(B) && IsFinite(x) && !I.HasFraction(B, x)
    ensures (2 * Num(x)) * (E.Modulus(B) - 1) <= (Cut(B, x) * Weight(B, x)) * E.Modulus(B)
  {
    IntegerCut(B, x);
    I.StartFits(B, x);
    var w, unit, n, m := Cut(B, x), Weight(B, x), 2 * Num(x), E.Modulus(B);
    assert Shifted(B, x) == 0 || w >= m;
    hide *;
    if Shifted(B, x) == 0 { MulMonotone(m - 1, m, n); } else { CutLoss(n, w, unit, m); }
  }

  lemma CutLoss(n: nat, w: nat, unit: nat, m: nat)
    requires n < (w + 1) * unit && w >= m >= 1
    ensures n * (m - 1) <= (w * unit) * m
  {
    MulMonotone(n, (w + 1) * unit, m - 1);
    assert ((w + 1) * unit) * (m - 1) == ((w + 1) * (m - 1)) * unit;
    assert (w + 1) * (m - 1) == w * m - w + m - 1;
    MulMonotone((w + 1) * (m - 1), w * m, unit);
    assert (w * m) * unit == (w * unit) * m;
  }

  /** The number p in units of 10^-prec against the value: above by half a unit of 10^k at most... */
  ghost predicate IsBarelyAbove(x: Finite, prec: nat, p: nat, k: nat) {
    2 * (p * Den(x)) <= (2 * Num(x) + Pow(10, k) * Den(x)) * Pow(10, prec)
  }

  /** ... and below by a factor (1 - 1/m) * (1 - 4/m)^k at most. */
  ghost predicate IsBarelyBelow(x: Finite, prec: nat, p: nat, m: nat, k: nat)
    requires m > 4
  {
    ((Num(x) * Pow(10, prec)) * (m - 1)) * Pow(m - 4, k) <= (p * Den(x)) * Pow(m, k + 1)
  }

  /**
   * %f of every finite value without a converted fraction, by either path, at any width and
   * precision: with k decimal places folded away the printed number exceeds the value by at most
   * half of 10^k, and falls short of it by at most a factor (1 - 1/2^B) * (1 - 4/2^B)^k.
   */
  lemma WholeError(B: nat, C: nat, x: Finite, prec: nat)
    requires IsWidth(B) && IsFinite(x) && IsCapacity(C) && !I.HasFraction(B, x)
    ensures var k, p := I.Convert(B, x).tens, Fused.Conversion(B, x, prec);
            && FixedConversion(B, C, x, prec) == p
            && 3 * k <= 1019
            && IsBarelyAbove(x, prec, p, k) && IsBarelyBelow(x, prec, p, E.Modulus(B), k)
  {
    var i, s, steps, m := I.Convert(B, x), I.Start(B, x), I.Steps(B, x), E.Modulus(B);
    IntegerAgrees(B, C, x, prec);
    I.ConvertBounds(B, x);
    IntegerCut(B, x);
    IntegerCutLoss(B, x);
    I.StartFits(B, x);
    assert i == I.Scale(B, s, steps) && s.tens == 0;
    I.ScaleUpper(B, s, steps);
    I.ScaleLower(B, s, steps);
    var k, n := i.tens, i.man + i.carry;
    var ten, tp, p := Pow(10, k), Pow(10, prec), Pow(2, steps);
    var w0, w := I.Wide(s.man, s.carry), I.Wide(i.man, i.carry);
    assert Fused.Conversion(B, x, prec) == (n * ten) * tp && w <= 2 * n <= w + 1;
    assert Pow(m, k + 1) == m * Pow(m, k) && m > 4;
    var num, den, a, mk := Num(x), Den(x), Pow(m - 4, k), Pow(m, k);
    assert w0 == Cut(B, x) && p * den == Weight(B, x);
    assert w * ten <= w0 * p && (w0 * p) * a <= (w * ten) * mk;
    hide I.Convert, I.Start, I.Scale, I.Steps, Cut, Weight, I.Wide, Num, Den, Pow, Fused.Conversion, FixedConversion,
        IsFinite, E.Modulus, I.HasFraction;
    AboveParts(num, den, w0, w, n, p, ten, tp);
    BelowParts(num, den, w0, w, n, p, ten, tp, m, a, mk);
  }

  lemma AboveParts(num: nat, den: nat, w0: nat, w: nat, n: nat, p: nat, ten: nat, tp: nat)
    requires w0 * (p * den) <= 2 * num && w * ten <= w0 * p && 2 * n <= w + 1
    ensures 2 * (((n * ten) * tp) * den) <= (2 * num + ten * den) * tp
  {
    MulMonotone(2 * n, w + 1, ten);
    assert (w + 1) * ten == w * ten + ten && (2 * n) * ten == 2 * (n * ten);
    MulMonotone(2 * (n * ten), w0 * p + ten, den);
    assert (w0 * p + ten) * den == w0 * (p * den) + ten * den;
    MulMonotone((2 * (n * ten)) * den, 2 * num + ten * den, tp);
    assert 2 * (((n * ten) * tp) * den) == ((2 * (n * ten)) * den) * tp;
  }

  lemma BelowParts(num: nat, den: nat, w0: nat, w: nat, n: nat, p: nat, ten: nat, tp: nat, m: nat, a: nat, mk: nat)
    requires m >= 1 && (2 * num) * (m - 1) <= (w0 * (p * den)) * m && (w0 * p) * a <= (w * ten) * mk && w <= 2 * n
    ensures ((num * tp) * (m - 1)) * a <= (((n * ten) * tp) * den) * (m * mk)
  {
    var b, c, s, t := (2 * num) * (m - 1), (w0 * (p * den)) * m, (w0 * p) * a, (w * ten) * mk;
    var x, y, z := den * m, (num * (m - 1)) * a, ((n * ten) * den) * (m * mk);
    var v := ten * (mk * x);
    BelowLeft(w0, p, den, m, a);
    LowFold(w, ten, mk, x);
    BelowRight(n, ten, mk, den, m);
    TwiceOut(num, m - 1, a);
    TpIn(num, m - 1, a, tp);
    TpIn(n * ten, den, m * mk, tp);
    hide *;
    LowChain(b, c, a, s, t, x, w, 2 * n, v);
    MulMonotone(y, z, tp);
  }

  lemma BelowLeft(w: nat, p: nat, den: nat, m: nat, a: nat)
    ensures ((w * (p * den)) * m) * a == ((w * p) * a) * (den * m)
  {
    MulAssoc(w, p, den);
    LowLeft(w * p, den * m, 1, a);
    MulAssoc(w * p, den, m);
    HighMiddle(w * p, den, m, a);
  }

  lemma BelowRight(n: nat, ten: nat, mk: nat, den: nat, m: nat)
    ensures (2 * n) * (ten * (mk * (den * m))) == 2 * (((n * ten) * den) * (m * mk))
  {
    var x := mk * (den * m);
    assert x == den * (m * mk);
    MulAssoc(2, n, ten * x);
    MulAssoc(n, ten, x);
    MulAssoc(n * ten, den, m * mk);
  }

  lemma TwiceOut(n: nat, m: nat, a: nat)
    ensures ((2 * n) * m) * a == 2 * ((n * m) * a)
  {
    MulAssoc(2, n, m);
    MulAssoc(2, n * m, a);
  }

  lemma TpIn(n: nat, m: nat, a: nat, t: nat)
    ensures ((n * m) * a) * t == ((n * t) * m) * a
  {
    assert (n * m) * t == (n * t) * m;
    var x := n * m;
    assert (x * a) * t == (x * t) * a;
  }

  // ---------------------------------------------------------------------------------------------
  // Values below 1 under %e.

  /**
   * %e of every value below 1 of which the cut leaves anything, at every width: the digits printed
   * are the prepared mantissa, as a fraction, rounded half to even; no second error is made.
   */
  lemma BelowOneRounds(B: nat, x: Finite, sig: nat) returns (lead: int)
    requires IsWidth(B) && IsFinite(x) && x.exp < 0 && 1 <= sig <= MAX_CAPACITY && !IsCutToZero(B, x)
    ensures IsLeadExponent(Amount(B, x), Scaling(B, x), lead)
    ensures Mantissa(Significant(B, x, sig), sig) == RoundSignificant(Amount(B, x), Scaling(B, x), sig, lead)
  {
    assert I.Convert(B, x).man == 0 && I.HasFraction(B, x) && HasTotal(B, x) && Total(B, x) == Amount(B, x);
    assert IntegerDigits(0, false) == 0;
    hide *;
    lead := ScientificRounds(B, x, sig);
  }

  lemma StartBelowOne(B: nat, x: Finite)
    requires IsWidth(B) && IsFinite(x) && x.exp < 0
    ensures B < BIN_BITS ==> F.Wide(F.Start(B, x)) == (x.bin * 2048) / Pow(2, BIN_BITS - B - 1)
    ensures B >= BIN_BITS ==> F.Wide(F.Start(B, x)) == 2 * ((x.bin * 2048) * Pow(2, B - BIN_BITS))
  {
    F.ElevenBits(x.bin);
    if B < BIN_BITS {
      assert Pow(2, BIN_BITS - B) == 2 * Pow(2, BIN_BITS - B - 1);
      hide Pow;
      DivDiv(x.bin * 2048, Pow(2, BIN_BITS - B - 1), 2);
    }
  }

  /** The cut of a value below 1: B bits and a carry behind the point, down from 2^-(exp + 1). */
  lemma FractionCut(B: nat, x: Finite)
    requires IsWidth(B) && IsFinite(x) && x.exp < 0
    ensures var w := F.Wide(F.Start(B, x));
            && w * HIDDEN_BIT <= x.bin * E.Modulus(B) < (w + 1) * HIDDEN_BIT
            && (B >= BIN_BITS ==> w * HIDDEN_BIT == x.bin * E.Modulus(B))
  {
    StartBelowOne(B, x);
    UnitPowers(B);
    BitConstants();
    var w, m := F.Wide(F.Start(B, x)), E.Modulus(B);
    assert m == Pow(2, B);
    hide *;
    if B < BIN_BITS {
      PowAdd(2, BIN_BITS - B - 1, B);
      NarrowCut(x.bin, Pow(2, BIN_BITS - B - 1), m);
    } else {
      PowAdd(2, BIN_BITS, B - BIN_BITS);
      WideCut(x.bin, Pow(2, B - BIN_BITS), m);
    }
  }

  lemma WideCut(bin: nat, p: nat, m: nat)
    requires m == BIN_MODULUS * p
    ensures (2 * ((bin * 2048) * p)) * HIDDEN_BIT == bin * m
  {
    assert bin * (BIN_MODULUS * p) == (bin * p) * BIN_MODULUS;
    assert (bin * 2048) * p == 2048 * (bin * p);
  }

  lemma NarrowCut(bin: nat, q: nat, m: nat)
    requires q > 0 && m > 0 && q * m == SIGN_BIT
    ensures var w := (bin * 2048) / q; w * HIDDEN_BIT <= bin * m < (w + 1) * HIDDEN_BIT
  {
    var w := (bin * 2048) / q;
    DivModEquation(bin * 2048, q);
    MulMonotone(w * q, bin * 2048, m);
    MulMonotone(bin * 2048 + 1, (w + 1) * q, m);
    assert (w * q) * m == w * (q * m) && ((w + 1) * q) * m == (w + 1) * (q * m);
    assert (bin * 2048) * m == 2048 * (bin * m) && (bin * 2048 + 1) * m == 2048 * (bin * m) + m;
  }

  /** The share the cut takes off: none from 64 bits on, and of normal values less than 1 / (2^B - 1). */
  lemma FractionCutLoss(B: nat, x: Finite)
    requires IsWidth(B) && IsFinite(x) && x.exp < 0 && (x.bin >= HIDDEN_BIT || B >= BIN_BITS)
    ensures x.bin * (E.Modulus(B) - 1) <= F.Wide(F.Start(B, x)) * HIDDEN_BIT
  {
    FractionCut(B, x);
    var w, m := F.Wide(F.Start(B, x)), E.Modulus(B);
    hide *;
    ShareLost(x.bin, w, m, HIDDEN_BIT);
  }

  lemma ShareLost(bin: nat, w: nat, m: nat, h: nat)
    requires m >= 1 && bin * m < (w + 1) * h && (bin >= h || w * h == bin * m)
    ensures bin * (m - 1) <= w * h
  {
    assert bin * (m - 1) == bin * m - bin;
    assert (w + 1) * h == w * h + h;
  }

  /** amount / scaling against the value: below by a factor (1 - 1/m) * (1 - 3/m)^n at most... */
  ghost predicate IsLittleBelow(x: Finite, amount: nat, scaling: nat, m: nat, n: nat)
    requires m >= 3
  {
    ((Num(x) * scaling) * (m - 1)) * Pow(m - 3, n) <= (amount * Den(x)) * Pow(m, n + 1)
  }

  /** ... and above by a factor (1 + 3/m)^n and half a unit of the amount at most. */
  ghost predicate IsLittleAbove(x: Finite, amount: nat, scaling: nat, m: nat, n: nat) {
    ((2 * amount - 1) * Den(x)) * Pow(m, n) <= (2 * (Num(x) * scaling)) * Pow(m + 3, n)
  }

  /**
   * Every normal value below 1, and from 64 bits on every subnormal too: what BelowOneRounds
   * rounds is the value itself up to the errors of cutting it, of n = 3 - exp steps of scaling,
   * and of adding the last carry.
   */
  lemma PreparedError(B: nat, x: Finite)
    requires IsWidth(B) && IsFinite(x) && x.exp < 0 && x.bin > 0 && (x.bin >= HIDDEN_BIT || B >= BIN_BITS)
    ensures !IsCutToZero(B, x)
    ensures IsLittleBelow(x, Amount(B, x), Scaling(B, x), E.Modulus(B), 3 - x.exp)
    ensures IsLittleAbove(x, Amount(B, x), Scaling(B, x), E.Modulus(B), 3 - x.exp)
  {
    assert -1022 <= x.exp;
    hide *;
    FractionCut(B, x);
    FractionCutLoss(B, x);
    CutLeavesSome(B, x);
    ScaledParts(B, x);
    ValueParts(x);
    ScalingParts(B, x);
    LittleFrom(x, F.Wide(F.Start(B, x)), F.Wide(Prepared(B, x)), Amount(B, x), Unit(B), Pow(10, Prepared(B, x).zeros + 1),
        E.Modulus(B), 3 - x.exp, Pow(2, -x.exp));
  }

  lemma LittleFrom(x: Finite, w0: nat, w: nat, amount: nat, u: nat, ten: nat, m: nat, n: nat, pe: nat)
    requires m == 16 * u && m >= 3 && Num(x) == x.bin && Den(x) == HIDDEN_BIT * pe && Pow(m, n + 1) == m * Pow(m, n)
    requires x.bin * (m - 1) <= w0 * HIDDEN_BIT <= x.bin * m && w <= 2 * amount <= w + 1
    requires (w0 * ten) * Pow(m - 3, n) <= (w * (8 * pe)) * Pow(m, n) <= (w0 * ten) * Pow(m + 3, n)
    ensures IsLittleBelow(x, amount, u * ten, m, n) && IsLittleAbove(x, amount, u * ten, m, n)
  {
    var h, a, b, mn := HIDDEN_BIT, Pow(m - 3, n), Pow(m + 3, n), Pow(m, n);
    hide *;
    LowParts(x.bin, h, w0, w, amount, u, ten, m, a, mn, pe);
    HighParts(x.bin, h, w0, w, amount, u, ten, m, b, mn, pe);
    LittleIs(x, amount, u * ten, m, n, h * pe, a, b, mn);
  }

  lemma ScalingParts(B: nat, x: Finite)
    requires IsWidth(B) && IsFinite(x) && x.exp < 0
    ensures Scaling(B, x) == Unit(B) * Pow(10, Prepared(B, x).zeros + 1)
    ensures E.Modulus(B) == 16 * Unit(B)
    ensures Pow(E.Modulus(B), 4 - x.exp) == E.Modulus(B) * Pow(E.Modulus(B), 3 - x.exp)
  {
    hide Prepared, IsFinite, Unit;
  }

  lemma ValueParts(x: Finite)
    requires IsFinite(x) && x.exp < 0
    ensures Num(x) == x.bin && Den(x) == HIDDEN_BIT * Pow(2, -x.exp)
  {
    assert Pow(2, 0) == 1 && x.bin * 1 == x.bin;
    BitConstants();
    PowAdd(2, MAN_BITS, -x.exp);
  }

  /** The two bounds on the scaling, from the cut to the prepared state. */
  lemma ScaledParts(B: nat, x: Finite)
    requires IsWidth(B) && IsFinite(x) && x.exp < 0 && (x.bin >= HIDDEN_BIT || B >= BIN_BITS) && !IsCutToZero(B, x)
    ensures var s, r, m, n := F.Start(B, x), Prepared(B, x), E.Modulus(B), 3 - x.exp;
            var w0, w, ten, steps := F.Wide(s), F.Wide(r), Pow(10, r.zeros + 1), 8 * Pow(2, -x.exp);
            && (w0 * ten) * Pow(m - 3, n) <= (w * steps) * Pow(m, n)
            && (w * steps) * Pow(m, n) <= (w0 * ten) * Pow(m + 3, n)
            && w <= 2 * Amount(B, x) <= w + 1
  {
    PreparedIs(B, x);
    SteadyStart(B, x, -INT_MIN);
    E.BelowOneError(B, x, -INT_MIN);
    F.StartFits(B, x);
    EightSteps(x);
    var s, r := F.Start(B, x), Prepared(B, x);
    assert r == F.Scale(B, s, -INT_MIN) && r.carry <= 1;
    assert s.exp == x.exp + 1 && F.Tens(s) == 0 && F.Tens(r) == r.zeros + 1 && r.exp - s.exp == 3 - x.exp;
    hide F.Start, F.Scale, Prepared, F.Tens, F.IsState, IsFinite, IsCutToZero, Pow, E.Modulus;
  }

  lemma EightSteps(x: Finite)
    requires x.exp < 0
    ensures Pow(2, 3 - x.exp) == 8 * Pow(2, -x.exp)
  {
    assert Pow(2, 3) == 8;
    PowAdd(2, 3, -x.exp);
  }

  lemma CutLeavesSome(B: nat, x: Finite)
    requires IsWidth(B) && IsFinite(x) && x.exp < 0 && x.bin > 0
    requires x.bin * (E.Modulus(B) - 1) <= F.Wide(F.Start(B, x)) * HIDDEN_BIT
    ensures !IsCutToZero(B, x)
  {
    MulPositive(x.bin, E.Modulus(B) - 1);
    hide F.Start, E.Modulus;
  }

  lemma SteadyStart(B: nat, x: Finite, room: int)
    requires IsWidth(B) && IsFinite(x) && x.exp < 0 && (x.bin >= HIDDEN_BIT || B >= BIN_BITS) && !IsCutToZero(B, x)
    ensures E.ErrsLittleAbove(B, F.Start(B, x), room, F.Wide(F.Start(B, x)))
  {
    if x.bin >= HIDDEN_BIT {
      E.NormalError(B, x, room);
    } else {
      assert F.Start(B, x).carry == 0;
      E.SteadyError(B, x);
    }
  }

  lemma LowParts(bin: nat, h: nat, w0: nat, w: nat, amount: nat, u: nat, ten: nat, m: nat, a: nat, mn: nat, pe: nat)
    requires m == 16 * u && m >= 1 && bin * (m - 1) <= w0 * h && w <= 2 * amount
    requires (w0 * ten) * a <= (w * (8 * pe)) * mn
    ensures ((bin * (u * ten)) * (m - 1)) * a <= (amount * (h * pe)) * (m * mn)
  {
    var b, c, s, t := bin * (m - 1), w0 * h, (w0 * ten) * a, (w * (8 * pe)) * mn;
    var x, y, z := (u * ten) * a, h * u, (8 * pe) * (mn * (h * u));
    LowLeft(bin, u * ten, m - 1, a);
    LowMiddle(w0, h, u, ten, a);
    LowFold(w, 8 * pe, mn, h * u);
    LowRight(amount, pe, mn, h, u);
    hide *;
    LowChain(b, c, x, s, t, y, w, 2 * amount, z);
  }

  lemma LowChain(b: nat, c: nat, x: nat, s: nat, t: nat, y: nat, w: nat, n: nat, z: nat)
    requires b <= c && s <= t && w <= n && c * x == s * y && t * y == w * z
    ensures b * x <= n * z
  {
    MulMonotone(b, c, x);
    MulMonotone(s, t, y);
    MulMonotone(w, n, z);
  }

  lemma LowLeft(bin: nat, c: nat, m: nat, a: nat)
    ensures ((bin * c) * m) * a == (bin * m) * (c * a)
  {
    MulShuffle(bin, c, m, a);
    MulAssoc(bin * c, m, a);
  }

  lemma LowMiddle(w: nat, h: nat, u: nat, ten: nat, a: nat)
    ensures (w * h) * ((u * ten) * a) == ((w * ten) * a) * (h * u)
  {
    LowLeft(w, h, ten * a, u);
    MulAssoc(w, ten, a);
    MulAssoc(u, ten, a);
    assert u * (ten * a) == (ten * a) * u;
    MulAssoc(w * h, ten * a, u);
  }

  lemma LowFold(w: nat, p: nat, q: nat, r: nat)
    ensures ((w * p) * q) * r == w * (p * (q * r))
  {
    MulAssoc(w * p, q, r);
    MulAssoc(w, p, q * r);
  }

  lemma LowRight(amount: nat, pe: nat, mn: nat, h: nat, u: nat)
    ensures (2 * amount) * ((8 * pe) * (mn * (h * u))) == (amount * (h * pe)) * ((16 * u) * mn)
  {
    var x := mn * (h * u);
    assert (8 * pe) * x == 8 * (pe * x) by { MulAssoc(8, pe, x); }
    assert (2 * amount) * (8 * (pe * x)) == 16 * (amount * (pe * x)) by { Sixteen(amount, pe * x); }
    assert (16 * u) * mn == 16 * (u * mn) by { MulAssoc(16, u, mn); }
    assert (amount * (h * pe)) * (16 * (u * mn)) == 16 * ((amount * (h * pe)) * (u * mn)) by {
      SixteenOut(amount * (h * pe), u * mn);
    }
    MulAssoc(amount, h * pe, u * mn);
    assert pe * x == (h * pe) * (u * mn) by { MulShuffle(h, pe, u, mn); MulAssoc(pe, mn, h * u); Commute(pe, mn, h * u); }
  }

  lemma Sixteen(a: nat, b: nat)
    ensures (2 * a) * (8 * b) == 16 * (a * b)
  {
  }

  lemma SixteenOut(a: nat, b: nat)
    ensures a * (16 * b) == 16 * (a * b)
  {
  }

  lemma Commute(a: nat, b: nat, c: nat)
    ensures (a * b) * c == c * (a * b)
  {
  }

  lemma HighParts(bin: nat, h: nat, w0: nat, w: nat, amount: nat, u: nat, ten: nat, m: nat, b: nat, mn: nat, pe: nat)
    requires m == 16 * u && w0 * h <= bin * m && 2 * amount <= w + 1
    requires (w * (8 * pe)) * mn <= (w0 * ten) * b
    ensures ((2 * amount - 1) * (h * pe)) * mn <= (2 * (bin * (u * ten))) * b
  {
    HighStart(h, w0, w, 2 * amount - 1, ten, b, mn, pe);
    HighEnd(bin, h, w0, u, ten, b);
    MulAssoc(2 * amount - 1, h * pe, mn);
  }

  lemma HighStart(h: nat, w0: nat, w: nat, e: int, ten: nat, b: nat, mn: nat, pe: nat)
    requires e <= w && (w * (8 * pe)) * mn <= (w0 * ten) * b
    ensures 8 * (e * ((h * pe) * mn)) <= (w0 * h) * (ten * b)
  {
    HighLeft(w, pe, mn, h);
    HighMiddle(w0, ten, b, h);
    MulMonotone((w * (8 * pe)) * mn, (w0 * ten) * b, h);
    MulMonotone(e, w, (h * pe) * mn);
  }

  lemma HighEnd(bin: nat, h: nat, w0: nat, u: nat, ten: nat, b: nat)
    requires w0 * h <= bin * (16 * u)
    ensures (w0 * h) * (ten * b) <= 8 * ((2 * (bin * (u * ten))) * b)
  {
    HighRight(bin, u, ten, b);
    MulMonotone(w0 * h, bin * (16 * u), ten * b);
  }

  lemma HighLeft(w: nat, pe: nat, mn: nat, h: nat)
    ensures ((w * (8 * pe)) * mn) * h == 8 * (w * ((h * pe) * mn))
  {
    LowFold(w, 8 * pe, mn, h);
    assert (8 * pe) * (mn * h) == 8 * (pe * (mn * h)) by { MulAssoc(8, pe, mn * h); }
    assert pe * (mn * h) == (h * pe) * mn;
    var x := (h * pe) * mn;
    assert w * (8 * x) == 8 * (w * x);
  }

  lemma HighMiddle(w: nat, ten: nat, b: nat, h: nat)
    ensures ((w * ten) * b) * h == (w * h) * (ten * b)
  {
    MulShuffle(w, h, ten, b);
    MulAssoc(w * ten, b, h);
    assert b * h == h * b;
  }

  lemma HighRight(bin: nat, u: nat, ten: nat, b: nat)
    ensures (bin * (16 * u)) * (ten * b) == 8 * ((2 * (bin * (u * ten))) * b)
  {
    assert bin * (16 * u) == 16 * (bin * u);
    MulAssoc(16, bin * u, ten * b);
    MulAssoc(bin * u, ten, b);
    MulAssoc(bin, u, ten);
    var x := bin * (u * ten);
    assert (2 * x) * b == 2 * (x * b);
  }

  lemma LittleIs(x: Finite, amount: nat, scaling: nat, m: nat, n: nat, den: nat, a: nat, b: nat, mn: nat)
    requires m >= 3 && Num(x) == x.bin && Den(x) == den
    requires a == Pow(m - 3, n) && b == Pow(m + 3, n) && mn == Pow(m, n) && Pow(m, n + 1) == m * mn
    requires ((x.bin * scaling) * (m - 1)) * a <= (amount * den) * (m * mn)
    requires ((2 * amount - 1) * den) * mn <= (2 * (x.bin * scaling)) * b
    ensures IsLittleBelow(x, amount, scaling, m, n) && IsLittleAbove(x, amount, scaling, m, n)
  {
  }

  // ---------------------------------------------------------------------------------------------
  // Fractions under %f.

  /** Rounding m / (u * 10^i), from its digits j places on. */
  lemma RoundShifted(m: nat, u: nat, i: nat, j: nat, g: nat, rest: nat)
    requires rest < u && m * Pow(10, j) == g * u + rest
    ensures u * Pow(10, i) > 0
    ensures RoundAt(m, u * Pow(10, i), j + i) == if 2 * rest < u || (2 * rest == u && g % 2 == 0) then g else g + 1
  {
    var n, ten := m * Pow(10, j), Pow(10, i);
    hide *;
    MulPositive(u, ten);
    PowAdd(10, j, i);
    RoundAtUp(m, u * ten, j + i);
    MulAssoc(m, Pow(10, j), ten);
    CommonFactor(n, u, ten);
    RoundRatio(n * ten, u * ten, n, u);
    RoundFromParts(n, u, g, rest);
  }

  /** Full generation and the decision on what it leaves round the mantissa half to even. */
  lemma GeneratedRounds(B: nat, m: nat, z: nat, prec: nat, whole: nat)
    requires IsWidth(B) && z < prec && whole % 2 == 0
    ensures var f, k := Generate(B, m, 0, 0, prec - z, true), Unit(B) * Pow(10, z + 1);
            k > 0 && PlusOneIf(whole + f.g, Fused.RemainderRounds(Unit(B), f.rem, whole + f.g)) == whole + RoundAt(m, k, prec)
  {
    var f, u, limit := Generate(B, m, 0, 0, prec - z, true), Unit(B), prec - z;
    GenerateValue(B, m, 0, 0, limit, true);
    assert 0 * Pow(10, limit) * u == 0;
    assert f.g * u + f.rem / 16 == m * Pow(10, limit - 1) && f.rem == 16 * (f.rem / 16) && f.rem / 16 < u;
    hide *;
    assert limit - 1 + (z + 1) == prec;
    RoundShifted(m, u, z + 1, limit - 1, f.g, f.rem / 16);
    DecidesAlike(u, f.rem, f.rem / 16, f.g, whole);
  }

  lemma DecidesAlike(u: nat, rem: nat, rest: nat, g: nat, whole: nat)
    requires rem == 16 * rest && whole % 2 == 0
    ensures PlusOneIf(whole + g, Fused.RemainderRounds(u, rem, whole + g)) ==
            whole + if 2 * rest < u || (2 * rest == u && g % 2 == 0) then g else g + 1
  {
  }

  lemma CommonFactor(n: nat, u: nat, ten: nat)
    ensures (n * ten) * u == n * (u * ten)
  {
  }

  lemma TenfoldEven(n: nat, prec: nat)
    requires prec >= 1
    ensures Tenfold(n, prec) % 2 == 0
  {
    TenfoldOnce(n, prec - 1);
  }

  /**
   * %f of every finite value with a converted fraction, at every width and every precision that
   * reaches the first digit: the integer part exactly, and the prepared mantissa, as a fraction,
   * rounded half to even.
   */
  lemma FixedRounds(B: nat, x: Finite, prec: nat)
    requires IsWidth(B) && IsFinite(x) && x.exp < MAN_BITS && I.HasFraction(B, x) && Prepared(B, x).zeros < prec
    ensures var whole := I.Convert(B, x).man;
            && whole == Num(x) / Den(x)
            && Fused.Conversion(B, x, prec) == Tenfold(whole, prec) + RoundAt(Amount(B, x), Scaling(B, x), prec)
  {
    var s, man := Prepared(B, x), I.Convert(B, x).man;
    assert Amount(B, x) == s.man + s.carry && Scaling(B, x) == Unit(B) * Pow(10, s.zeros + 1);
    assert x.exp < MAN_BITS && x.exp < B;
    hide *;
    I.ConvertWhole(B, x);
    PreparedIs(B, x);
    ScaleIsPrepared(B, x, prec);
    TenfoldEven(man, prec);
    GeneratedRounds(B, s.man + s.carry, s.zeros, prec, Tenfold(man, prec));
    FusedIs(B, x, prec);
  }

  // ---------------------------------------------------------------------------------------------
  // Fractions behind an integer part.

  /** The cut of a fraction behind an integer part: B bits and a carry behind the point. */
  lemma FractionCutAbove(B: nat, x: Finite)
    requires IsWidth(B) && IsFinite(x) && 0 <= x.exp < MAN_BITS
    ensures var w := F.Wide(F.Start(B, x));
            w * Den(x) <= (Num(x) % Den(x)) * (2 * E.Modulus(B)) < (w + 1) * Den(x)
  {
    BitConstants();
    UnitPowers(B);
    var d, p, rem := Den(x), Pow(2, BIN_BITS - MAN_BITS + x.exp), x.bin % Den(x);
    PowAdd(2, MAN_BITS - x.exp, BIN_BITS - MAN_BITS + x.exp);
    DivScale(x.bin, d, p);
    assert Num(x) == x.bin * 1 && d * p == BIN_MODULUS;
    assert Shl(x.bin, BIN_BITS - MAN_BITS + x.exp) % BIN_MODULUS == rem * p;
    StartIsCut(B, x, rem * p);
    var w, m := F.Wide(F.Start(B, x)), E.Modulus(B);
    assert m == Pow(2, B);
    hide *;
    if B < BIN_BITS {
      PowAdd(2, BIN_BITS - B - 1, B);
      NarrowCutAbove(rem, p, d, Pow(2, BIN_BITS - B - 1), m);
    } else {
      PowAdd(2, BIN_BITS, B - BIN_BITS);
      WideCutAbove(rem, p, d, Pow(2, B - BIN_BITS), m);
    }
  }

  lemma StartIsCut(B: nat, x: Finite, bits: nat)
    requires IsWidth(B) && IsFinite(x) && 0 <= x.exp < MAN_BITS
    requires Shl(x.bin, BIN_BITS - MAN_BITS + x.exp) % BIN_MODULUS == bits
    ensures B < BIN_BITS ==> F.Wide(F.Start(B, x)) == bits / Pow(2, BIN_BITS - B - 1)
    ensures B >= BIN_BITS ==> F.Wide(F.Start(B, x)) == 2 * (bits * Pow(2, B - BIN_BITS))
  {
    if B < BIN_BITS {
      assert Pow(2, BIN_BITS - B) == 2 * Pow(2, BIN_BITS - B - 1);
      hide Pow;
      DivDiv(bits, Pow(2, BIN_BITS - B - 1), 2);
    }
  }

  lemma NarrowCutAbove(rem: nat, p: nat, d: nat, q: nat, m: nat)
    requires q > 0 && d > 0 && d * p == 2 * (q * m)
    ensures var w := (rem * p) / q; w * d <= rem * (2 * m) < (w + 1) * d
  {
    var w, n := (rem * p) / q, rem * p;
    DivModEquation(n, q);
    CutTimes(rem, p, d, q, m);
    Sandwich(w, n, d, q, rem * (2 * m));
  }

  lemma CutTimes(rem: nat, p: nat, d: nat, q: nat, m: nat)
    requires d * p == 2 * (q * m)
    ensures (rem * p) * d == (rem * (2 * m)) * q
  {
    assert (rem * p) * d == rem * (d * p) by { MulAssoc(rem, p, d); }
    assert 2 * (q * m) == (2 * m) * q by { MulAssoc(2, m, q); }
    MulAssoc(rem, 2 * m, q);
  }

  lemma Sandwich(w: nat, n: nat, d: nat, q: nat, v: nat)
    requires q > 0 && d > 0 && w * q <= n < w * q + q && n * d == v * q
    ensures w * d <= v < (w + 1) * d
  {
    MulMonotone(w * q, n, d);
    MulMonotone(n + 1, w * q + q, d);
    assert (w * q) * d == (w * d) * q;
    assert (n + 1) * d == n * d + d;
    assert (w * q + q) * d == ((w + 1) * d) * q;
    assert (v + 1) * q == v * q + q;
    MulCancelLess(w * d, v + 1, q);
    MulCancelLess(v, (w + 1) * d, q);
  }

  lemma WideCutAbove(rem: nat, p: nat, d: nat, q: nat, m: nat)
    requires d > 0 && d * p == BIN_MODULUS && m == BIN_MODULUS * q
    ensures var w := 2 * ((rem * p) * q); w * d <= rem * (2 * m) < (w + 1) * d
  {
    var w := 2 * ((rem * p) * q);
    assert w * d == 2 * ((rem * (d * p)) * q);
    assert rem * (2 * ((d * p) * q)) == 2 * ((rem * (d * p)) * q);
    assert (w + 1) * d == w * d + d;
  }

  /** Four steps, one of them a multiplication: how far halving first and truncating moves the pair. */
  lemma {:induction false} StepsClose(B: nat, s: F.Scaled)
    requires IsWidth(B) && F.IsState(B, s) && 0 <= s.exp <= 4 && s.zeros == 0
    ensures var w, w' := F.Wide(s), F.Wide(F.Scale(B, s, 1));
            && (s.digit ==> var h := Pow(2, 4 - s.exp); h * w' <= w < h * w' + h)
            && (!s.digit ==> var h := Pow(2, 3 - s.exp); 5 * w <= h * w' + 5 * (h - 1) && h * w' <= 5 * w + h)
    decreases 4 - s.exp
  {
    if s.exp == 4 {
      assert Pow(2, 0) == 1;
    } else {
      var t := F.Step(B, s);
      F.StepIsWide(B, s);
      F.ThresholdFits(B);
      assert t.zeros == 0 && F.Scale(B, s, 1) == F.Scale(B, t, 1);
      StepsClose(B, t);
      assert Pow(2, 4 - s.exp) == 2 * Pow(2, 3 - s.exp);
      if s.exp < 3 { assert Pow(2, 3 - s.exp) == 2 * Pow(2, 2 - s.exp); } else { assert Pow(2, 0) == 1; }
      var w, v, w', h := F.Wide(s), F.Wide(t), F.Wide(F.Scale(B, s, 1)), Pow(2, 3 - s.exp);
      assert s.carry <= 1 && !s.digit && s.exp == 3 ==> s.man <= F.Threshold(B);
      hide F.Scale, F.Step, F.IsState, F.Wide, Pow;
      if s.digit {
        HalvedClose(w, v, w', h);
      } else if s.man > F.Threshold(B) {
        var g := Pow(2, 2 - s.exp);
        assert (2 * g) * w' == 2 * (g * w') by { MulAssoc(2, g, w'); }
      }
    }
  }

  lemma HalvedClose(w: nat, v: nat, w': nat, h: nat)
    requires v == w / 2 && h * w' <= v < h * w' + h
    ensures (2 * h) * w' <= w < (2 * h) * w' + 2 * h
  {
    MulAssoc(2, h, w');
  }

  /** The total is above the value by one unit at most, and below it by less than two and a half. */
  ghost predicate IsClose(x: Finite, total: nat, scaling: nat) {
    && total * Den(x) <= Num(x) * scaling + Den(x)
    && 2 * (Num(x) * scaling) < (2 * total + 5) * Den(x)
  }

  /**
   * Every finite value with an integer part and a converted fraction, at every width: what every
   * style rounds, the total over 10 * 2^(B-4), is within [-5/2, 1] of its units of the value.
   */
  lemma TotalIsClose(B: nat, x: Finite)
    requires IsWidth(B) && IsFinite(x) && x.exp < MAN_BITS && x.exp >= 0 && I.HasFraction(B, x)
    ensures Scaling(B, x) == 10 * Unit(B) && IsClose(x, Total(B, x), Scaling(B, x))
  {
    var s, r, u, m := F.Start(B, x), Prepared(B, x), Unit(B), E.Modulus(B);
    PreparedIs(B, x);
    ScaleIsPrepared(B, x, 1);
    F.StartFits(B, x);
    StepsClose(B, s);
    FractionCutAbove(B, x);
    I.ConvertWhole(B, x);
    assert Pow(10, 1) == 10 && Pow(2, 3) == 8 && m == 16 * u;
    var whole, rem, d, w, w', a := Num(x) / Den(x), Num(x) % Den(x), Den(x), F.Wide(s), F.Wide(r), Amount(B, x);
    assert w' <= 2 * a <= w' + 1 && 5 * w <= 8 * w' + 35 && 8 * w' <= 5 * w + 8;
    assert Scaling(B, x) == u * 10 && Total(B, x) == whole * (u * 10) + a;
    DivModEquation(Num(x), d);
    var n := Num(x);
    hide *;
    CloseParts(n, d, whole, rem, u, w, w', a);
    CloseIs(x, whole * (u * 10) + a, u * 10);
  }

  lemma CloseIs(x: Finite, total: nat, scaling: nat)
    requires total * Den(x) <= Num(x) * scaling + Den(x)
    requires 2 * (Num(x) * scaling) < (2 * total + 5) * Den(x)
    ensures IsClose(x, total, scaling)
  {
  }

  lemma CloseParts(n: nat, d: nat, whole: nat, rem: nat, u: nat, w: nat, w': nat, a: nat)
    requires n == whole * d + rem && w * d <= rem * (2 * (16 * u)) < (w + 1) * d
    requires w' <= 2 * a <= w' + 1 && 5 * w <= 8 * w' + 35 && 8 * w' <= 5 * w + 8
    ensures (whole * (u * 10) + a) * d <= n * (u * 10) + d
    ensures 2 * (n * (u * 10)) < (2 * (whole * (u * 10) + a) + 5) * d
  {
    var v, wd, ad, c := rem * u, w * d, a * d, (whole * d) * u;
    assert rem * (2 * (16 * u)) == 32 * v by { FactorOut(rem, 32, u); assert 2 * (16 * u) == 32 * u; }
    assert (w + 1) * d == wd + d;
    assert 16 * ad <= 5 * wd + 16 * d by { MulMonotone(16 * a, 5 * w + 16, d); ScaleDown(16, a, 5, w, 16, d); }
    assert 5 * wd <= 16 * ad + 35 * d by { MulMonotone(5 * w, 16 * a + 35, d); ScaleDown(5, w, 16, a, 35, d); }
    assert n * (u * 10) == 10 * c + 10 * v by { NumberOfUnits(whole, d, rem, u); }
    assert (whole * (u * 10) + a) * d == 10 * c + ad by { TotalOfUnits(whole, u, a, d); }
    var t := (whole * (u * 10) + a) * d;
    assert (2 * (whole * (u * 10) + a) + 5) * d == 2 * t + 5 * d by { ScaleDown(1, 0, 2, whole * (u * 10) + a, 5, d); }
  }

  lemma FactorOut(a: nat, k: nat, b: nat)
    ensures a * (k * b) == k * (a * b)
  {
    MulAssoc(k, a, b);
    MulAssoc(a, k, b);
    assert k * a == a * k;
  }

  lemma NumberOfUnits(whole: nat, d: nat, rem: nat, u: nat)
    ensures (whole * d + rem) * (u * 10) == 10 * ((whole * d) * u) + 10 * (rem * u)
  {
    var n := whole * d + rem;
    assert u * 10 == 10 * u;
    FactorOut(n, 10, u);
    assert n * u == (whole * d) * u + rem * u;
  }

  lemma TotalOfUnits(whole: nat, u: nat, a: nat, d: nat)
    ensures (whole * (u * 10) + a) * d == 10 * ((whole * d) * u) + a * d
  {
    assert whole * (u * 10) == 10 * (whole * u) by { FactorOut(whole, 10, u); }
    assert (10 * (whole * u)) * d == 10 * ((whole * u) * d) by { MulAssoc(10, whole * u, d); }
    assert (whole * u) * d == (whole * d) * u;
    var w := whole * (u * 10);
    assert (w + a) * d == w * d + a * d;
  }

  lemma ScaleDown(i: int, a: int, j: int, b: int, k: int, d: int)
    ensures (i * a) * d == i * (a * d) && (j * b + k) * d == j * (b * d) + k * d
  {
    MulAssoc(i, a, d);
    MulAssoc(j, b, d);
  }

  // ---------------------------------------------------------------------------------------------
  // %e and %g of values whose fraction is not converted.

  /** The digits of a rounded run, as an integer. */
  function Printed(r: Run): nat
    requires r.dec >= 0
  {
    Tenfold(r.g, r.dec)
  }

  /** p is above the value by half a unit at most, or by half of 10^k ... */
  ghost predicate IsNearAbove(x: Finite, p: nat, unit: nat) {
    2 * (p * Den(x)) <= 2 * Num(x) + unit * Den(x)
  }

  /** ... and what slack it leaves below is lost to the scaling by a factor (1 - 1/m) * (1 - 4/m)^k at most. */
  ghost predicate IsNearBelow(x: Finite, p: nat, slack: nat, m: nat, k: nat)
    requires m > 4
  {
    ((2 * Num(x)) * (m - 1)) * Pow(m - 4, k) <= ((2 * p + slack) * Den(x)) * Pow(m, k + 1)
  }

  /** Cutting digits off and rounding stays within half of the unit left, on the side the tie test saw. */
  lemma DropIsNear(r: Run, drop: nat)
    requires 0 < drop < r.nsig
    ensures var q, unit := Drop(r, drop).g + Drop(r, drop).carry, Pow(10, drop);
            && 2 * (q * unit) <= 2 * r.g + unit
            && 2 * r.g + (if r.tail then 0 else 1) <= (2 * q + 1) * unit
  {
    var p, low := Pow(10, drop - 1), Low(r.g, drop);
    var kept, guard, below := High(r.g, drop), High(low, drop - 1), Low(low, drop - 1);
    SplitDigits(r.g, drop);
    assert Pow(10, drop) == 10 * p;
    assert Drop(r, drop).g == kept && Drop(r, drop).carry == GuardRounds(kept, guard, below, r.tail);
    hide *;
    GuardIsNear(kept, guard, below, p, r.tail, r.g);
  }

  lemma GuardIsNear(kept: nat, guard: nat, below: nat, p: nat, tail: bool, g: nat)
    requires guard < 10 && below < p && g == (kept * 10 + guard) * p + below
    ensures var q := kept + GuardRounds(kept, guard, below, tail);
            2 * (q * (10 * p)) <= 2 * g + 10 * p && 2 * g + (if tail then 0 else 1) <= (2 * q + 1) * (10 * p)
  {
    var up := GuardRounds(kept, guard, below, tail);
    assert up == 1 ==> guard >= 5;
    assert up == 0 ==> guard <= 4 || (guard == 5 && below == 0 && tail);
    hide *;
    assert (kept * 10 + guard) * p == 10 * (kept * p) + guard * p by { SpreadSum(kept, 10, guard, p); }
    assert (kept + up) * (10 * p) == 10 * (kept * p) + up * (10 * p) by { UnitsOf(kept, up, p); }
    assert (2 * (kept + up) + 1) * (10 * p) == 2 * ((kept + up) * (10 * p)) + 10 * p by { TwiceAndOne(kept + up, 10 * p); }
    assert guard * p <= 9 * p by { MulMonotone(guard, 9, p); }
    if up == 1 { MulMonotone(5, guard, p); } else { MulMonotone(guard, if guard <= 4 then 4 else 5, p); }
  }

  lemma SpreadSum(a: nat, b: nat, c: nat, p: nat)
    ensures (a * b + c) * p == b * (a * p) + c * p
  {
    assert (a * b) * p == b * (a * p);
  }

  lemma UnitsOf(a: nat, b: nat, p: nat)
    ensures (a + b) * (10 * p) == 10 * (a * p) + b * (10 * p)
  {
    assert a * (10 * p) == 10 * (a * p);
  }

  lemma TwiceAndOne(a: nat, p: nat)
    ensures (2 * a + 1) * p == 2 * (a * p) + p
  {
  }

  /** The run of a value whose fraction is not converted. */
  lemma WholeRunIs(B: nat, x: Finite, sig: nat)
    requires IsWidth(B) && IsFinite(x) && !I.HasFraction(B, x) && 1 <= sig <= MAX_CAPACITY
    ensures var i, r := I.Convert(B, x), GenerateRun(B, x, SignificantBound(sig));
            && r == Run(i.man, IntegerDigits(i.man, false), i.tens, i.carry, x.exp <= ShiftBits(B))
            && r.nsig >= 1 && (r.tail ==> i.carry == 0) && i.carry <= 1
            && Kept(B, x, SignificantBound(sig)) == Drop(r, r.nsig - sig) && Kept(B, x, SignificantBound(sig)).nsig >= 1
  {
    I.ConvertBounds(B, x);
    FloatPaths.SomeDigits(B, x, SignificantBound(sig));
    KeptShape(B, x, SignificantBound(sig));
    assert x.exp >= 0;
    if x.exp <= ShiftBits(B) { assert I.Steps(B, x) == 0 && I.Convert(B, x) == I.Start(B, x); }
    hide I.Scale, Numeral, Pow, IsFinite;
  }

  /** Rounding a kept run moves its digits, not what they and the carry add up to. */
  lemma RoundKeepsSum(r: Run)
    requires IsRun(r) && r.nsig >= 1 && r.dec >= 0
    ensures Round(r).dec >= 0 && Printed(Round(r)) == Tenfold(r.g + r.carry, r.dec)
  {
    RoundShape(r);
    var t := Round(r);
    if t.dec > r.dec {
      assert Pow(10, t.dec) == 10 * Pow(10, r.dec);
      assert t.g * (10 * Pow(10, r.dec)) == (t.g * 10) * Pow(10, r.dec);
    }
  }

  /** The places given up: those folded away, and those beyond the digits asked for. */
  function Given(B: nat, x: Finite, sig: nat): nat
    requires IsWidth(B)
  {
    I.Convert(B, x).tens + Max(0, IntegerDigits(I.Convert(B, x).man, false) - sig)
  }

  /**
   * %e of every finite value without a converted fraction: above the value by at most half of the
   * unit given up, below it by at most that, if digits were cut, and the factors of WholeError.
   */
  lemma ScientificWholeError(B: nat, x: Finite, sig: nat)
    requires IsWidth(B) && IsFinite(x) && !I.HasFraction(B, x) && 1 <= sig <= MAX_CAPACITY
    ensures var r, i := Significant(B, x, sig), I.Convert(B, x);
            var unit := Pow(10, Given(B, x, sig));
            && r.dec >= 0 && IsNearAbove(x, Printed(r), unit)
            && IsNearBelow(x, Printed(r), if IntegerDigits(i.man, false) > sig then unit else 0, E.Modulus(B), i.tens)
  {
    var b, i := SignificantBound(sig), I.Convert(B, x);
    var r, d := GenerateRun(B, x, b), Kept(B, x, b);
    WholeRunIs(B, x, sig);
    KeptShape(B, x, b);
    SignificantOfKept(B, x, sig);
    assert d.dec == i.tens + Max(0, r.nsig - sig) == Given(B, x, sig) && IsRun(d);
    assert r.nsig <= sig ==> d.g + d.carry == i.man + i.carry;
    hide *;
    RoundKeepsSum(d);
    if r.nsig > sig {
      DropIsNear(r, r.nsig - sig);
      CutWholeError(B, x, d.g + d.carry, r.nsig - sig, r.tail);
    } else {
      KeptWholeError(B, x);
    }
  }

  /** The bounds of the scaling, in whole numbers of the fold. */
  lemma ScalingBounds(B: nat, x: Finite)
    requires IsWidth(B) && IsFinite(x) && !I.HasFraction(B, x)
    ensures var i, m := I.Convert(B, x), E.Modulus(B);
            var w := I.Wide(i.man, i.carry);
            && (w * Pow(10, i.tens)) * Den(x) <= 2 * Num(x)
            && ((2 * Num(x)) * (m - 1)) * Pow(m - 4, i.tens) <= ((w * Pow(10, i.tens)) * Den(x)) * Pow(m, i.tens + 1)
  {
    var i, s, steps, m := I.Convert(B, x), I.Start(B, x), I.Steps(B, x), E.Modulus(B);
    IntegerCut(B, x);
    IntegerCutLoss(B, x);
    I.StartFits(B, x);
    assert i == I.Scale(B, s, steps) && s.tens == 0;
    I.ScaleUpper(B, s, steps);
    I.ScaleLower(B, s, steps);
    var k, w, w0 := i.tens, I.Wide(i.man, i.carry), I.Wide(s.man, s.carry);
    var ten, p, num, den, a, mk := Pow(10, k), Pow(2, steps), Num(x), Den(x), Pow(m - 4, k), Pow(m, k);
    assert Pow(m, k + 1) == m * mk && m > 4;
    assert w0 == Cut(B, x) && p * den == Weight(B, x);
    assert w * ten <= w0 * p && (w0 * p) * a <= (w * ten) * mk;
    hide *;
    BothSides(num, den, w0, w, p, ten, m, a, mk);
  }

  lemma BothSides(num: nat, den: nat, w0: nat, w: nat, p: nat, ten: nat, m: nat, a: nat, mk: nat)
    requires w0 * (p * den) <= 2 * num && w * ten <= w0 * p
    requires m >= 1 && (2 * num) * (m - 1) <= (w0 * (p * den)) * m && (w0 * p) * a <= (w * ten) * mk
    ensures (w * ten) * den <= 2 * num
    ensures ((2 * num) * (m - 1)) * a <= ((w * ten) * den) * (m * mk)
  {
    MulMonotone(w * ten, w0 * p, den);
    MulAssoc(w0, p, den);
    var b, c, s, t, x := (2 * num) * (m - 1), (w0 * (p * den)) * m, (w0 * p) * a, (w * ten) * mk, den * m;
    BelowLeft(w0, p, den, m, a);
    TimesRest(w * ten, mk, den, m);
    hide *;
    MulMonotone(b, c, a);
    MulMonotone(s, t, x);
  }

  lemma TimesRest(w: nat, mk: nat, den: nat, m: nat)
    ensures (w * mk) * (den * m) == (w * den) * (m * mk)
  {
    MulShuffle(w, mk, den, m);
    assert mk * m == m * mk;
  }

  lemma KeptWholeError(B: nat, x: Finite)
    requires IsWidth(B) && IsFinite(x) && !I.HasFraction(B, x)
    ensures var i := I.Convert(B, x);
            var p := Tenfold(i.man + i.carry, i.tens);
            IsNearAbove(x, p, Pow(10, i.tens)) && IsNearBelow(x, p, 0, E.Modulus(B), i.tens)
  {
    ScalingBounds(B, x);
    I.ConvertBounds(B, x);
    var i, m := I.Convert(B, x), E.Modulus(B);
    var w, n, ten, den, mk := I.Wide(i.man, i.carry), i.man + i.carry, Pow(10, i.tens), Den(x), Pow(m, i.tens + 1);
    assert w <= 2 * n <= w + 1 && Tenfold(n, i.tens) == n * ten;
    hide I.Convert, I.Wide, Num, Den, Pow, E.Modulus, IsFinite, I.HasFraction, I.IsState, Tenfold;
    KeptScaled(w, n, ten, den, mk);
  }

  lemma KeptScaled(w: nat, n: nat, ten: nat, den: nat, mk: nat)
    requires w <= 2 * n <= w + 1
    ensures 2 * ((n * ten) * den) <= (w * ten) * den + ten * den
    ensures ((w * ten) * den) * mk <= ((2 * (n * ten) + 0) * den) * mk
  {
    hide *;
    UpToHalf(w, n, ten, den, 1);
    MulMonotone(w, 2 * n, ten);
    MulAssoc(2, n, ten);
    MulMonotone(w * ten, 2 * (n * ten), den);
    MulMonotone((w * ten) * den, (2 * (n * ten)) * den, mk);
  }

  /** 2n is at most w and a unit more: so is what they are scaled to. */
  lemma UpToHalf(w: nat, n: nat, ten: nat, den: nat, unit: nat)
    requires 2 * n <= w + unit
    ensures 2 * ((n * ten) * den) <= (w * ten) * den + (unit * ten) * den
  {
    MulMonotone(2 * n, w + unit, ten);
    MulMonotone((2 * n) * ten, (w + unit) * ten, den);
    MulAssoc(2, n, ten);
    MulAssoc(2, n * ten, den);
    assert (w + unit) * ten == w * ten + unit * ten;
    assert (w * ten + unit * ten) * den == (w * ten) * den + (unit * ten) * den;
  }

  lemma CutWholeError(B: nat, x: Finite, q: nat, drop: nat, tail: bool)
    requires IsWidth(B) && IsFinite(x) && !I.HasFraction(B, x) && (tail ==> I.Convert(B, x).carry == 0)
    requires var man := I.Convert(B, x).man;
             2 * (q * Pow(10, drop)) <= 2 * man + Pow(10, drop) &&
             2 * man + (if tail then 0 else 1) <= (2 * q + 1) * Pow(10, drop)
    ensures var k := I.Convert(B, x).tens;
            var p, unit := Tenfold(q, k + drop), Pow(10, k + drop);
            IsNearAbove(x, p, unit) && IsNearBelow(x, p, unit, E.Modulus(B), k)
  {
    ScalingBounds(B, x);
    I.ConvertBounds(B, x);
    var i, m := I.Convert(B, x), E.Modulus(B);
    var k := i.tens;
    var w, man, ten, t, den, mk := I.Wide(i.man, i.carry), i.man, Pow(10, k), Pow(10, drop), Den(x), Pow(m, k + 1);
    PowAdd(10, k, drop);
    assert 2 * man <= w && w <= 2 * man + (if tail then 0 else 1);
    assert Tenfold(q, k + drop) == q * (ten * t);
    hide I.Convert, I.Wide, Num, Den, Pow, E.Modulus, IsFinite, I.HasFraction, I.IsState, Tenfold;
    CutScaled(w, q, ten, t, den, mk);
  }

  lemma CutScaled(w: nat, q: nat, ten: nat, t: nat, den: nat, mk: nat)
    requires 2 * (q * t) <= w + t && w <= (2 * q + 1) * t
    ensures 2 * ((q * (ten * t)) * den) <= (w * ten) * den + (ten * t) * den
    ensures ((w * ten) * den) * mk <= ((2 * (q * (ten * t)) + ten * t) * den) * mk
  {
    UpToHalf(w, q * t, ten, den, t);
    assert (q * t) * ten == q * (ten * t) && t * ten == ten * t by { MulAssoc(q, t, ten); }
    MulMonotone(w, (2 * q + 1) * t, ten);
    assert ((2 * q + 1) * t) * ten == 2 * (q * (ten * t)) + ten * t by {
      assert (2 * q + 1) * t == 2 * (q * t) + t;
      assert (2 * (q * t) + t) * ten == 2 * ((q * t) * ten) + t * ten;
    }
    MulMonotone(w * ten, 2 * (q * (ten * t)) + ten * t, den);
    MulMonotone((w * ten) * den, (2 * (q * (ten * t)) + ten * t) * den, mk);
  }

  /** Stripped or not, %g prints the same number in style e; in style f WholeError bounds the second pass. */
  lemma ShortestWholeError(B: nat, C: nat, x: Finite, sig: nat, strip: bool)
    requires IsWidth(B) && IsFinite(x) && IsCapacity(C) && !I.HasFraction(B, x) && 1 <= sig <= MAX_CAPACITY
    ensures var r, i := Significant(B, x, sig), I.Convert(B, x);
            var unit := Pow(10, Given(B, x, sig));
            && r.nsig >= 1
            && match Choose(r, sig, strip)
               case F(fp) =>
                 && IsBarelyAbove(x, fp, FixedConversion(B, C, x, fp), i.tens)
                 && IsBarelyBelow(x, fp, FixedConversion(B, C, x, fp), E.Modulus(B), i.tens)
               case E(run, pe, e) =>
                 && run.dec >= 0 && IsNearAbove(x, Printed(run), unit)
                 && IsNearBelow(x, Printed(run), if IntegerDigits(i.man, false) > sig then unit else 0, E.Modulus(B), i.tens)
  {
    var r := Significant(B, x, sig);
    SignificantShape(B, x, sig);
    ScientificWholeError(B, x, sig);
    match Choose(r, sig, strip) {
      case F(fp) => WholeError(B, C, x, fp);
      case E(run, pe, e) =>
        SignificantHasLead(B, x, sig);
        StripPrints(r);
        assert run == r || run == Strip(r);
        hide *;
    }
  }

  lemma SignificantHasLead(B: nat, x: Finite, sig: nat)
    requires IsWidth(B) && IsFinite(x) && !I.HasFraction(B, x) && 1 <= sig <= MAX_CAPACITY
    ensures HasLead(Significant(B, x, sig)) && IsRun(Significant(B, x, sig))
  {
    var b := SignificantBound(sig);
    WholeRunIs(B, x, sig);
    I.ConvertBounds(B, x);
    RunShape(B, x, b);
    var r := GenerateRun(B, x, b);
    SignificantOfKept(B, x, sig);
    hide GenerateRun, Kept, I.Convert, IsFinite, Significant, Numeral;
    DropShape(r, r.nsig - sig);
    RoundShape(Kept(B, x, b));
  }

  lemma StripPrints(r: Run)
    requires IsRun(r) && HasLead(r) && r.dec >= 0
    ensures Strip(r).dec >= 0 && Printed(Strip(r)) == Printed(r)
  {
    StripKeeps(r);
    var s := Strip(r);
    TenfoldTwice(s.g, r.nsig - s.nsig, r.dec);
    hide Strip, Tenfold, Pow;
  }
}
