/**
 * The fraction part of a conversion: B bits plus a carry bit of the fraction, scaled from base 2 to
 * base 10 by one halving or multiplication by five per step, then read off four bits at a time.
 *
 * A multiplication made while the binary exponent is negative accounts for one decimal zero after
 * the point; the one made at or above zero prepares the first digit. As for the integer part, a
 * state is read as W = 2 * man + carry.
 */
module FractionPart {
  import opened Arithmetic
  import opened Doubles

  datatype Scaled = Scaled(man: nat, carry: nat, exp: int, digit: bool, zeros: nat)

  function Wide(s: Scaled): nat { 2 * s.man + s.carry }

  /** Multiplications by five so far. */
  function Tens(s: Scaled): nat { s.zeros + if s.digit then 1 else 0 }

  /** The cut of the fraction's bits: those below the binary point, or all of them below 1. */
  function Start(B: nat, x: Finite): Scaled
    requires IsWidth(B) && -1022 <= x.exp < MAN_BITS
  {
    var shift := if x.exp < 0 then -1 else x.exp;
    var bits := Shl(x.bin, BIN_BITS - MAN_BITS + shift) % BIN_MODULUS;
    if B < BIN_BITS then
      Scaled(Shr(bits, BIN_BITS - B), Shr(bits, BIN_BITS - B - 1) % 2, x.exp - shift, false, 0)
    else
      Scaled(Shl(bits, B - BIN_BITS), 0, x.exp - shift, false, 0)
  }

  /** The largest mantissa whose fivefold, with a carry's worth added, still fits B bits. */
  function Threshold(B: nat): nat
    requires IsWidth(B)
  {
    (16 * Unit(B) - 4) / 5
  }

  function Step(B: nat, s: Scaled): Scaled
    requires IsWidth(B)
  {
    if s.man > Threshold(B) || s.digit then
      s.(man := s.man / 2, carry := s.man % 2, exp := s.exp + 1)
    else
      var man := (s.man * 5 + if s.carry != 0 then 3 else 0) % (16 * Unit(B));
      if s.exp < 0 then Scaled(man, 0, s.exp + 1, s.digit, s.zeros + 1)
      else Scaled(man, 0, s.exp + 1, true, s.zeros)
  }

  /** The loop runs until the first digit is ready or there is no room for another zero. */
  function Scale(B: nat, s: Scaled, room: int): Scaled
    requires IsWidth(B)
    decreases 4 - s.exp
  {
    if s.zeros >= room || s.exp >= 4 then s else Scale(B, Step(B, s), room)
  }

  // ---------------------------------------------------------------------------------------------
  // Shape of every state: no wrap, and below ten units once the first digit is ready.

  predicate IsState(B: nat, s: Scaled)
    requires IsWidth(B)
  {
    && s.man < 16 * Unit(B) && s.carry <= 1 && s.exp <= 4
    && (s.digit ==> s.exp >= 1)
    && (!s.digit ==>
          && s.exp < 4
          && (s.exp == 1 ==> s.man < 8 * Unit(B))
          && (s.exp == 2 ==> s.man < 4 * Unit(B))
          && (s.exp == 3 ==> s.man < 2 * Unit(B)))
    && (s.exp == 4 ==> s.man + s.carry < 10 * Unit(B))
  }

  lemma ThresholdFits(B: nat)
    requires IsWidth(B)
    ensures 5 * Threshold(B) + 6 == 16 * Unit(B)
  {
    UnitPowers(B);
  }

  /** The multiplication never wraps; both steps act on W as halving and as times five plus carry. */
  lemma StepIsWide(B: nat, s: Scaled)
    requires IsWidth(B) && IsState(B, s) && s.exp < 4
    ensures IsState(B, Step(B, s)) && Step(B, s).exp == s.exp + 1
    ensures var t := Step(B, s);
            if s.man > Threshold(B) || s.digit
            then Wide(t) == Wide(s) / 2 && Tens(t) == Tens(s)
            else Wide(t) == 5 * Wide(s) + s.carry && t.carry == 0 && Tens(t) == Tens(s) + 1
  {
    ThresholdFits(B);
    if s.man <= Threshold(B) && !s.digit {
      var m := s.man * 5 + if s.carry != 0 then 3 else 0;
      assert m < 16 * Unit(B);
      DivModUnique(m, 16 * Unit(B), 0, m);
    }
  }

  lemma {:induction false} ScaleFits(B: nat, s: Scaled, room: int)
    requires IsWidth(B) && IsState(B, s)
    ensures var r := Scale(B, s, room);
            && IsState(B, r) && r.exp >= s.exp && r.zeros >= s.zeros
            && (r.exp == 4 || r.zeros >= room)
            && (s.zeros < room ==> r.zeros <= room)
    decreases 4 - s.exp
  {
    if s.zeros < room && s.exp < 4 {
      StepIsWide(B, s);
      ScaleFits(B, Step(B, s), room);
    }
  }

  /** Running out of room happens on a zero, so below the point and with nothing carried. */
  lemma {:induction false} ScaleStops(B: nat, s: Scaled, room: int)
    requires IsWidth(B) && IsState(B, s) && s.exp <= 4 && s.zeros < room
    ensures var r := Scale(B, s, room);
            && (r.zeros >= room ==> r.exp <= 0 && r.carry == 0 && !r.digit)
            && (r.zeros < room ==> r.exp == 4 && r.digit)
    decreases 4 - s.exp
  {
    if s.exp < 4 {
      StepIsWide(B, s);
      if Step(B, s).zeros < room { ScaleStops(B, Step(B, s), room); }
    }
  }

  lemma {:induction false} ScaleZeros(B: nat, s: Scaled, room: int)
    requires IsWidth(B) && IsState(B, s)
    ensures Scale(B, s, room).zeros <= s.zeros + Max(0, -s.exp)
    decreases 4 - s.exp
  {
    if s.zeros < room && s.exp < 4 {
      StepIsWide(B, s);
      ScaleZeros(B, Step(B, s), room);
    }
  }

  lemma StartFits(B: nat, x: Finite)
    requires IsWidth(B) && IsFinite(x) && x.exp < MAN_BITS
    ensures IsState(B, Start(B, x)) && Start(B, x).exp == Min(x.exp + 1, 0)
    ensures x.exp < 0 && x.bin >= HIDDEN_BIT ==> Start(B, x).man >= 8 * Unit(B)
  {
    BitConstants();
    UnitPowers(B);
    var shift := if x.exp < 0 then -1 else x.exp;
    var bits := Shl(x.bin, BIN_BITS - MAN_BITS + shift) % BIN_MODULUS;
    if x.exp < 0 { ElevenBits(x.bin); }
    hide Pow, Shl, Shr;
    if B < BIN_BITS {
      PowAdd(2, BIN_BITS - B, B);
      CutFits(bits, BIN_BITS - B, Unit(B));
    } else {
      PowAdd(2, BIN_BITS, B - BIN_BITS);
      PadFits(bits, B - BIN_BITS, Unit(B));
    }
  }

  lemma ElevenBits(bin: nat)
    requires bin < 2 * HIDDEN_BIT
    ensures (bin * Pow(2, 11)) % BIN_MODULUS == bin * 2048 == Shl(bin, 11) % BIN_MODULUS
  {
    assert Pow(2, 11) == 2048 by { assert Pow(2, 4) == 16; PowAdd(2, 4, 4); PowAdd(2, 8, 3); }
  }

  lemma CutFits(bits: nat, k: nat, u: nat)
    requires u > 0 && Pow(2, k) * (16 * u) == BIN_MODULUS && bits < BIN_MODULUS
    ensures Shr(bits, k) < 16 * u
    ensures bits >= SIGN_BIT ==> Shr(bits, k) >= 8 * u
  {
    CutBelow(bits, SIGN_BIT, Pow(2, k), u);
  }

  lemma CutBelow(bits: nat, half: nat, p: nat, u: nat)
    requires p > 0 && u > 0 && p * (16 * u) == 2 * half && bits < 2 * half
    ensures bits / p < 16 * u
    ensures bits >= half ==> bits / p >= 8 * u
  {
    var q := bits / p;
    DivModEquation(bits, p);
    assert p * (16 * u) == (16 * u) * p == 2 * ((8 * u) * p);
    MulCancelLess(q, 16 * u, p);
    if q < 8 * u { MulMonotone(q + 1, 8 * u, p); }
  }

  lemma PadFits(bits: nat, k: nat, u: nat)
    requires BIN_MODULUS * Pow(2, k) == 16 * u && bits < BIN_MODULUS
    ensures Shl(bits, k) < 16 * u
    ensures bits >= SIGN_BIT ==> Shl(bits, k) >= 8 * u
  {
    PadBelow(bits, SIGN_BIT, Pow(2, k), u);
  }

  lemma PadBelow(bits: nat, half: nat, p: nat, u: nat)
    requires p > 0 && (2 * half) * p == 16 * u && bits < 2 * half
    ensures bits * p < 16 * u
    ensures bits >= half ==> bits * p >= 8 * u
  {
    MulMonotone(bits + 1, 2 * half, p);
    if bits >= half { MulMonotone(half, bits, p); }
  }

  // ---------------------------------------------------------------------------------------------
  // Exactness: W * 2^exp is the fraction, times ten for every multiplication made so far.

  ghost predicate IsExactly(s: Scaled, Q: nat)
    requires s.exp <= 4
  {
    Wide(s) == (Q * Pow(10, Tens(s))) * Pow(2, 4 - s.exp)
  }

  lemma StepExact(B: nat, s: Scaled, Q: nat)
    requires IsWidth(B) && IsState(B, s) && s.exp < 4 && IsExactly(s, Q)
    ensures Step(B, s).exp <= 4 && IsExactly(Step(B, s), Q)
    ensures s.carry == 0
  {
    StepIsWide(B, s);
    var ten, p := Pow(10, Tens(s)), Pow(2, 3 - s.exp);
    assert Pow(2, 4 - s.exp) == 2 * p && Pow(10, Tens(s) + 1) == 10 * ten;
    hide Pow;
    EvenWide(s.man, s.carry, Q * ten, p);
    if s.man <= Threshold(B) && !s.digit {
      TenMoves(Q, ten, p);
    }
  }

  lemma EvenWide(man: nat, carry: nat, a: nat, p: nat)
    requires carry <= 1 && 2 * man + carry == a * (2 * p)
    ensures carry == 0 && man == a * p
  {
    DoubleMoves(a, p);
  }

  lemma TenMoves(Q: nat, ten: nat, p: nat)
    ensures (Q * (10 * ten)) * p == 10 * ((Q * ten) * p)
  {
    assert Q * (10 * ten) == 10 * (Q * ten);
    MulAssoc(10, Q * ten, p);
  }

  lemma {:induction false} ScaleExact(B: nat, s: Scaled, room: int, Q: nat)
    requires IsWidth(B) && IsState(B, s) && IsExactly(s, Q)
    ensures Scale(B, s, room).exp <= 4 && IsExactly(Scale(B, s, room), Q)
    decreases 4 - s.exp
  {
    if s.zeros < room && s.exp < 4 {
      StepIsWide(B, s);
      StepExact(B, s, Q);
      ScaleExact(B, Step(B, s), room, Q);
    }
  }

  /** On the exact domain the cut loses nothing: it holds the B-3 fraction bits and zeros below. */
  lemma StartExact(B: nat, x: Finite, V: nat)
    requires IsWidth(B) && IsFinite(x) && x.exp < MAN_BITS && IsExact(B, x, V)
    ensures IsState(B, Start(B, x)) && IsExactly(Start(B, x), V % Pow(2, B - 3))
  {
    StartFits(B, x);
    var K, d := Pow(2, B - 3), Den(x);
    assert Num(x) == x.bin * 1;
    RemainderOfExact(x.bin, d, V, K);
    if x.exp >= 0 { StartExactAbove(B, x, V % K); } else { StartExactBelow(B, x, V % K); }
  }

  lemma StartExactAbove(B: nat, x: Finite, Q: nat)
    requires IsWidth(B) && 0 <= x.exp < MAN_BITS && (x.bin % Den(x)) * Pow(2, B - 3) == Q * Den(x)
    ensures Wide(Start(B, x)) == (Q * 1) * Pow(2, 4)
  {
    BitConstants();
    var d, p := Den(x), Pow(2, BIN_BITS - MAN_BITS + x.exp);
    PowAdd(2, MAN_BITS - x.exp, BIN_BITS - MAN_BITS + x.exp);
    DivScale(x.bin, d, p);
    ScaledRemainder(x.bin % d, Pow(2, B - 3), Q, d, p);
    CutExact(B, (x.bin % d) * p, Q);
    assert Pow(2, 4) == 16;
  }

  lemma StartExactBelow(B: nat, x: Finite, Q: nat)
    requires IsWidth(B) && IsFinite(x) && x.exp < 0 && (x.bin % Den(x)) * Pow(2, B - 3) == Q * Den(x)
    ensures Wide(Start(B, x)) == (Q * 1) * Pow(2, 3 - x.exp)
  {
    var p := Pow(2, -1 - x.exp);
    BitConstants();
    PowAdd(2, MAN_BITS + 1, -1 - x.exp);
    PowAdd(2, 4, -1 - x.exp);
    assert Pow(2, MAN_BITS + 1) == 2 * HIDDEN_BIT && Pow(2, 4) == 16;
    assert Den(x) == (2 * HIDDEN_BIT) * p;
    assert B >= 8 && x.bin < 2 * HIDDEN_BIT;
    var K := Pow(2, B - 3);
    hide *;
    BelowDenominator(x.bin, p);
    BelowOne(x.bin, K, Q, p);
    StartBelowWide(B, x, Q * p);
    SixteenMoves(Q, p);
  }

  lemma StartBelowWide(B: nat, x: Finite, G: nat)
    requires IsWidth(B) && IsFinite(x) && x.exp < 0 && (x.bin * 2048) * Pow(2, B - 3) == G * BIN_MODULUS
    ensures Wide(Start(B, x)) == 16 * G
  {
    ElevenBits(x.bin);
    CutExact(B, x.bin * 2048, G);
  }

  lemma BelowDenominator(bin: nat, p: nat)
    requires p > 0 && bin < 2 * HIDDEN_BIT
    ensures bin % ((2 * HIDDEN_BIT) * p) == bin
  {
    MulMonotone(1, p, 2 * HIDDEN_BIT);
    DivModUnique(bin, (2 * HIDDEN_BIT) * p, 0, bin);
  }

  lemma SixteenMoves(Q: nat, p: nat)
    ensures (Q * 1) * (16 * p) == 16 * (Q * p)
  {
  }

  lemma RemainderOfExact(n: nat, d: nat, V: nat, K: nat)
    requires d > 0 && K > 0 && n * K == V * d
    ensures (n % d) * K == (V % K) * d
  {
    DivScale(n, d, K);
    DivScale(V, K, d);
    assert d * K == K * d;
  }

  lemma ScaledRemainder(f: nat, K: nat, Q: nat, d: nat, p: nat)
    requires f * K == Q * d && d * p == BIN_MODULUS
    ensures (f * p) * K == Q * BIN_MODULUS
  {
    calc {
      (f * p) * K;
      (f * K) * p;
      (Q * d) * p;
      Q * (d * p);
    }
  }

  lemma BelowOne(bin: nat, K: nat, Q: nat, p: nat)
    requires bin * K == Q * ((2 * HIDDEN_BIT) * p)
    ensures (bin * 2048) * K == (Q * p) * BIN_MODULUS
  {
    assert (bin * 2048) * K == 2048 * (bin * K);
    assert Q * ((2 * HIDDEN_BIT) * p) == (2 * HIDDEN_BIT) * (Q * p);
  }

  /** The cut of bits that are worth G / 2^(B-3) of the full 64 leaves W = 16 G. */
  lemma CutExact(B: nat, bits: nat, G: nat)
    requires IsWidth(B) && bits * Pow(2, B - 3) == G * BIN_MODULUS
    ensures B < BIN_BITS ==>
            2 * (bits / Pow(2, BIN_BITS - B)) + bits / Pow(2, BIN_BITS - B - 1) % 2 == 16 * G
    ensures B >= BIN_BITS ==> 2 * (bits * Pow(2, B - BIN_BITS)) == 16 * G
  {
    BitConstants();
    var K := Pow(2, B - 3);
    if B < BIN_BITS {
      var p := Pow(2, BIN_BITS - B - 1);
      PowAdd(2, BIN_BITS - B - 1, B - 3);
      assert Pow(2, 60) * 16 == BIN_MODULUS by { PowAdd(2, 60, 4); assert Pow(2, 4) == 16; }
      CancelCut(bits, K, G, p);
      DivModUnique(bits, p, 16 * G, 0);
      DivDiv(bits, p, 2);
      assert Pow(2, BIN_BITS - B) == 2 * p;
    } else {
      PowAdd(2, BIN_BITS, B - BIN_BITS);
      UnitPowers(B);
      CancelPad(bits, K, G, Pow(2, B - BIN_BITS));
    }
  }

  lemma CancelCut(bits: nat, K: nat, G: nat, p: nat)
    requires K > 0 && bits * K == G * BIN_MODULUS && 16 * (p * K) == BIN_MODULUS
    ensures bits == (16 * G) * p
  {
    assert ((16 * G) * p) * K == G * (16 * (p * K));
    MulCancel(bits, (16 * G) * p, K);
  }

  lemma CancelPad(bits: nat, K: nat, G: nat, p: nat)
    requires K > 0 && bits * K == G * BIN_MODULUS && BIN_MODULUS * p == 8 * K
    ensures bits * p == 8 * G
  {
    assert (bits * p) * K == (bits * K) * p == (G * BIN_MODULUS) * p == G * (BIN_MODULUS * p);
    assert G * (8 * K) == (8 * G) * K;
    MulCancel(bits * p, 8 * G, K);
  }

  /** An exact fraction with its first digit ready: ten times the mantissa per place, over 2^(B-3). */
  lemma ReadyMantissa(s: Scaled, Q: nat)
    requires s.exp == 4 && s.digit && s.carry <= 1 && IsExactly(s, Q)
    ensures s.carry == 0 && s.man == 5 * (Q * Pow(10, s.zeros))
  {
    assert Pow(2, 0) == 1;
    TenMoves(Q, Pow(10, s.zeros), 1);
    TenEven(s.man, s.carry, Q * Pow(10, s.zeros));
  }

  lemma TenEven(man: nat, carry: nat, a: nat)
    requires carry <= 1 && 2 * man + carry == 10 * (a * 1)
    ensures carry == 0 && man == 5 * a
  {
  }

  /** An exact fraction that ran out of places: what is left is the mantissa itself. */
  lemma StoppedMantissa(B: nat, s: Scaled, Q: nat, ten: nat)
    requires IsWidth(B) && IsState(B, s) && s.exp <= 0 && !s.digit && IsExactly(s, Q)
    requires ten == Pow(10, s.zeros)
    ensures s.carry == 0 && Q * ten < 2 * Unit(B) && s.man >= Q * ten
    ensures s.exp == 0 ==> s.man == 8 * (Q * ten)
    ensures s.exp < 0 ==> Q * ten < Unit(B)
  {
    var p := Pow(2, -s.exp);
    PowAdd(2, 4, -s.exp);
    assert Pow(2, 4) == 16;
    if s.exp < 0 { assert p == 2 * Pow(2, -s.exp - 1); } else { assert p == 1; }
    hide Pow;
    SixteenTimes(Q * ten, p);
  }

  lemma SixteenTimes(q: nat, p: nat)
    requires p > 0
    ensures q * (16 * p) == 16 * (q * p) && q * p >= q
    ensures p == 1 ==> q * p == q
    ensures p >= 2 ==> q * p >= 2 * q
  {
    MulMonotone(1, p, q);
    if p >= 2 { MulMonotone(2, p, q); }
  }
}
