/**
 * The integer part of a conversion: the mantissa is cut to B bits plus one carry bit, then its
 * binary exponent is walked down to zero, one doubling or division by five per step, every division
 * paying for one decimal place.
 *
 * A state is read as W = 2 * man + carry, the (B+1)-bit accumulator the pair really is.
 */
module IntegerPart {
  import opened Arithmetic
  import opened Doubles

  datatype Scaled = Scaled(man: nat, carry: nat, tens: nat)

  function Wide(man: nat, carry: nat): nat { 2 * man + carry }

  predicate IsState(B: nat, man: nat, carry: nat)
    requires IsWidth(B)
  {
    man < 16 * Unit(B) && carry <= 1
  }

  function Start(B: nat, x: Finite): Scaled
    requires IsWidth(B) && x.exp >= 0
  {
    var s := MAN_BITS - Min(x.exp, ShiftBits(B));
    if s > 0 then
      var b := Shr(x.bin, s - 1);
      Scaled(b / 2, b % 2, 0)
    else
      Scaled(x.bin, 0, 0)
  }

  /** What one loop step does to the pair and the count of decimal places. */
  function Step(B: nat, s: Scaled): Scaled
    requires IsWidth(B)
  {
    if s.man < 8 * Unit(B) then Scaled(2 * s.man + s.carry, 0, s.tens)
    else Scaled(s.man / 5, (s.man % 5 + s.carry + 1) / 4, s.tens + 1)
  }

  function Scale(B: nat, s: Scaled, steps: nat): Scaled
    requires IsWidth(B)
    decreases steps
  {
    if steps == 0 then s else Scale(B, Step(B, s), steps - 1)
  }

  function Steps(B: nat, x: Finite): (e: int)
    requires IsWidth(B)
    ensures x.exp >= 0 ==> e >= 0
  {
    x.exp - Min(x.exp, ShiftBits(B))
  }

  /** The fraction is converted too: the exponent is small enough, and nothing was walked down. */
  predicate HasFraction(B: nat, x: Finite)
    requires IsWidth(B)
  {
    x.exp < MAN_BITS && Steps(B, x) <= 0
  }

  function Convert(B: nat, x: Finite): Scaled
    requires IsWidth(B)
  {
    if x.exp >= 0 then Scale(B, Start(B, x), Steps(B, x)) else Scaled(0, 0, 0)
  }

  // ---------------------------------------------------------------------------------------------
  // Each step in terms of W: doubling is exact, the division truncates W itself by five.

  lemma StepIsWide(B: nat, s: Scaled)
    requires IsWidth(B) && IsState(B, s.man, s.carry)
    ensures var t := Step(B, s);
            && IsState(B, t.man, t.carry)
            && Wide(t.man, t.carry) ==
               if s.man < 8 * Unit(B) then 2 * Wide(s.man, s.carry) else Wide(s.man, s.carry) / 5
  {
    assert s.man == 5 * (s.man / 5) + s.man % 5;
  }

  lemma StartFits(B: nat, x: Finite)
    requires IsWidth(B) && IsFinite(x) && x.exp >= 0
    ensures IsState(B, Start(B, x).man, Start(B, x).carry)
    ensures Start(B, x).man >= 1
    ensures Steps(B, x) > 0 && B <= MAN_BITS + 1 ==> Start(B, x).man >= 8 * Unit(B)
  {
    var h := Min(x.exp, ShiftBits(B));
    var s := MAN_BITS - h;
    BitConstants();
    UnitPowers(B);
    PowAdd(2, s, h);
    PowMonotone(2, h, B - 1);
    PowMonotone(2, 0, h);
    if s > 0 {
      var p := Pow(2, s - 1);
      assert Pow(2, s) == 2 * p;
      HiddenQuotient(x.bin, HIDDEN_BIT, p, Pow(2, h));
    }
  }

  /** A mantissa with its hidden bit set keeps it in front after dropping low bits. */
  lemma HiddenQuotient(bin: nat, hidden: nat, p: nat, q: nat)
    requires p > 0 && q > 0 && (2 * p) * q == hidden && hidden <= bin < 2 * hidden
    ensures q <= bin / p / 2 < 2 * q
  {
    DivModEquation(bin, p);
    var b := bin / p;
    assert (2 * q) * p == hidden && (4 * q) * p == 2 * hidden;
    if b < 2 * q { MulMonotone(b + 1, 2 * q, p); }
    MulCancelLess(b, 4 * q, p);
  }

  // ---------------------------------------------------------------------------------------------
  // Whole runs.

  lemma {:induction false} ScaleFits(B: nat, s: Scaled, steps: nat)
    requires IsWidth(B) && IsState(B, s.man, s.carry)
    ensures var r := Scale(B, s, steps); IsState(B, r.man, r.carry) && r.tens >= s.tens
    ensures s.man >= 1 ==> Scale(B, s, steps).man >= 1
    decreases steps
  {
    if steps > 0 {
      StepIsWide(B, s);
      ScaleFits(B, Step(B, s), steps - 1);
    }
  }

  /** Without a division in sight the scaling is plain shifting. */
  lemma {:induction false} ScaleExact(B: nat, s: Scaled, steps: nat)
    requires IsWidth(B) && s.carry == 0 && s.man * Pow(2, steps) < 16 * Unit(B)
    ensures Scale(B, s, steps) == Scaled(s.man * Pow(2, steps), 0, s.tens)
    decreases steps
  {
    if steps > 0 {
      var p := Pow(2, steps - 1);
      assert s.man * Pow(2, steps) == 2 * (s.man * p) == (2 * s.man) * p;
      if s.man >= 8 * Unit(B) { MulMonotone(1, p, s.man); }
      ScaleExact(B, Step(B, s), steps - 1);
    }
  }

  /** One side of the error: the scaled value never exceeds the true one. */
  lemma {:induction false} ScaleUpper(B: nat, s: Scaled, steps: nat)
    requires IsWidth(B) && IsState(B, s.man, s.carry)
    ensures Scale(B, s, steps).tens >= s.tens
    ensures var r := Scale(B, s, steps);
            Wide(r.man, r.carry) * Pow(10, r.tens - s.tens) <= Wide(s.man, s.carry) * Pow(2, steps)
    decreases steps
  {
    if steps > 0 {
      var t := Step(B, s);
      var r := Scale(B, t, steps - 1);
      StepIsWide(B, s);
      ScaleUpper(B, t, steps - 1);
      var p := Pow(2, steps - 1);
      var w, w', w'' := Wide(s.man, s.carry), Wide(t.man, t.carry), Wide(r.man, r.carry);
      assert Pow(2, steps) == 2 * p;
      if s.man < 8 * Unit(B) {
        DoubleMoves(w, p);
      } else {
        UpperDivide(w, w', w'', p, Pow(10, r.tens - t.tens));
      }
    }
  }

  lemma UpperDivide(w: nat, w': nat, w'': nat, p: nat, q: nat)
    requires w'' * q <= w' * p && 5 * w' <= w
    ensures w'' * (10 * q) <= w * (2 * p)
  {
    MulMonotone(5 * w', w, 2 * p);
    assert (5 * w') * (2 * p) == 10 * (w' * p);
  }

  /** The other side: each division loses less than four parts in 2^B. */
  lemma {:induction false} ScaleLower(B: nat, s: Scaled, steps: nat)
    requires IsWidth(B) && IsState(B, s.man, s.carry)
    ensures Scale(B, s, steps).tens >= s.tens
    ensures var r, M := Scale(B, s, steps), 16 * Unit(B);
            var k := r.tens - s.tens;
            (Wide(s.man, s.carry) * Pow(2, steps)) * Pow(M - 4, k) <= (Wide(r.man, r.carry) * Pow(10, k)) * Pow(M, k)
    decreases steps
  {
    if steps > 0 {
      var t := Step(B, s);
      var r := Scale(B, t, steps - 1);
      StepIsWide(B, s);
      ScaleLower(B, t, steps - 1);
      var p, M := Pow(2, steps - 1), 16 * Unit(B);
      var w, w', w'' := Wide(s.man, s.carry), Wide(t.man, t.carry), Wide(r.man, r.carry);
      assert Pow(2, steps) == 2 * p;
      if s.man < 8 * Unit(B) {
        DoubleMoves(w, p);
      } else {
        var k := r.tens - t.tens;
        LowerDivide(w, w', w'', p, M, Pow(10, k), Pow(M - 4, k), Pow(M, k));
      }
    }
  }

  lemma LowerDivide(w: nat, w': nat, w'': nat, p: nat, M: nat, ten: nat, a: nat, m: nat)
    requires M > 4 && w >= M && w <= 5 * w' + 4
    requires (w' * p) * a <= (w'' * ten) * m
    ensures (w * (2 * p)) * ((M - 4) * a) <= (w'' * (10 * ten)) * (M * m)
  {
    var lhs, rhs := (w' * p) * a, (w'' * ten) * m;
    assert (5 * w') * M >= w * (M - 4) by {
      MulMonotone(w - 4, 5 * w', M);
      assert (w - 4) * M == w * M - 4 * M;
      assert w * (M - 4) == w * M - 4 * w;
    }
    calc {
      (w * (2 * p)) * ((M - 4) * a);
      { MulShuffle(w, 2 * p, M - 4, a); }
      (w * (M - 4)) * ((2 * p) * a);
    }
    MulMonotone(w * (M - 4), (5 * w') * M, (2 * p) * a);
    Regroup(w', M, p, a);
    MulMonotone(lhs, rhs, 10 * M);
    Regroup'(w'', ten, M, m);
  }

  lemma Regroup(w: nat, M: nat, p: nat, a: nat)
    ensures ((5 * w) * M) * ((2 * p) * a) == ((w * p) * a) * (10 * M)
  {
    MulShuffle(5 * w, M, 2 * p, a);
    assert ((5 * w) * (2 * p)) == 10 * (w * p);
    assert (10 * (w * p)) * (M * a) == ((w * p) * (M * a)) * 10;
    assert (w * p) * (M * a) == ((w * p) * a) * M;
  }

  lemma Regroup'(w: nat, ten: nat, M: nat, m: nat)
    ensures ((w * ten) * m) * (10 * M) == (w * (10 * ten)) * (M * m)
  {
    assert w * (10 * ten) == 10 * (w * ten);
    assert ((w * ten) * m) * (10 * M) == 10 * (((w * ten) * m) * M);
    assert ((w * ten) * m) * M == (w * ten) * (M * m);
  }

  /** A division leaves room for at least two doublings, so at most a third of the steps divide. */
  lemma {:induction false} ScaleTens(B: nat, s: Scaled, steps: nat)
    requires IsWidth(B) && IsState(B, s.man, s.carry)
    ensures var spare := if s.man >= 8 * Unit(B) then 2 else if s.man >= 4 * Unit(B) then 1 else 0;
            3 * (Scale(B, s, steps).tens - s.tens) <= steps + spare
    decreases steps
  {
    if steps > 0 {
      StepIsWide(B, s);
      ScaleTens(B, Step(B, s), steps - 1);
    }
  }

  // ---------------------------------------------------------------------------------------------
  // The whole integer part.

  lemma ConvertBounds(B: nat, x: Finite)
    requires IsWidth(B) && IsFinite(x)
    ensures var r := Convert(B, x);
            && IsState(B, r.man, r.carry)
            && 3 * r.tens <= 1019
            && (x.exp >= 0 ==> r.man >= 1)
            && (r.tens > 0 ==> x.exp > MAN_BITS || B <= MAN_BITS)
  {
    if x.exp >= 0 {
      StartFits(B, x);
      ScaleFits(B, Start(B, x), Steps(B, x));
      ScaleTens(B, Start(B, x), Steps(B, x));
    }
  }

  /** Below 2^B the integer part is the floor of the value, whatever its fraction, with nothing folded away. */
  lemma ConvertWhole(B: nat, x: Finite)
    requires IsWidth(B) && IsFinite(x) && x.exp < B
    ensures Convert(B, x).man == Num(x) / Den(x) && Convert(B, x).tens == 0
    ensures x.exp < MAN_BITS ==> Steps(B, x) <= 0
    ensures x.exp >= MAN_BITS ==> Convert(B, x).carry == 0 && Den(x) == 1
  {
    if x.exp >= MAN_BITS {
      WholeLarge(B, x);
    } else if x.exp >= 0 {
      WholeMiddle(B, x);
    } else {
      SmallIsZero(x);
    }
  }

  lemma WholeLarge(B: nat, x: Finite)
    requires IsWidth(B) && IsFinite(x) && MAN_BITS <= x.exp < B
    ensures Convert(B, x) == Scaled(Num(x), 0, 0)
  {
    var e := x.exp - MAN_BITS;
    ExactBelow(B, x);
    UnitPowers(B);
    assert Num(x) == x.bin * Pow(2, e) by { if e == 0 { assert Pow(2, 0) == 1; } }
    assert Start(B, x) == Scaled(x.bin, 0, 0);
    ScaleExact(B, Start(B, x), e);
  }

  lemma WholeMiddle(B: nat, x: Finite)
    requires IsWidth(B) && IsFinite(x) && 0 <= x.exp < MAN_BITS && x.exp < B
    ensures Steps(B, x) == 0 && Convert(B, x).man == x.bin / Pow(2, MAN_BITS - x.exp) && Convert(B, x).tens == 0
  {
    var s := MAN_BITS - x.exp;
    assert Pow(2, s) == 2 * Pow(2, s - 1);
    hide Pow;
    DivDiv(x.bin, Pow(2, s - 1), 2);
  }

  lemma SmallIsZero(x: Finite)
    requires IsFinite(x) && x.exp < 0
    ensures Num(x) / Den(x) == 0
  {
    BitConstants();
    PowMonotone(2, MAN_BITS + 1, MAN_BITS - x.exp);
    assert Pow(2, MAN_BITS + 1) == 2 * HIDDEN_BIT;
    DivModUnique(Num(x), Den(x), 0, x.bin);
  }

  /** On the exact domain the integer part is that of the value in units of 2^-(B-3). */
  lemma ConvertExact(B: nat, x: Finite, V: nat)
    requires IsWidth(B) && IsFinite(x) && IsExact(B, x, V)
    ensures Convert(B, x).man == V / Pow(2, B - 3) == Num(x) / Den(x)
    ensures Convert(B, x).tens == 0
    ensures x.exp < MAN_BITS ==> Steps(B, x) <= 0
    ensures x.exp >= MAN_BITS ==> Convert(B, x).carry == 0 && V % Pow(2, B - 3) == 0
  {
    var K := Pow(2, B - 3);
    ExactHasBits(B, x, V);
    ConvertWhole(B, x);
    FloorOfExact(Num(x), Den(x), V, K);
    if x.exp >= MAN_BITS {
      assert V == Num(x) * K;
      DivModUnique(V, K, Num(x), 0);
    }
  }

  lemma FloorOfExact(n: nat, d: nat, V: nat, K: nat)
    requires d > 0 && K > 0 && n * K == V * d
    ensures V / K == n / d
  {
    DivScale(n, d, K);
    DivScale(V, K, d);
    assert d * K == K * d;
  }
}
