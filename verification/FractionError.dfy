/**
 * The error of the fraction scaling, exact input or not: from every start worth a digit each step
 * moves the pair by a relative 3 / 2^B at most, downwards when it halves and upwards when it
 * multiplies a carry.
 */
module FractionError {
  import opened Arithmetic
  import opened Doubles
  import opened FractionPart
  import opened FractionBounds

  /** 2^B, the modulus of the conversion integer. */
  function Modulus(B: nat): (m: nat)
    requires IsWidth(B)
    ensures m >= 256
  {
    16 * Unit(B)
  }

  /** With t multiplications in n steps, the exact result is w * 10^t / 2^n; the scaled one is r. */
  ghost predicate IsAbove(m: nat, w: nat, t: nat, r: nat, n: nat, e: nat)
    requires m >= 3
  {
    (w * Pow(10, t)) * Pow(m - 3, e) <= (r * Pow(2, n)) * Pow(m, e)
  }

  ghost predicate IsBelow(m: nat, w: nat, t: nat, r: nat, n: nat, e: nat) {
    (r * Pow(2, n)) * Pow(m, e) <= (w * Pow(10, t)) * Pow(m + 3, e)
  }

  // ---------------------------------------------------------------------------------------------
  // One step more in front.

  lemma Shrink(w: nat, w': nat, m: nat, c: nat, a: nat, p: nat, r: nat)
    requires m >= 3 && w * (m - 3) <= (2 * w') * m && (w' * c) * a <= r * p
    ensures (w * c) * ((m - 3) * a) <= (2 * r) * (m * p)
  {
    calc {
      (w * c) * ((m - 3) * a);
      { MulShuffle(w, c, m - 3, a); }
      (w * (m - 3)) * (c * a);
    }
    MulMonotone(w * (m - 3), (2 * w') * m, c * a);
    calc {
      ((2 * w') * m) * (c * a);
      { Rearrange(w', m, c, a); }
      (2 * m) * ((w' * c) * a);
    }
    MulMonotone((w' * c) * a, r * p, 2 * m);
    Rearrange'(r, m, p);
  }

  lemma Rearrange(w: nat, m: nat, c: nat, a: nat)
    ensures ((2 * w) * m) * (c * a) == (2 * m) * ((w * c) * a)
  {
    assert (2 * w) * m == (2 * m) * w;
    MulAssoc(2 * m, w, c * a);
    MulAssoc(w, c, a);
  }

  lemma Rearrange'(r: nat, m: nat, p: nat)
    ensures (r * p) * (2 * m) == (2 * r) * (m * p)
  {
    assert (2 * r) * (m * p) == 2 * (r * (m * p));
    assert r * (m * p) == (r * p) * m;
  }

  /** A halving of a wide enough pair. */
  lemma HalveAbove(m: nat, w: nat, w': nat, t: nat, r: nat, n: nat, e: nat)
    requires m >= 3 && n >= 1 && e >= 1 && w <= 2 * w' + 1 && m <= 3 * w
    requires IsAbove(m, w', t, r, n - 1, e - 1)
    ensures IsAbove(m, w, t, r, n, e)
  {
    var a, p, R := Pow(m - 3, e - 1), Pow(m, e - 1), r * Pow(2, n - 1);
    assert Pow(m - 3, e) == (m - 3) * a && Pow(m, e) == m * p && Pow(2, n) == 2 * Pow(2, n - 1);
    assert r * Pow(2, n) == 2 * R;
    var c := Pow(10, t);
    hide *;
    HalfLoss(w, w', m);
    Shrink(w, w', m, c, a, p, R);
  }

  lemma HalfLoss(w: nat, w': nat, m: nat)
    requires m >= 3 && w <= 2 * w' + 1 && m <= 3 * w
    ensures w * (m - 3) <= (2 * w') * m
  {
    assert w * (m - 3) == w * m - 3 * w;
    MulMonotone(w - 1, 2 * w', m);
    assert (w - 1) * m == w * m - m;
  }

  /** A multiplication loses nothing, so the step's allowance is left over. */
  lemma FiveAbove(m: nat, w: nat, w': nat, t: nat, r: nat, n: nat, e: nat)
    requires m >= 3 && n >= 1 && t >= 1 && 5 * w <= w'
    requires IsAbove(m, w', t - 1, r, n - 1, e)
    ensures IsAbove(m, w, t, r, n, e)
  {
    var a, p, R := Pow(m - 3, e), Pow(m, e), r * Pow(2, n - 1);
    assert Pow(10, t) == 10 * Pow(10, t - 1) && Pow(2, n) == 2 * Pow(2, n - 1);
    assert r * Pow(2, n) == 2 * R;
    var c := Pow(10, t - 1);
    hide *;
    FiveMoves(w, w', c, a, R * p);
    assert (2 * R) * p == 2 * (R * p);
  }

  lemma FiveMoves(w: nat, w': nat, c: nat, a: nat, bound: nat)
    requires 5 * w <= w' && (w' * c) * a <= bound
    ensures (w * (10 * c)) * a <= 2 * bound
  {
    MulMonotone(5 * w, w', c * a);
    assert (w * (10 * c)) * a == 2 * ((5 * w) * (c * a)) by {
      assert w * (10 * c) == 2 * ((5 * w) * c);
      MulAssoc(5 * w, c, a);
    }
    MulAssoc(w', c, a);
  }

  lemma Allowance(m: nat, w: nat, t: nat, r: nat, n: nat, e: nat)
    requires m >= 3 && IsAbove(m, w, t, r, n, e)
    ensures IsAbove(m, w, t, r, n, e + 1)
  {
    var a, p := Pow(m - 3, e), Pow(m, e);
    assert Pow(m - 3, e + 1) == (m - 3) * a && Pow(m, e + 1) == m * p;
    var x, y := w * Pow(10, t), r * Pow(2, n);
    hide *;
    Loosen(x, y, a, p, m);
  }

  lemma Loosen(x: nat, y: nat, a: nat, p: nat, m: nat)
    requires m >= 3 && x * a <= y * p
    ensures x * ((m - 3) * a) <= y * (m * p)
  {
    MulShuffleIn(x, m - 3, a);
    MulShuffleIn(y, m, p);
    MulMonotone(x * a, y * p, m - 3);
    MulMonotone(m - 3, m, y * p);
    hide *;
    assert (y * p) * (m - 3) == (m - 3) * (y * p) && m * (y * p) == (y * p) * m;
  }

  lemma MulShuffleIn(x: int, m: int, a: int)
    ensures x * (m * a) == (x * a) * m
  {
  }

  /** The last halving, from at least a quarter of the range, with one allowance to spare. */
  lemma LastHalving(m: nat, w: nat, w': nat)
    requires m >= 256 && w <= 2 * w' + 1 && m <= 4 * w
    ensures IsAbove(m, w, 0, w', 1, 2)
  {
    assert Pow(10, 0) == 1 && Pow(2, 1) == 2;
    assert Pow(m, 2) == m * m by { assert Pow(m, 2) == m * Pow(m, 1) == m * (m * Pow(m, 0)); }
    assert Pow(m - 3, 2) == (m - 3) * (m - 3) by { assert Pow(m - 3, 2) == (m - 3) * Pow(m - 3, 1); }
    hide Pow;
    QuarterLoss(w, w', m);
  }

  lemma QuarterLoss(w: nat, w': nat, m: nat)
    requires m >= 256 && w <= 2 * w' + 1 && m <= 4 * w
    ensures (w * 1) * ((m - 3) * (m - 3)) <= (w' * 2) * (m * m)
  {
    assert (m - 3) * (m - 3) == m * m - 6 * m + 9;
    assert w * (m * m - 6 * m + 9) == w * (m * m) - w * (6 * m - 9) by { Distribute(w, m * m, 6 * m - 9); }
    MulMonotone(w - 1, 2 * w', m * m);
    assert (w - 1) * (m * m) == w * (m * m) - m * m;
    MulMonotone(m, 4 * w, 6 * m - 9);
    assert (4 * w) * (6 * m - 9) == 4 * (w * (6 * m - 9));
    MulMonotone(4 * m, 6 * m - 9, m);
    assert m * (6 * m - 9) == (6 * m - 9) * m && (4 * m) * m == 4 * (m * m);
  }

  lemma Distribute(w: int, a: int, b: int)
    ensures w * (a - b) == w * a - w * b
  {
  }

  lemma HalveBelow(m: nat, w: nat, w': nat, t: nat, r: nat, n: nat)
    requires n >= 1 && 2 * w' <= w
    requires IsBelow(m, w', t, r, n - 1, n - 1)
    ensures IsBelow(m, w, t, r, n, n)
  {
    var a, p, R := Pow(m + 3, n - 1), Pow(m, n - 1), r * Pow(2, n - 1);
    assert Pow(m + 3, n) == (m + 3) * a && Pow(m, n) == m * p && Pow(2, n) == 2 * Pow(2, n - 1);
    assert r * Pow(2, n) == 2 * R;
    var c := Pow(10, t);
    hide *;
    MulMonotone(2 * w', w, m + 3);
    MulMonotone(m, m + 3, 2 * w');
    assert (2 * w') * m == m * (2 * w');
    Grow(w, w', m, c, a, p, R);
  }

  lemma FiveBelow(m: nat, w: nat, w': nat, t: nat, r: nat, n: nat)
    requires n >= 1 && t >= 1 && (2 * w') * m <= (10 * w) * (m + 3)
    requires IsBelow(m, w', t - 1, r, n - 1, n - 1)
    ensures IsBelow(m, w, t, r, n, n)
  {
    var a, p, R := Pow(m + 3, n - 1), Pow(m, n - 1), r * Pow(2, n - 1);
    assert Pow(m + 3, n) == (m + 3) * a && Pow(m, n) == m * p && Pow(2, n) == 2 * Pow(2, n - 1);
    assert r * Pow(2, n) == 2 * R && Pow(10, t) == 10 * Pow(10, t - 1);
    var c := Pow(10, t - 1);
    hide *;
    Grow(10 * w, w', m, c, a, p, R);
    TenMovesIn(w, c);
  }

  /** What a carry adds to a multiplication stays within its allowance exactly from m / 15 on. */
  lemma FiveGain(m: nat, w: nat, carry: nat)
    requires carry <= 1 && m > 0
    ensures (2 * (5 * w + carry)) * m <= (10 * w) * (m + 3) <==> carry == 0 || m <= 15 * w
    ensures (2 * (5 * w + carry)) * m <= (10 * (w + carry)) * (m + 3)
  {
    assert (10 * w) * (m + 3) == (10 * w) * m + 30 * w;
    assert (10 * (w + 1)) * (m + 3) == (10 * w) * m + 10 * m + 30 * (w + 1);
    if carry == 1 { assert (2 * (5 * w + carry)) * m == (10 * w) * m + 2 * m; }
  }

  lemma TenMovesIn(w: nat, c: nat)
    ensures (10 * w) * c == w * (10 * c)
  {
  }

  lemma Grow(w: nat, w': nat, m: nat, c: nat, a: nat, p: nat, r: nat)
    requires (2 * w') * m <= w * (m + 3) && r * p <= (w' * c) * a
    ensures (2 * r) * (m * p) <= (w * c) * ((m + 3) * a)
  {
    Rearrange'(r, m, p);
    MulMonotone(r * p, (w' * c) * a, 2 * m);
    Rearrange(w', m, c, a);
    MulMonotone((2 * w') * m, w * (m + 3), c * a);
    MulShuffle(w, c, m + 3, a);
  }

  // ---------------------------------------------------------------------------------------------
  // Whole runs.

  /** How wide an awake pair is: enough for its halving to cost less than three parts in 2^B. */
  lemma AwakeIsWide(B: nat, s: Scaled)
    requires IsWidth(B) && IsState(B, s) && s.exp < 4 && Awake(B, s)
    ensures s.man > Threshold(B) || (s.digit && s.exp < 3) ==> Modulus(B) <= 3 * Wide(s)
    ensures s.digit && s.exp == 3 ==> Modulus(B) <= 4 * Wide(s)
    ensures s.man <= Threshold(B) && !s.digit && s.carry != 0 ==> Modulus(B) <= 5 * Wide(s) + 1
  {
    ThresholdFits(B);
  }

  /** The lower bound; once the first digit is prepared it has the allowance of that step to spare. */
  lemma {:induction false} ScaleAbove(B: nat, s: Scaled, room: int)
    requires IsWidth(B) && IsState(B, s) && (Awake(B, s) || Waking(s))
    ensures var r := Scale(B, s, room);
            var n := r.exp - s.exp;
            && n >= 0 && Tens(r) >= Tens(s)
            && IsAbove(Modulus(B), Wide(s), Tens(r) - Tens(s), Wide(r), n, n + if s.digit then 1 else 0)
    decreases 4 - s.exp
  {
    var r, m := Scale(B, s, room), Modulus(B);
    if s.zeros < room && s.exp < 4 {
      var s' := Step(B, s);
      StepIsWide(B, s);
      if Awake(B, s) {
        StepAwake(B, s);
        AwakeIsWide(B, s);
      } else {
        StepWaking(B, s);
      }
      ScaleAbove(B, s', room);
      var n, t, w, w', wr := r.exp - s.exp, Tens(r) - Tens(s), Wide(s), Wide(s'), Wide(r);
      if s.digit && s.exp == 3 {
        assert s'.exp == 4 && r == s';
        hide *;
        LastHalving(m, w, w');
      } else if s.digit || s.man > Threshold(B) {
        hide *;
        HalveAbove(m, w, w', t, wr, n, n + if s.digit then 1 else 0);
      } else {
        hide *;
        FiveAbove(m, w, w', t, wr, n, n - 1 + if s'.digit then 1 else 0);
        if !s'.digit { Allowance(m, w, t, wr, n, n - 1); }
      }
    } else {
      assert r == s;
      hide *;
      NoSteps(m, Wide(s));
      if s.digit { Allowance(m, Wide(s), 0, Wide(s), 0, 0); }
    }
  }

  lemma NoSteps(m: nat, w: nat)
    requires m >= 3
    ensures IsAbove(m, w, 0, w, 0, 0) && IsBelow(m, w, 0, w, 0, 0)
  {
    assert Pow(10, 0) == 1 && Pow(2, 0) == 1 && Pow(m, 0) == 1 && Pow(m - 3, 0) == 1 && Pow(m + 3, 0) == 1;
  }

  /** The multiplication to come, if any, has no carry to add or is wide enough for it. */
  predicate IsSteady(B: nat, s: Scaled)
    requires IsWidth(B)
  {
    s.digit || s.man > Threshold(B) || s.carry == 0 || Modulus(B) <= 15 * Wide(s)
  }

  lemma StepSteady(B: nat, s: Scaled)
    requires IsWidth(B) && IsState(B, s) && s.exp < 4 && (Awake(B, s) || Waking(s))
    ensures IsState(B, Step(B, s)) && (Awake(B, Step(B, s)) || Waking(Step(B, s)))
    ensures IsSteady(B, Step(B, s))
    ensures Awake(B, s) ==> IsSteady(B, s)
  {
    var s' := Step(B, s);
    StepIsWide(B, s);
    if Awake(B, s) {
      StepAwake(B, s);
      AwakeIsWide(B, s);
      if s'.exp < 4 { AwakeIsWide(B, s'); }
    } else {
      StepWaking(B, s);
    }
  }

  /** The upper bound. */
  lemma {:induction false} ScaleBelow(B: nat, s: Scaled, room: int)
    requires IsWidth(B) && IsState(B, s) && (Awake(B, s) || Waking(s)) && IsSteady(B, s)
    ensures var r := Scale(B, s, room);
            var n := r.exp - s.exp;
            n >= 0 && Tens(r) >= Tens(s) && IsBelow(Modulus(B), Wide(s), Tens(r) - Tens(s), Wide(r), n, n)
    decreases 4 - s.exp
  {
    var r, m := Scale(B, s, room), Modulus(B);
    if s.zeros < room && s.exp < 4 {
      var s' := Step(B, s);
      StepIsWide(B, s);
      StepSteady(B, s);
      ScaleBelow(B, s', room);
      var n, t, w, w', wr := r.exp - s.exp, Tens(r) - Tens(s), Wide(s), Wide(s'), Wide(r);
      if s.digit || s.man > Threshold(B) {
        hide *;
        HalveBelow(m, w, w', t, wr, n);
      } else {
        assert s.carry <= 1 && (s.carry == 0 || m <= 15 * w);
        hide *;
        FiveGain(m, w, s.carry);
        FiveBelow(m, w, w', t, wr, n);
      }
    } else {
      assert r == s;
      hide *;
      NoSteps(m, Wide(s));
    }
  }

  // ---------------------------------------------------------------------------------------------
  // Starts of conversions.

  /** After n steps, t of them multiplications, the pair is at least w * 10^t / 2^n * (1 - 3/2^B)^n. */
  ghost predicate ErrsLittleBelow(B: nat, s: Scaled, room: int)
    requires IsWidth(B)
  {
    var r, m := Scale(B, s, room), Modulus(B);
    var n, t := r.exp - s.exp, Tens(r) - Tens(s);
    && n >= 0 && t >= 0
    && (Wide(s) * Pow(10, t)) * Pow(m - 3, n) <= (Wide(r) * Pow(2, n)) * Pow(m, n)
  }

  /** And at most w * 10^t / 2^n * (1 + 3/2^B)^n; w is what the pair is measured against. */
  ghost predicate ErrsLittleAbove(B: nat, s: Scaled, room: int, w: nat)
    requires IsWidth(B)
  {
    var r, m := Scale(B, s, room), Modulus(B);
    var n, t := r.exp - s.exp, Tens(r) - Tens(s);
    && n >= 0 && t >= 0
    && (Wide(r) * Pow(2, n)) * Pow(m, n) <= (w * Pow(10, t)) * Pow(m + 3, n)
  }

  /**
   * Every finite input whose fraction starts awake, every width, any number of places: the pair is
   * the exact W0 * 10^t / 2^n up to factors (1 -+ 3/2^B)^n.
   */
  lemma ScaleError(B: nat, x: Finite, room: int)
    requires IsWidth(B) && IsFinite(x) && x.exp < MAN_BITS && Awake(B, Start(B, x))
    ensures var s := Start(B, x); ErrsLittleBelow(B, s, room) && ErrsLittleAbove(B, s, room, Wide(s))
  {
    var s := Start(B, x);
    StartFits(B, x);
    assert !s.digit && s.exp < 4;
    hide *;
    StepSteady(B, s);
    SteadyBelow(B, s, room);
    AwakeAbove(B, s, room);
  }

  lemma AwakeAbove(B: nat, s: Scaled, room: int)
    requires IsWidth(B) && IsState(B, s) && !s.digit && (Awake(B, s) || Waking(s))
    ensures ErrsLittleBelow(B, s, room)
  {
    ScaleAbove(B, s, room);
    hide Scale, Awake, Waking, IsState, Pow, Tens, Wide;
  }

  /** Every normal value below 1 is such an input. */
  lemma NormalError(B: nat, x: Finite, room: int)
    requires IsWidth(B) && IsFinite(x) && x.exp < 0 && x.bin >= HIDDEN_BIT
    ensures var s := Start(B, x); ErrsLittleBelow(B, s, room) && ErrsLittleAbove(B, s, room, Wide(s))
  {
    StartFits(B, x);
    ThresholdFits(B);
    ScaleError(B, x, room);
  }

  /**
   * Every value below 1, subnormals included, of which the cut leaves anything: the lower bound
   * holds, and so does the upper one against W0 plus its carry.
   */
  lemma BelowOneError(B: nat, x: Finite, room: int)
    requires IsWidth(B) && IsFinite(x) && x.exp < 0 && (Start(B, x).man != 0 || Start(B, x).carry != 0)
    ensures var s := Start(B, x); ErrsLittleBelow(B, s, room) && ErrsLittleAbove(B, s, room, Wide(s) + s.carry)
  {
    var s := Start(B, x);
    StartFits(B, x);
    StartAwake(B, x);
    ScaleAbove(B, s, room);
    AboveWithCarry(B, s, room);
    hide Start, Scale, Awake, IsState, IsFinite, Pow, Unit, Tens, Wide;
  }

  /** Against W0 itself the upper bound holds at every number of places if and only if W0 is steady. */
  lemma SteadyError(B: nat, x: Finite)
    requires IsWidth(B) && IsFinite(x) && x.exp < 0 && (Start(B, x).man != 0 || Start(B, x).carry != 0)
    ensures var s := Start(B, x);
            (forall room: int :: ErrsLittleAbove(B, s, room, Wide(s))) <==> IsSteady(B, s)
  {
    var s := Start(B, x);
    StartFits(B, x);
    StartAwake(B, x);
    StepSteady(B, s);
    if !Awake(B, s) { StepWaking(B, s); }
    hide Start, Scale, Awake, Waking, IsState, IsSteady, IsFinite, Pow, Unit, Tens, Wide, ErrsLittleAbove;
    if IsSteady(B, s) {
      forall room: int ensures ErrsLittleAbove(B, s, room, Wide(s)) { SteadyBelow(B, s, room); }
    } else {
      Unsteady(B, s);
    }
  }

  lemma SteadyBelow(B: nat, s: Scaled, room: int)
    requires IsWidth(B) && IsState(B, s) && !s.digit && (Awake(B, s) || Waking(s)) && IsSteady(B, s)
    ensures ErrsLittleAbove(B, s, room, Wide(s))
  {
    ScaleBelow(B, s, room);
    hide Scale, Awake, Waking, IsState, IsSteady, Pow, Tens, Wide;
  }

  lemma AboveWithCarry(B: nat, s: Scaled, room: int)
    requires IsWidth(B) && IsState(B, s) && s.exp < 4 && !s.digit && (Awake(B, s) || Waking(s))
    ensures ErrsLittleAbove(B, s, room, Wide(s) + s.carry)
  {
    if IsSteady(B, s) {
      ScaleBelow(B, s, room);
      Widen(B, s, room);
    } else if s.zeros < room {
      StepIsWide(B, s);
      StepSteady(B, s);
      ScaleBelow(B, Step(B, s), room);
      var r, m := Scale(B, s, room), Modulus(B);
      var n, t := r.exp - s.exp, Tens(r) - Tens(s);
      assert s.carry == 1 && Wide(Step(B, s)) == 5 * Wide(s) + 1;
      hide Scale, Step, Awake, Waking, IsSteady, IsState, Threshold;
      FiveGain(m, Wide(s), 1);
      FiveBelow(m, Wide(s) + 1, 5 * Wide(s) + 1, t, Wide(r), n);
    } else {
      NoSteps(Modulus(B), Wide(s));
      assert Pow(10, 0) == 1 && Pow(2, 0) == 1 && Pow(Modulus(B), 0) == 1 && Pow(Modulus(B) + 3, 0) == 1;
    }
  }

  lemma Widen(B: nat, s: Scaled, room: int)
    requires IsWidth(B) && ErrsLittleAbove(B, s, room, Wide(s))
    ensures ErrsLittleAbove(B, s, room, Wide(s) + s.carry)
  {
    var r, m := Scale(B, s, room), Modulus(B);
    var n, t := r.exp - s.exp, Tens(r) - Tens(s);
    var w, c, ten, a := Wide(s), s.carry, Pow(10, t), Pow(m + 3, n);
    hide Scale, Pow, Wide, Tens;
    MulMonotone(w, w + c, ten);
    MulMonotone(w * ten, (w + c) * ten, a);
  }

  /** One multiplication of an unsteady start already adds too much. */
  lemma Unsteady(B: nat, s: Scaled)
    requires IsWidth(B) && IsState(B, s) && s.exp < 0 && !IsSteady(B, s)
    ensures !ErrsLittleAbove(B, s, s.zeros + 1, Wide(s))
  {
    var room, m := s.zeros + 1, Modulus(B);
    StepIsWide(B, s);
    assert Scale(B, s, room) == Step(B, s) && Step(B, s).zeros == room;
    assert Pow(10, 1) == 10 && Pow(2, 1) == 2 && Pow(m, 1) == m && Pow(m + 3, 1) == m + 3;
    var w := Wide(s);
    assert s.carry == 1 && m > 15 * w;
    hide Scale, Step, IsSteady, IsState, Threshold, Pow, Wide;
    FiveGain(m, w, 1);
    assert ((5 * w + 1) * 2) * m == (2 * (5 * w + 1)) * m && (w * 10) * (m + 3) == (10 * w) * (m + 3);
  }

  /**
   * A fraction behind an integer part that does not start above the threshold is multiplied once
   * and halved three times: exactly floor((5 * W0 + carry) / 8), however little that leaves.
   */
  lemma BehindInteger(B: nat, x: Finite, room: int)
    requires IsWidth(B) && IsFinite(x) && 0 <= x.exp < MAN_BITS && room > 0
    requires Start(B, x).man <= Threshold(B)
    ensures var s := Start(B, x);
            var r := Scale(B, s, room);
            Wide(r) == (5 * Wide(s) + s.carry) / 8 && r.exp - s.exp == 4 && Tens(r) - Tens(s) == 1
  {
    var s := Start(B, x);
    StartFits(B, x);
    hide Start, Pow;
    StepIsWide(B, s);
    var s1 := Step(B, s);
    StepIsWide(B, s1);
    var s2 := Step(B, s1);
    StepIsWide(B, s2);
    var s3 := Step(B, s2);
    StepIsWide(B, s3);
    assert Scale(B, s, room) == Scale(B, s1, room) == Scale(B, s2, room) == Scale(B, s3, room) == Step(B, s3);
  }

  /** What the three halvings drop of the fivefold start. */
  function Dropped(s: Scaled): nat { (5 * Wide(s) + s.carry) % 8 }

  /** It is, less the carry, within what four steps may lose; and the carry within what they may add. */
  predicate DropsLittle(s: Scaled, m: nat)
    requires m >= 3
  {
    (Dropped(s) - s.carry) * Pow(m, 4) <= (5 * Wide(s)) * (Pow(m, 4) - Pow(m - 3, 4))
  }

  predicate AddsLittle(s: Scaled, m: nat) {
    (s.carry - Dropped(s)) * Pow(m, 4) <= (5 * Wide(s)) * (Pow(m + 3, 4) - Pow(m, 4))
  }

  /** So each bound of ScaleError holds of it at every number of places if and only if that is so. */
  lemma BehindIntegerError(B: nat, x: Finite)
    requires IsWidth(B) && IsFinite(x) && 0 <= x.exp < MAN_BITS && Start(B, x).man <= Threshold(B)
    ensures var s := Start(B, x);
            && ((forall room: int :: ErrsLittleBelow(B, s, room)) <==> DropsLittle(s, Modulus(B)))
            && ((forall room: int :: ErrsLittleAbove(B, s, room, Wide(s))) <==> AddsLittle(s, Modulus(B)))
  {
    var s := Start(B, x);
    assert -1022 <= x.exp;
    hide *;
    forall room: int
      ensures ErrsLittleBelow(B, s, room) <==> room <= 0 || DropsLittle(s, Modulus(B))
      ensures ErrsLittleAbove(B, s, room, Wide(s)) <==> room <= 0 || AddsLittle(s, Modulus(B))
    {
      ErrorBehindInteger(B, x, room);
    }
    assert ErrsLittleBelow(B, s, 1) <==> DropsLittle(s, Modulus(B));
    assert ErrsLittleAbove(B, s, 1, Wide(s)) <==> AddsLittle(s, Modulus(B));
  }

  lemma ErrorBehindInteger(B: nat, x: Finite, room: int)
    requires IsWidth(B) && IsFinite(x) && 0 <= x.exp < MAN_BITS && Start(B, x).man <= Threshold(B)
    ensures var s := Start(B, x);
            && (ErrsLittleBelow(B, s, room) <==> room <= 0 || DropsLittle(s, Modulus(B)))
            && (ErrsLittleAbove(B, s, room, Wide(s)) <==> room <= 0 || AddsLittle(s, Modulus(B)))
  {
    assert Start(B, x).zeros == 0;
    hide *;
    if room > 0 {
      BehindInteger(B, x, room);
      FourSteps(B, Start(B, x), room);
    } else {
      NoRoomNoError(B, Start(B, x), room);
    }
  }

  lemma NoRoomNoError(B: nat, s: Scaled, room: int)
    requires IsWidth(B) && s.zeros >= room
    ensures ErrsLittleBelow(B, s, room) && ErrsLittleAbove(B, s, room, Wide(s))
  {
    NoSteps(Modulus(B), Wide(s));
    hide Wide, Tens, Modulus;
  }

  lemma FourSteps(B: nat, s: Scaled, room: int)
    requires IsWidth(B)
    requires var r := Scale(B, s, room);
             Wide(r) == (5 * Wide(s) + s.carry) / 8 && r.exp - s.exp == 4 && Tens(r) - Tens(s) == 1
    ensures ErrsLittleBelow(B, s, room) <==> DropsLittle(s, Modulus(B))
    ensures ErrsLittleAbove(B, s, room, Wide(s)) <==> AddsLittle(s, Modulus(B))
  {
    var r, m, w := Scale(B, s, room), Modulus(B), Wide(s);
    assert Pow(2, 4) == 16 && Pow(10, 1) == 10;
    assert Dropped(s) == (5 * w + s.carry) % 8;
    hide Scale, Pow, Wide, Tens, Modulus, Dropped;
    FourStepsBelow(w, s.carry, Wide(r), Dropped(s), Pow(m, 4), Pow(m - 3, 4));
    FourStepsAbove(w, s.carry, Wide(r), Dropped(s), Pow(m, 4), Pow(m + 3, 4));
  }

  lemma FourStepsBelow(w: nat, c: nat, w': nat, l: nat, p: nat, a: nat)
    requires 5 * w + c == 8 * w' + l
    ensures (w * 10) * a <= (w' * 16) * p <==> (l - c) * p <= (5 * w) * (p - a)
  {
    assert w' * 16 == 2 * (5 * w) - 2 * (l - c);
    assert (w' * 16) * p == 2 * ((5 * w) * p) - 2 * ((l - c) * p) by { Subtract(2 * (5 * w), 2 * (l - c), p); }
    assert (5 * w) * (p - a) == (5 * w) * p - (5 * w) * a by { Distribute(5 * w, p, a); }
    assert (w * 10) * a == 2 * ((5 * w) * a);
  }

  lemma FourStepsAbove(w: nat, c: nat, w': nat, l: nat, p: nat, b: nat)
    requires 5 * w + c == 8 * w' + l
    ensures (w' * 16) * p <= (w * 10) * b <==> (c - l) * p <= (5 * w) * (b - p)
  {
    assert w' * 16 == 2 * (5 * w) - 2 * (l - c);
    assert (w' * 16) * p == 2 * ((5 * w) * p) - 2 * ((l - c) * p) by { Subtract(2 * (5 * w), 2 * (l - c), p); }
    assert (5 * w) * (b - p) == (5 * w) * b - (5 * w) * p by { Distribute(5 * w, b, p); }
    assert (w * 10) * b == 2 * ((5 * w) * b);
    assert (c - l) * p == 0 - (l - c) * p;
  }

  lemma Subtract(x: int, y: int, p: int)
    ensures (x - y) * p == x * p - y * p
  {
  }

  /** 1 + 2^-9 with an 8-bit integer: W0 is 1, and nothing of it is left for the first digit. */
  lemma AsleepLosesAll(B: nat, x: Finite)
    requires B == 8 && x == Finite(HIDDEN_BIT + 0x800_0000_0000, 0)
    ensures IsFinite(x) && !Awake(B, Start(B, x)) && Wide(Start(B, x)) == 1
    ensures Wide(Scale(B, Start(B, x), 1)) == 0 && !ErrsLittleBelow(B, Start(B, x), 1)
  {
    AsleepStart(B, x);
    LowestLoses(B, x);
  }

  lemma LowestLoses(B: nat, x: Finite)
    requires IsWidth(B) && IsFinite(x) && x.exp == 0 && Start(B, x) == Scaled(0, 1, 0, false, 0)
    ensures !Awake(B, Start(B, x)) && Wide(Start(B, x)) == 1
    ensures Wide(Scale(B, Start(B, x), 1)) == 0 && !ErrsLittleBelow(B, Start(B, x), 1)
  {
    LowestAsleep(B, Start(B, x));
    hide *;
    BehindInteger(B, x, 1);
    NothingLeft(B, Start(B, x), 1);
  }

  lemma AsleepStart(B: nat, x: Finite)
    requires B == 8 && x == Finite(HIDDEN_BIT + 0x800_0000_0000, 0)
    ensures Start(B, x) == Scaled(0, 1, 0, false, 0)
  {
    PowersOfCut();
    var bits := Shl(x.bin, BIN_BITS - MAN_BITS) % BIN_MODULUS;
    assert bits == 0x80_0000_0000_0000 by { assert Shl(x.bin, BIN_BITS - MAN_BITS) == x.bin * 4096; }
    assert Shr(bits, 56) == 0 && Shr(bits, 55) == 1;
    hide Pow;
  }

  lemma LowestAsleep(B: nat, s: Scaled)
    requires IsWidth(B) && s == Scaled(0, 1, 0, false, 0)
    ensures !Awake(B, s) && s.man <= Threshold(B) && Wide(s) == 1 && s.carry == 1
  {
    ThresholdFits(B);
    hide Unit;
  }

  lemma NothingLeft(B: nat, s: Scaled, room: int)
    requires IsWidth(B) && Wide(s) == 1 && Wide(Scale(B, s, room)) == 0
    ensures !ErrsLittleBelow(B, s, room)
  {
    var r, m := Scale(B, s, room), Modulus(B);
    var n, t := r.exp - s.exp, Tens(r) - Tens(s);
    hide Scale, Pow, Tens, Modulus, Wide;
    if n >= 0 && t >= 0 { SomethingLost(n, t, m); }
  }

  lemma PowersOfCut()
    ensures Pow(2, 4) == 16 && Pow(2, 12) == 4096
    ensures Pow(2, 55) == 0x80_0000_0000_0000 && Pow(2, 56) == 0x100_0000_0000_0000
  {
    assert Pow(2, 4) == 16 && Pow(2, 3) == 8;
    hide *;
    PowAdd(2, 4, 4);
    PowAdd(2, 8, 4);
    BitConstants();
    PowAdd(2, 52, 3);
    PowAdd(2, 52, 4);
  }

  lemma SomethingLost(n: nat, t: nat, m: nat)
    requires m > 3
    ensures (1 * Pow(10, t)) * Pow(m - 3, n) > (0 * Pow(2, n)) * Pow(m, n)
  {
    var a, b := Pow(10, t), Pow(m - 3, n);
    MulPositive(a, b);
  }
}
