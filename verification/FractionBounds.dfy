/** Every finite input: the first digit is never 0 and never 10, and the zeros before it are few. */
module FractionBounds {
  import opened Arithmetic
  import opened Doubles
  import opened FractionPart

  /**
   * A mantissa worth a digit. Before the first digit is prepared it is above the threshold or its
   * next fivefold will have the top bit set; after that it stays ahead of the halvings still due.
   */
  predicate Awake(B: nat, s: Scaled)
    requires IsWidth(B)
  {
    var u := Unit(B);
    if !s.digit then s.man > Threshold(B) || 5 * s.man + 3 * s.carry >= 8 * u
    else
      && (s.exp == 1 ==> s.man >= 8 * u)
      && (s.exp == 2 ==> s.man >= 4 * u)
      && (s.exp == 3 ==> s.man >= 2 * u)
      && (s.exp == 4 ==> s.man >= u)
  }

  /** A subnormal starts small, but has at least doubled with every step since the first. */
  predicate Waking(s: Scaled) {
    !s.digit && s.exp >= -1021 && Wide(s) >= Pow(2, s.exp + 1021)
  }

  lemma StepAwake(B: nat, s: Scaled)
    requires IsWidth(B) && IsState(B, s) && s.exp < 4 && Awake(B, s)
    ensures Awake(B, Step(B, s))
  {
    StepIsWide(B, s);
    ThresholdFits(B);
  }

  /** The doubling outgrows B bits within B steps, long before the binary exponent reaches zero. */
  lemma WakingIsEarly(B: nat, s: Scaled)
    requires IsWidth(B) && IsState(B, s) && Waking(s)
    ensures s.exp + 1021 <= B
    ensures !Awake(B, s) ==> s.exp + 1021 < B && s.exp < 0
  {
    UnitPowers(B);
    if s.exp + 1021 >= B + 1 { PowMonotone(2, B + 1, s.exp + 1021); }
    if s.exp + 1021 >= B { PowMonotone(2, B, s.exp + 1021); }
    assert Pow(2, B + 1) == 2 * Pow(2, B);
  }

  lemma StepWaking(B: nat, s: Scaled)
    requires IsWidth(B) && IsState(B, s) && Waking(s) && !Awake(B, s)
    ensures s.exp < 0 && s.man <= Threshold(B) && Waking(Step(B, s)) && Step(B, s).zeros == s.zeros + 1
  {
    WakingIsEarly(B, s);
    StepIsWide(B, s);
    assert Pow(2, s.exp + 1022) == 2 * Pow(2, s.exp + 1021);
  }

  lemma {:induction false} ScaleAwake(B: nat, s: Scaled, room: int)
    requires IsWidth(B) && IsState(B, s) && (Awake(B, s) || Waking(s))
    ensures IsState(B, Scale(B, s, room))
    ensures Awake(B, Scale(B, s, room)) || Waking(Scale(B, s, room))
    ensures var r := Scale(B, s, room); r.exp == 4 && r.digit ==> Unit(B) <= r.man + r.carry < 10 * Unit(B)
    decreases 4 - s.exp
  {
    if s.zeros < room && s.exp < 4 {
      StepIsWide(B, s);
      if Awake(B, s) { StepAwake(B, s); } else { StepWaking(B, s); }
      ScaleAwake(B, Step(B, s), room);
    }
  }

  lemma StartAwake(B: nat, x: Finite)
    requires IsWidth(B) && IsFinite(x) && x.exp < 0
    requires Start(B, x).man != 0 || Start(B, x).carry != 0
    ensures Awake(B, Start(B, x)) || Waking(Start(B, x))
  {
    StartFits(B, x);
    ThresholdFits(B);
  }

  /**
   * Between two multiplications there are at least two halvings, so at most a third of the steps
   * multiply, once the mantissa is awake; waking up costs at most one multiplication per bit.
   */
  lemma {:induction false} ScaleTens(B: nat, s: Scaled, room: int)
    requires IsWidth(B) && IsState(B, s) && (Awake(B, s) || Waking(s))
    ensures var spare := if !Awake(B, s) || s.man < 4 * Unit(B) then 2 else if s.man < 8 * Unit(B) then 1 else 0;
            3 * (Tens(Scale(B, s, room)) - Tens(s)) <=
            (4 - s.exp) + spare + if Awake(B, s) then 0 else 2 * (B - (s.exp + 1021))
    decreases 4 - s.exp
  {
    if Waking(s) { WakingIsEarly(B, s); }
    if s.zeros < room && s.exp < 4 {
      StepIsWide(B, s);
      ThresholdFits(B);
      if Awake(B, s) {
        StepAwake(B, s);
        ScaleTens(B, Step(B, s), room);
      } else {
        StepWaking(B, s);
        WakingIsEarly(B, Step(B, s));
        ScaleTens(B, Step(B, s), room);
      }
    }
  }

  /**
   * The first digit of a number below 1 is 1 to 9 for every finite input and every width, unless
   * the cut left nothing at all; and it is at most 683 places after the point.
   */
  lemma FirstDigit(B: nat, x: Finite, room: int)
    requires IsWidth(B) && IsFinite(x) && x.exp < 0 && room > 0
    requires Start(B, x).man != 0 || Start(B, x).carry != 0
    ensures var r := Scale(B, Start(B, x), room);
            && (r.exp == 4 ==> 1 <= (r.man + r.carry) / Unit(B) <= 9)
            && r.zeros <= 683
            && (room > 683 ==> r.exp == 4)
  {
    var s := Start(B, x);
    StartFits(B, x);
    StartAwake(B, x);
    ScaleFits(B, s, room);
    ScaleStops(B, s, room);
    ScaleAwake(B, s, room);
    ScaleTens(B, s, room);
    var r := Scale(B, s, room);
    hide Scale, Start, Awake, Waking, Pow, Unit;
    if r.exp == 4 { LeadingFour(r.man + r.carry, Unit(B)); }
  }

  lemma LeadingFour(m: nat, u: nat)
    requires u > 0 && u <= m < 10 * u
    ensures 1 <= m / u <= 9
  {
    DivModEquation(m, u);
    MulCancelLess(m / u, 10, u);
    MulCancelLess(0, m / u, u);
  }
}
