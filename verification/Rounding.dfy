/** Rounding of a non-negative rational n / d to an integer, halves going to the even neighbour. */
module Rounding {
  import opened Arithmetic

  function RoundHalfEven(n: nat, d: nat): (r: nat)
    requires d > 0
  {
    var q, rem := n / d, n % d;
    if 2 * rem < d || (2 * rem == d && q % 2 == 0) then q else q + 1
  }

  /** |n/d - r| <= 1/2, and at distance exactly 1/2 the integer r is even. */
  ghost predicate IsNearestEven(n: nat, d: nat, r: nat) {
    && 2 * n - d <= 2 * (r * d) <= 2 * n + d
    && (2 * (r * d) == 2 * n + d || 2 * (r * d) == 2 * n - d ==> r % 2 == 0)
  }

  lemma RoundHalfEvenIsNearest(n: nat, d: nat, r: nat)
    requires d > 0
    ensures r == RoundHalfEven(n, d) <==> IsNearestEven(n, d, r)
  {
    var q, rem := n / d, n % d;
    DivModEquation(n, d);
    assert (q + 1) * d == q * d + d;
    if r < q {
      MulMonotone(r + 1, q, d);
      assert (r + 1) * d == r * d + d;
      if r + 1 < q { MulMonotone(r + 2, q, d); assert (r + 2) * d == r * d + 2 * d; }
    } else if r > q + 1 {
      MulMonotone(q + 2, r, d);
      assert (q + 2) * d == q * d + 2 * d;
    }
  }

  /** Rounding from a quotient and remainder over any denominator. */
  lemma RoundFromParts(n: nat, d: nat, q: nat, rem: nat)
    requires 0 <= rem < d && n == q * d + rem
    ensures RoundHalfEven(n, d) == if 2 * rem < d || (2 * rem == d && q % 2 == 0) then q else q + 1
  {
    DivModUnique(n, d, q, rem);
  }

  /** Equal fractions round alike. */
  lemma RoundRatio(n: nat, d: nat, n': nat, d': nat)
    requires d > 0 && d' > 0 && n * d' == n' * d
    ensures RoundHalfEven(n, d) == RoundHalfEven(n', d')
    ensures n / d == n' / d'
    ensures n % d == 0 <==> n' % d' == 0
  {
    DivScale(n, d, d');
    DivScale(n', d', d);
    assert d * d' == d' * d;
    var r, r' := n % d, n' % d';
    assert r * d' == r' * d;
    if r == 0 { assert r' * d == 0; }
    if r' == 0 { assert r * d' == 0; }
    assert (2 * r) * d' == 2 * (r * d') == (2 * r') * d;
    if 2 * r < d && 2 * r' >= d' {
      MulLess(2 * r, d, d');
      MulMonotone(d', 2 * r', d);
    }
    if 2 * r >= d && 2 * r' < d' {
      MulLess(2 * r', d', d);
      MulMonotone(d, 2 * r, d');
    }
    if 2 * r == d { MulCancel(2 * r', d', d); }
    if 2 * r' == d' { MulCancel(2 * r, d, d'); }
  }

  lemma MulLess(a: int, b: int, c: nat)
    requires a < b && c > 0
    ensures a * c < b * c
  {
    MulMonotone(a + 1, b, c);
  }

  /** Rounding never crosses an integer: it stays between the floor and the floor plus one. */
  lemma RoundBounds(n: nat, d: nat)
    requires d > 0
    ensures n / d <= RoundHalfEven(n, d) <= n / d + 1
    ensures n % d == 0 ==> RoundHalfEven(n, d) == n / d
  {
  }

  /** Rounding by the leading digit g of what is dropped, low being everything under that digit. */
  lemma RoundByDigit(n: nat, s: nat, q: nat, guard: nat, low: nat)
    requires guard < 10 && low < s
    requires n == q * (10 * s) + guard * s + low
    ensures RoundHalfEven(n, 10 * s) == if guard > 5 || (guard == 5 && (low != 0 || q % 2 == 1)) then q + 1 else q
    ensures IsEvenHalf(n, 10 * s) <==> guard == 5 && low == 0 && q % 2 == 0
  {
    MulMonotone(guard + 1, 10, s);
    RoundFromParts(n, 10 * s, q, guard * s + low);
    if guard >= 6 { MulMonotone(6, guard, s); } else if guard <= 4 { MulMonotone(guard, 4, s); }
  }

  /** What lies under the leading dropped digit: further digits, then a remainder of the division. */
  lemma LowPart(d: nat, ten: nat, a: nat, below: nat, rem: nat)
    requires below < ten && rem < d
    ensures (a * ten + below) * d + rem == a * (ten * d) + (below * d + rem)
    ensures 0 <= below * d + rem < ten * d
    ensures below * d + rem == 0 <==> below == 0 && rem == 0
  {
    MulAssoc(a, ten, d);
    MulMonotone(below + 1, ten, d);
    if below > 0 { MulPositive(below, d); }
  }

  /**
   * Rounding a run of decimal digits that stops with rem / d still to come: of the digits dropped,
   * the first decides, and a 5 is a tie only when neither the digits under it nor rem hold anything.
   */
  lemma RoundByGuard(n: nat, d: nat, ten: nat, q: nat, guard: nat, below: nat, rem: nat)
    requires guard < 10 && below < ten && rem < d
    requires n == ((q * 10 + guard) * ten + below) * d + rem
    ensures 10 * (ten * d) > 0
    ensures RoundHalfEven(n, 10 * (ten * d)) ==
            if guard > 5 || (guard == 5 && (below != 0 || rem != 0 || q % 2 == 1)) then q + 1 else q
    ensures IsEvenHalf(n, 10 * (ten * d)) <==> guard == 5 && below == 0 && rem == 0 && q % 2 == 0
  {
    LowPart(d, ten, q * 10 + guard, below, rem);
    var s, low := ten * d, below * d + rem;
    DistributeTen(q, guard, s);
    RoundByDigit(n, s, q, guard, low);
  }

  lemma DistributeTen(q: nat, guard: nat, s: nat)
    ensures (q * 10 + guard) * s == q * (10 * s) + guard * s
  {
  }

  /** Rounding n / d to a multiple of 10^-s, as the integer count of those multiples. */
  function RoundAt(n: nat, d: nat, s: int): nat
    requires d > 0
  {
    if s >= 0 then RoundHalfEven(Tenfold(n, s), d) else RoundScaled(n, d, Pow(10, -s))
  }

  function RoundScaled(n: nat, d: nat, k: nat): nat
    requires d > 0 && k > 0
  {
    MulPositive(d, k);
    RoundHalfEven(n, d * k)
  }

  lemma RoundAtRatio(n: nat, d: nat, n': nat, d': nat, s: int)
    requires d > 0 && d' > 0 && n * d' == n' * d
    ensures RoundAt(n, d, s) == RoundAt(n', d', s)
    ensures IsEvenTie(n, d, s) <==> IsEvenTie(n', d', s)
  {
    var k := Pow(10, if s >= 0 then s else -s);
    CrossMultiply(n, d, n', d', k);
    hide RoundHalfEven, IsEvenHalf;
    if s >= 0 {
      RoundRatio(n * k, d, n' * k, d');
      EvenHalfRatio(n * k, d, n' * k, d');
    } else {
      MulPositive(d, k);
      MulPositive(d', k);
      RoundRatio(n, d * k, n', d' * k);
      EvenHalfRatio(n, d * k, n', d' * k);
    }
  }

  lemma CrossMultiply(n: nat, d: nat, n': nat, d': nat, k: nat)
    requires n * d' == n' * d
    ensures (n * k) * d' == (n' * k) * d
    ensures n * (d' * k) == n' * (d * k)
  {
    assert (n * k) * d' == (n * d') * k == (n' * d) * k;
    MulAssoc(n, d', k);
    MulAssoc(n', d, k);
  }

  /** Rounding at s places what is already known at t places. */
  lemma RoundAtShift(n: nat, d: nat, t: nat, drop: nat)
    requires d > 0
    ensures RoundAt(n, d, t - drop) == RoundScaled(n * Pow(10, t), d, Pow(10, drop))
    ensures IsEvenTie(n, d, t - drop) <==> IsEvenHalfScaled(n * Pow(10, t), d, Pow(10, drop))
  {
    hide *;
    var ten, k := Pow(10, t), Pow(10, drop);
    if t >= drop {
      PowAdd(10, t - drop, drop);
      RoundShiftUp(n, d, Pow(10, t - drop), k, ten);
      RoundAtUp(n, d, t - drop);
    } else {
      PowAdd(10, drop - t, t);
      RoundShiftDown(n, d, Pow(10, drop - t), ten, k);
      RoundAtDown(n, d, drop - t);
    }
  }

  lemma RoundAtUp(n: nat, d: nat, s: nat)
    requires d > 0
    ensures RoundAt(n, d, s) == RoundHalfEven(n * Pow(10, s), d)
    ensures IsEvenTie(n, d, s) <==> IsEvenHalf(n * Pow(10, s), d)
  {
  }

  lemma RoundAtDown(n: nat, d: nat, s: nat)
    requires d > 0
    ensures RoundAt(n, d, 0 - s) == RoundScaled(n, d, Pow(10, s))
    ensures IsEvenTie(n, d, 0 - s) <==> IsEvenHalfScaled(n, d, Pow(10, s))
  {
    if s == 0 { assert Pow(10, 0) == 1 && n * 1 == n && d * 1 == d; }
  }

  lemma RoundShiftUp(n: nat, d: nat, a: nat, k: nat, ten: nat)
    requires d > 0 && k > 0 && ten == a * k
    ensures RoundScaled(n * ten, d, k) == RoundHalfEven(n * a, d)
    ensures IsEvenHalfScaled(n * ten, d, k) <==> IsEvenHalf(n * a, d)
  {
    MulPositive(d, k);
    ShiftUp(n, d, a, k);
    hide RoundHalfEven, IsEvenHalf;
    RoundRatio(n * ten, d * k, n * a, d);
    EvenHalfRatio(n * ten, d * k, n * a, d);
  }

  lemma RoundShiftDown(n: nat, d: nat, a: nat, ten: nat, k: nat)
    requires d > 0 && a > 0 && ten > 0 && k == a * ten
    ensures k > 0 && RoundScaled(n * ten, d, k) == RoundScaled(n, d, a)
    ensures IsEvenHalfScaled(n * ten, d, k) <==> IsEvenHalfScaled(n, d, a)
  {
    MulPositive(a, ten);
    MulPositive(d, a);
    MulPositive(d, k);
    ShiftDown(n, d, a, ten);
    hide RoundHalfEven, IsEvenHalf;
    RoundRatio(n * ten, d * k, n, d * a);
    EvenHalfRatio(n * ten, d * k, n, d * a);
  }

  lemma ShiftUp(n: nat, d: nat, a: nat, k: nat)
    ensures (n * (a * k)) * d == (n * a) * (d * k)
  {
    MulAssoc(n, a, k);
    assert ((n * a) * k) * d == (n * a) * (k * d);
  }

  lemma ShiftDown(n: nat, d: nat, a: nat, ten: nat)
    ensures (n * ten) * (d * a) == n * (d * (a * ten))
  {
    assert (n * ten) * (d * a) == n * (ten * (d * a));
    assert ten * (d * a) == d * (a * ten);
  }

  /** n / d at s decimal places lies exactly half way above an even count of them. */
  predicate IsEvenTie(n: nat, d: nat, s: int)
    requires d > 0
  {
    if s >= 0 then IsEvenHalf(Tenfold(n, s), d) else IsEvenHalfScaled(n, d, Pow(10, -s))
  }

  predicate IsEvenHalf(n: nat, d: nat)
    requires d > 0
  {
    2 * (n % d) == d && (n / d) % 2 == 0
  }

  predicate IsEvenHalfScaled(n: nat, d: nat, k: nat)
    requires d > 0 && k > 0
  {
    MulPositive(d, k);
    IsEvenHalf(n, d * k)
  }

  /** A tie above an even quotient is what rounds down where half up would round up. */
  lemma EvenHalfRatio(n: nat, d: nat, n': nat, d': nat)
    requires d > 0 && d' > 0 && n * d' == n' * d
    ensures IsEvenHalf(n, d) <==> IsEvenHalf(n', d')
  {
    if IsEvenHalf(n, d) { EvenHalfCarries(n, d, n', d'); }
    if IsEvenHalf(n', d') { EvenHalfCarries(n', d', n, d); }
  }

  lemma EvenHalfCarries(n: nat, d: nat, n': nat, d': nat)
    requires d > 0 && d' > 0 && n * d' == n' * d && IsEvenHalf(n, d)
    ensures IsEvenHalf(n', d')
  {
    DivScale(n, d, d');
    DivScale(n', d', d);
    assert d * d' == d' * d;
    var r, r' := n % d, n' % d';
    hide *;
    TwiceCross(r, d, r', d');
  }

  lemma TwiceCross(r: nat, d: nat, r': nat, d': nat)
    requires d > 0 && r * d' == r' * d && 2 * r == d
    ensures 2 * r' == d'
  {
    assert (2 * r') * d == 2 * (r * d') == (2 * r) * d';
    MulCancel(2 * r', d', d);
  }

  // ---------------------------------------------------------------------------------------------
  // Significant digits.

  /** n / d >= 10^x */
  predicate Reaches(n: nat, d: nat, x: int) {
    if x >= 0 then d * Pow(10, x) <= n else d <= n * Pow(10, -x)
  }

  /** 10^x is the power of ten of the leading digit of n / d. */
  predicate IsLeadExponent(n: nat, d: nat, x: int) {
    Reaches(n, d, x) && !Reaches(n, d, x + 1)
  }

  lemma LeadExponentRatio(n: nat, d: nat, n': nat, d': nat, x: int)
    requires d > 0 && d' > 0 && n * d' == n' * d && IsLeadExponent(n, d, x)
    ensures IsLeadExponent(n', d', x)
  {
    ReachesRatio(n, d, n', d', x);
    if Reaches(n', d', x + 1) { ReachesRatio(n', d', n, d, x + 1); }
  }

  lemma ReachesRatio(n: nat, d: nat, n': nat, d': nat, x: int)
    requires d > 0 && n * d' == n' * d && Reaches(n, d, x)
    ensures Reaches(n', d', x)
  {
    var p := Pow(10, if x >= 0 then x else -x);
    hide Pow;
    if x >= 0 { ReachesCross(n, d, n', d', p); } else { ReachesCross'(n, d, n', d', p); }
  }

  lemma ReachesCross(n: nat, d: nat, n': nat, d': nat, p: nat)
    requires d > 0 && n * d' == n' * d && d * p <= n
    ensures d' * p <= n'
  {
    MulMonotone(d * p, n, d');
    assert (d * p) * d' == (d' * p) * d;
    if n' < d' * p { MulMonotone(n' + 1, d' * p, d); }
  }

  lemma ReachesCross'(n: nat, d: nat, n': nat, d': nat, p: nat)
    requires d > 0 && n * d' == n' * d && d <= n * p
    ensures d' <= n' * p
  {
    MulMonotone(d, n * p, d');
    assert (n * p) * d' == (n' * p) * d;
    if n' * p < d' { MulMonotone(n' * p + 1, d', d); }
  }

  lemma ReachesStep(n: nat, d: nat, x: int)
    requires Reaches(n, d, x + 1)
    ensures Reaches(n, d, x)
  {
    if x >= 0 {
      var p := Pow(10, x);
      assert d * (10 * p) == 10 * (d * p);
    } else {
      var p := Pow(10, -x - 1);
      assert Pow(10, -x) == 10 * p;
      assert n * (10 * p) == 10 * (n * p);
      if x == -1 { assert d * Pow(10, 0) == d && n * p == n by { assert Pow(10, 0) == 1; } }
    }
  }

  lemma {:induction false} ReachesBelow(n: nat, d: nat, x: int, y: int)
    requires Reaches(n, d, y) && x <= y
    ensures Reaches(n, d, x)
    decreases y - x
  {
    if x < y {
      ReachesStep(n, d, y - 1);
      ReachesBelow(n, d, x, y - 1);
    }
  }

  lemma LeadExponentUnique(n: nat, d: nat, x: int, y: int)
    requires IsLeadExponent(n, d, x) && IsLeadExponent(n, d, y)
    ensures x == y
  {
    if x < y { ReachesBelow(n, d, x + 1, y); }
    if y < x { ReachesBelow(n, d, y + 1, x); }
  }

  /** A run of k digits that n / d lies in the last unit of fixes the exponent of the leading one. */
  lemma LeadFromRun(n: nat, d: nat, t: nat, g: nat, k: nat, rem: nat)
    requires d > 0 && n * Pow(10, t) == g * d + rem && rem < d && k >= 1
    requires Pow(10, k - 1) <= g < Pow(10, k)
    ensures IsLeadExponent(n, d, k - 1 - t)
  {
    LeadAtLeast(n, d, t, g, k - 1, rem);
    LeadBelow(n, d, t, g, k, rem);
  }

  lemma LeadAtLeast(n: nat, d: nat, t: nat, g: nat, j: nat, rem: nat)
    requires d > 0 && n * Pow(10, t) == g * d + rem && Pow(10, j) <= g
    ensures Reaches(n, d, j - t)
  {
    hide *;
    var ten, p := Pow(10, t), Pow(10, j);
    if j >= t {
      PowAdd(10, j - t, t);
      AtLeastUp(n, d, Pow(10, j - t), ten, g, rem, p);
      ReachesUp(n, d, j - t);
    } else {
      PowAdd(10, t - j, j);
      AtLeastDown(n, d, Pow(10, t - j), p, g, rem, ten);
      ReachesDown(n, d, t - j);
    }
  }

  lemma ReachesUp(n: nat, d: nat, x: nat)
    ensures Reaches(n, d, x) <==> d * Pow(10, x) <= n
  {
  }

  lemma ReachesDown(n: nat, d: nat, x: nat)
    ensures Reaches(n, d, 0 - x) <==> d <= n * Pow(10, x)
  {
    if x == 0 { assert Pow(10, 0) == 1 && n * 1 == n && d * 1 == d; }
  }

  lemma AtLeastUp(n: nat, d: nat, a: nat, ten: nat, g: nat, rem: nat, p: nat)
    requires n * ten == g * d + rem && p <= g && p == a * ten && ten > 0
    ensures d * a <= n
  {
    MulMonotone(p, g, d);
    assert p * d == (d * a) * ten;
    if n < d * a { MulMonotone(n + 1, d * a, ten); }
  }

  lemma AtLeastDown(n: nat, d: nat, a: nat, p: nat, g: nat, rem: nat, ten: nat)
    requires n * ten == g * d + rem && p <= g && ten == a * p && p > 0
    ensures d <= n * a
  {
    MulMonotone(p, g, d);
    assert n * (a * p) == (n * a) * p && p * d == d * p;
    if n * a < d { MulMonotone(n * a + 1, d, p); }
  }

  lemma LeadBelow(n: nat, d: nat, t: nat, g: nat, j: nat, rem: nat)
    requires d > 0 && n * Pow(10, t) == g * d + rem && rem < d && g < Pow(10, j)
    ensures !Reaches(n, d, j - t)
  {
    hide *;
    var ten, p := Pow(10, t), Pow(10, j);
    if j >= t {
      ReachesUp(n, d, j - t);
      PowAdd(10, j - t, t);
      BelowUp(n, d, Pow(10, j - t), ten, g, rem, p);
    } else {
      ReachesDown(n, d, t - j);
      PowAdd(10, t - j, j);
      BelowDown(n, d, Pow(10, t - j), p, g, rem, ten);
    }
  }

  lemma BelowUp(n: nat, d: nat, a: nat, ten: nat, g: nat, rem: nat, p: nat)
    requires n * ten == g * d + rem && rem < d && g < p && p == a * ten
    ensures n < d * a
  {
    MulMonotone(g + 1, p, d);
    assert (d * a) * ten == p * d && (g + 1) * d == g * d + d;
    MulCancelLess(n, d * a, ten);
  }

  lemma BelowDown(n: nat, d: nat, a: nat, p: nat, g: nat, rem: nat, ten: nat)
    requires n * ten == g * d + rem && rem < d && g < p && ten == a * p
    ensures n * a < d
  {
    MulMonotone(g + 1, p, d);
    assert (n * a) * p == n * ten && (g + 1) * d == g * d + d && p * d == d * p;
    MulCancelLess(n * a, d, p);
  }

  /**
   * The sig-digit decimal nearest to a value whose leading digit is at 10^x: an integer of sig
   * digits and the exponent of its leading one. Rounding up a run of nines raises the exponent.
   */
  function RoundSignificant(n: nat, d: nat, sig: nat, x: int): (nat, int)
    requires d > 0 && sig >= 1
  {
    var r := RoundAt(n, d, sig - 1 - x);
    if r == Pow(10, sig) then (Pow(10, sig - 1), x + 1) else (r, x)
  }

  /** Rounding at or below the leading digit keeps at least its unit. */
  lemma RoundAtLead(n: nat, d: nat, sig: nat, lead: int)
    requires d > 0 && sig >= 1 && IsLeadExponent(n, d, lead)
    ensures RoundAt(n, d, sig - 1 - lead) >= 1
  {
    var s := sig - 1 - lead;
    ReachesBelow(n, d, 0 - s, lead);
    if s >= 0 {
      ReachesDown(n, d, s);
      RoundAtUp(n, d, s);
      hide *;
      RoundAtLeastOne(n * Pow(10, s), d);
    } else {
      ReachesUp(n, d, -s);
      RoundAtDown(n, d, -s);
      RoundAtLeastOne(n, d * Pow(10, -s));
    }
  }

  lemma RoundAtLeastOne(n: nat, d: nat)
    requires 0 < d <= n
    ensures RoundHalfEven(n, d) >= 1
  {
    DivModEquation(n, d);
    assert (n / d + 1) * d == (n / d) * d + d;
    MulCancelLess(1, n / d + 1, d);
  }
}
