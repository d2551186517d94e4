/** Powers and the few facts about division that the conversions rest on. */
module Arithmetic {

  function Pow(b: nat, n: nat): (r: nat)
    ensures b > 0 ==> r > 0
  {
    if n == 0 then 1 else b * Pow(b, n - 1)
  }

  /** A decimal number without its k lowest digits, and those digits. */
  function High(n: nat, k: nat): nat { n / Pow(10, k) }

  function Low(n: nat, k: nat): nat { n % Pow(10, k) }

  /** A decimal number with k zeros behind it. */
  function Tenfold(n: nat, k: nat): nat { n * Pow(10, k) }

  /** Logical shifts of an unbounded register. */
  function Shl(n: nat, k: nat): nat { n * Pow(2, k) }

  function Shr(n: nat, k: nat): nat { n / Pow(2, k) }

  function Max(a: int, b: int): int { if a >= b then a else b }

  function Min(a: int, b: int): int { if a <= b then a else b }

  lemma {:induction false} PowAdd(b: nat, m: nat, n: nat)
    ensures Pow(b, m + n) == Pow(b, m) * Pow(b, n)
  {
    if m > 0 {
      PowAdd(b, m - 1, n);
      MulAssoc(b, Pow(b, m - 1), Pow(b, n));
    }
  }

  lemma {:induction false} PowMonotone(b: nat, m: nat, n: nat)
    requires b > 1 && m <= n
    ensures Pow(b, m) <= Pow(b, n)
    ensures m < n ==> Pow(b, m) < Pow(b, n)
  {
    if m < n {
      PowMonotone(b, m, n - 1);
      MulMonotone(2, b, Pow(b, n - 1));
    }
  }

  lemma {:induction false} PowProduct(a: nat, b: nat, n: nat)
    ensures Pow(a * b, n) == Pow(a, n) * Pow(b, n)
  {
    if n > 0 {
      PowProduct(a, b, n - 1);
      var x, y := Pow(a, n - 1), Pow(b, n - 1);
      assert (a * b) * (x * y) == (a * x) * (b * y) by { MulShuffle(a, b, x, y); }
    }
  }

  /** Powers of 16 leave the residue 1 modulo 5, and so does 2^B for every B divisible by 4. */
  lemma {:induction false} PowSixteenModFive(n: nat)
    requires n % 4 == 0
    ensures Pow(2, n) % 5 == 1
  {
    if n > 0 {
      PowSixteenModFive(n - 4);
      FourDoublings(n);
      hide Pow;
      SixteenTimesModFive(Pow(2, n - 4));
    }
  }

  lemma SixteenTimesModFive(p: nat)
    requires p % 5 == 1
    ensures (16 * p) % 5 == 1
  {
  }

  lemma FourDoublings(n: nat)
    requires n >= 4
    ensures Pow(2, n) == 16 * Pow(2, n - 4)
  {
    assert Pow(2, n) == 2 * Pow(2, n - 1);
    assert Pow(2, n - 1) == 2 * Pow(2, n - 2);
    assert Pow(2, n - 2) == 2 * Pow(2, n - 3);
    assert Pow(2, n - 3) == 2 * Pow(2, n - 4);
  }

  lemma MulAssoc(a: int, b: int, c: int)
    ensures (a * b) * c == a * (b * c)
  {
  }

  lemma DoubleMoves(a: nat, p: nat)
    ensures a * (2 * p) == 2 * (a * p) == (2 * a) * p
  {
  }

  lemma MulShuffle(a: int, b: int, x: int, y: int)
    ensures (a * b) * (x * y) == (a * x) * (b * y)
  {
    calc {
      (a * b) * (x * y);
      a * (b * (x * y));
      a * ((b * x) * y);
      a * (x * (b * y));
      (a * x) * (b * y);
    }
  }

  lemma MulMonotone(a: int, b: int, c: nat)
    requires a <= b
    ensures a * c <= b * c
  {
  }

  lemma MulCancelLess(a: int, b: int, c: nat)
    requires a * c < b * c
    ensures a < b
  {
    if b <= a { MulMonotone(b, a, c); }
  }

  lemma MulCancel(a: int, b: int, c: nat)
    requires c > 0 && a * c == b * c
    ensures a == b
  {
    if a < b { MulMonotone(a + 1, b, c); } else if b < a { MulMonotone(b + 1, a, c); }
  }

  /** The quotient and the remainder are determined by the division equation. */
  lemma DivModUnique(n: int, d: nat, q: int, r: int)
    requires d > 0 && 0 <= r < d && n == q * d + r
    ensures n / d == q && n % d == r
  {
    var q', r' := n / d, n % d;
    assert n == d * q' + r';
    if q < q' { MulMonotone(q + 1, q', d); } else if q' < q { MulMonotone(q' + 1, q, d); }
  }

  lemma DivModEquation(n: nat, d: nat)
    requires d > 0
    ensures n == (n / d) * d + n % d && 0 <= n % d < d && n / d >= 0
  {
    assert n == d * (n / d) + n % d;
  }

  lemma DivDiv(n: nat, a: nat, b: nat)
    requires a > 0 && b > 0
    ensures a * b > 0 && (n / a) / b == n / (a * b)
    ensures n % (a * b) == ((n / a) % b) * a + n % a
  {
    DivModEquation(n, a);
    DivModEquation(n / a, b);
    MulPositive(a, b);
    DivDivParts(n, a, b, n / a, n % a, n / a / b, n / a % b);
  }

  lemma DivDivParts(n: nat, a: nat, b: nat, q: nat, r: nat, q2: nat, r2: nat)
    requires n == q * a + r && r < a && q == q2 * b + r2 && r2 < b && a * b > 0
    ensures n / (a * b) == q2 && n % (a * b) == r2 * a + r
  {
    MulMonotone(r2 + 1, b, a);
    assert (r2 + 1) * a == r2 * a + a && b * a == a * b;
    assert (q2 * b + r2) * a == (q2 * b) * a + r2 * a;
    assert (q2 * b) * a == q2 * (a * b);
    DivModUnique(n, a * b, q2, r2 * a + r);
  }

  lemma MulPositive(a: nat, b: nat)
    requires a > 0 && b > 0
    ensures a * b > 0
  {
  }

  /** Scaling a division by a common factor keeps its quotient and scales its remainder. */
  lemma DivScale(n: nat, d: nat, k: nat)
    requires d > 0 && k > 0
    ensures d * k > 0 && (n * k) / (d * k) == n / d && (n * k) % (d * k) == (n % d) * k
  {
    var q, r := n / d, n % d;
    DivModEquation(n, d);
    MulPositive(d, k);
    assert n * k == q * (d * k) + r * k by {
      assert n * k == (q * d + r) * k == (q * d) * k + r * k;
      MulAssoc(q, d, k);
    }
    assert r * k < d * k by { MulMonotone(r + 1, d, k); }
    DivModUnique(n * k, d * k, q, r * k);
  }

  // ---------------------------------------------------------------------------------------------
  // Zeros behind a decimal number.

  lemma TenfoldIs(n: nat, k: nat)
    ensures Tenfold(n, k) == n * Pow(10, k)
  {
  }

  lemma TenfoldZero(n: nat)
    ensures Tenfold(n, 0) == n
  {
    assert Pow(10, 0) == 1;
  }

  lemma TenfoldOnce(g: nat, k: nat)
    ensures Tenfold(g, k + 1) == 10 * Tenfold(g, k) == g * Pow(10, k + 1)
  {
    assert g * (10 * Pow(10, k)) == 10 * (g * Pow(10, k));
  }

  lemma TenfoldTwice(g: nat, i: nat, j: nat)
    ensures Tenfold(g, i + j) == Tenfold(Tenfold(g, i), j)
  {
    PowAdd(10, i, j);
    MulAssoc(g, Pow(10, i), Pow(10, j));
  }

  lemma TenfoldBound(g: nat, n: nat, k: nat)
    requires g < Pow(10, n)
    ensures Tenfold(g, k) < Pow(10, n + k)
  {
    PowAdd(10, n, k);
    MulMonotone(g + 1, Pow(10, n), Pow(10, k));
    assert (g + 1) * Pow(10, k) == g * Pow(10, k) + Pow(10, k);
  }
}
