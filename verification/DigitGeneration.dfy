/**
 * Reading decimal digits off a prepared mantissa: the top four bits are a digit, the rest is
 * multiplied by ten. The digits accumulate in g; full asks for exactly limit digits, otherwise
 * generation ends as soon as the mantissa is exhausted.
 */
module DigitGeneration {
  import opened Arithmetic
  import opened Doubles

  datatype Generated = Generated(g: nat, count: nat, rem: nat)

  function Generate(B: nat, man: nat, g: nat, n: nat, limit: nat, full: bool): Generated
    requires IsWidth(B) && n < limit
    decreases limit - n
  {
    var d, rest := man / Unit(B), man % Unit(B);
    if n + 1 == limit || (rest == 0 && !full) then Generated(10 * g + d, n + 1, 16 * rest)
    else Generate(B, 10 * rest, 10 * g + d, n + 1, limit, full)
  }

  lemma GenerateUnfolds(B: nat, man: nat, g: nat, n: nat, limit: nat, full: bool)
    requires IsWidth(B) && n < limit
    ensures var d, rest := man / Unit(B), man % Unit(B);
            Generate(B, man, g, n, limit, full) ==
            if n + 1 == limit || (rest == 0 && !full) then Generated(10 * g + d, n + 1, 16 * rest)
            else Generate(B, 10 * rest, 10 * g + d, n + 1, limit, full)
  {
  }

  /**
   * The digits generated and the mantissa left over divide the original mantissa exactly: with c
   * digits, man * 10^(c-1) = digits * unit + rest.
   */
  lemma {:induction false} GenerateValue(B: nat, man: nat, g: nat, n: nat, limit: nat, full: bool)
    requires IsWidth(B) && n < limit
    ensures var r, u := Generate(B, man, g, n, limit, full), Unit(B);
            && n < r.count <= limit && r.rem % 16 == 0 && r.rem < 16 * u
            && r.g * u + r.rem / 16 == (g * Pow(10, r.count - n)) * u + man * Pow(10, r.count - n - 1)
            && (full || r.rem != 0 ==> r.count == limit)
    decreases limit - n
  {
    var u := Unit(B);
    var d, rest := man / u, man % u;
    DivModEquation(man, u);
    var r := Generate(B, man, g, n, limit, full);
    if n + 1 == limit || (rest == 0 && !full) {
      assert Pow(10, 1) == 10 && Pow(10, 0) == 1;
      GenerateLast(g, d, u);
    } else {
      GenerateValue(B, 10 * rest, 10 * g + d, n + 1, limit, full);
      var p := Pow(10, r.count - n - 2);
      assert Pow(10, r.count - n - 1) == 10 * p && Pow(10, r.count - n) == 10 * (10 * p);
      GenerateMore(g, d, u, rest, p);
    }
  }

  lemma GenerateLast(g: nat, d: nat, u: nat)
    ensures (10 * g + d) * u == (g * 10) * u + d * u
  {
  }

  lemma GenerateMore(g: nat, d: nat, u: nat, rest: nat, p: nat)
    ensures ((10 * g + d) * (10 * p)) * u + (10 * rest) * p == (g * (10 * (10 * p))) * u + (d * u + rest) * (10 * p)
  {
    var q := 10 * p;
    assert (10 * g + d) * q == g * (10 * q) + d * q;
    assert (g * (10 * q) + d * q) * u == (g * (10 * q)) * u + (d * q) * u;
    assert (d * q) * u == (d * u) * q;
    assert (d * u + rest) * q == (d * u) * q + rest * q;
    assert (10 * rest) * p == rest * q;
  }

  /** Below ten units every digit is a decimal digit, so the run keeps its place values. */
  lemma {:induction false} GenerateDigits(B: nat, man: nat, g: nat, n: nat, limit: nat, full: bool)
    requires IsWidth(B) && n < limit && man < 10 * Unit(B)
    ensures var r := Generate(B, man, g, n, limit, full);
            && n < r.count
            && g * Pow(10, r.count - n) <= r.g < (g + 1) * Pow(10, r.count - n)
            && (man >= Unit(B) ==> r.g >= (10 * g + 1) * Pow(10, r.count - n - 1))
    decreases limit - n
  {
    var u := Unit(B);
    var d, rest := man / u, man % u;
    DivModEquation(man, u);
    MulCancelLess(d, 10, u);
    if man >= u { MulCancelLess(0, d, u); }
    var r := Generate(B, man, g, n, limit, full);
    if n + 1 == limit || (rest == 0 && !full) {
      assert Pow(10, 1) == 10 && Pow(10, 0) == 1;
    } else {
      GenerateDigits(B, 10 * rest, 10 * g + d, n + 1, limit, full);
      var p := Pow(10, r.count - n - 1);
      assert Pow(10, r.count - n) == 10 * p;
      DigitPlaces(g, d, p);
    }
  }

  lemma DigitPlaces(g: nat, d: nat, p: nat)
    requires d < 10
    ensures g * (10 * p) <= (10 * g + d) * p && (10 * g + d + 1) * p <= (g + 1) * (10 * p)
    ensures d >= 1 ==> (10 * g + 1) * p <= (10 * g + d) * p
  {
    assert g * (10 * p) == (10 * g) * p && (g + 1) * (10 * p) == (10 * g + 10) * p;
    MulMonotone(10 * g, 10 * g + d, p);
    MulMonotone(10 * g + d + 1, 10 * g + 10, p);
    if d >= 1 { MulMonotone(10 * g + 1, 10 * g + d, p); }
  }
}
