/** npf_ftoa_rev over its buffer: every phase writes in place what the numbers of module Fused say. */
module FusedBuffer {
  import opened Arithmetic
  import opened Numerals
  import opened DecimalText
  import opened Doubles
  import opened DigitGeneration
  import opened Unsigned
  import opened Specials
  import opened Fused
  import opened DigitBuffer
  import I = IntegerPart
  import F = FractionPart

  /** Base-2 to base-10 scaling of the integer part, writing a '0' for every division. */
  method ScaleInteger(B: nat, buf: array<char>, start: I.Scaled, steps: nat, at: nat, divisionFree: bool)
    returns (ok: bool, s: I.Scaled, dec: nat)
    requires IsWidth(B) && I.IsState(B, start.man, start.carry) && start.tens == 0 && at <= buf.Length
    modifies buf
    ensures var r := I.Scale(B, start, steps);
            && (ok <==> at + r.tens <= buf.Length)
            && (ok ==> s == r && dec == at + r.tens && buf[at..dec] == Zeros(r.tens))
    ensures buf[..at] == old(buf[..at])
  {
    ghost var r := I.Scale(B, start, steps);
    s, dec, ok := start, at, true;
    var e: nat := steps;
    while e > 0
      invariant I.IsState(B, s.man, s.carry) && I.Scale(B, s, e) == r
      invariant dec == at + s.tens <= buf.Length
      invariant buf[..at] == old(buf[..at])
      invariant forall i :: at <= i < dec ==> buf[i] == '0'
      decreases e
    {
      I.StepIsWide(B, s);
      if s.man < 8 * Unit(B) {
        s := I.Scaled(2 * s.man + s.carry, 0, s.tens);
      } else {
        if dec >= buf.Length {
          I.ScaleFits(B, I.Step(B, s), e - 1);
          ok := false;
          return;
        }
        buf[dec] := '0';
        dec := dec + 1;
        s := DivideStep(B, s, divisionFree);
      }
      e := e - 1;
    }
  }

  /** The integer digits, behind one up-front capacity check or a check per digit. */
  method EmitInteger(B: nat, buf: array<char>, man: nat, at: nat, divisionFree: bool) returns (ok: bool, end: nat)
    requires IsWidth(B) && man < 16 * Unit(B) && at <= buf.Length
    modifies buf
    ensures ok <==> at + (if B <= 32 then 10 else |DecNumeral(man)|) <= buf.Length
    ensures ok ==> end == at + |DecNumeral(man)| <= buf.Length && buf[at..end] == DecNumeral(man)
    ensures buf[..at] == old(buf[..at])
  {
    end := at;
    if B <= 32 {
      WordBound(B);
      TenDigits(man);
      ok := at + 10 <= buf.Length;
      if ok {
        end := UtoaRevEnd(man, buf, at, 10, 0, divisionFree);
      }
    } else {
      ok, end := EmitDigits(buf, man, at);
    }
  }

  // ---------------------------------------------------------------------------------------------
  // The fraction, from the point down to buf[0].

  /** Base-2 to base-10 scaling of the fraction, writing a '0' for every place it passes. */
  method ScaleFraction(B: nat, buf: array<char>, start: F.Scaled, prec: nat) returns (s: F.Scaled, at: nat)
    requires IsWidth(B) && F.IsState(B, start) && start.zeros == 0 && start.exp <= 0 && prec <= buf.Length
    modifies buf
    ensures s == F.Scale(B, start, prec) && F.IsState(B, s)
    ensures s.zeros <= prec && at == prec - s.zeros && buf[at..prec] == Dec(0, s.zeros)
    ensures buf[prec..] == old(buf[prec..])
  {
    s, at := start, prec;
    while at > 0 && s.exp < 4
      invariant F.IsState(B, s) && F.Scale(B, s, prec) == F.Scale(B, start, prec)
      invariant s.zeros <= prec && at == prec - s.zeros
      invariant buf[at..prec] == Dec(0, s.zeros)
      invariant buf[prec..] == old(buf[prec..])
      decreases 4 - s.exp
    {
      F.StepIsWide(B, s);
      var t := ScaleStep(B, s);
      if t.zeros > s.zeros {
        PutFraction(buf, at, prec, 0, 0);
        at := at - 1;
      }
      s := t;
    }
  }

  /** The remaining fraction digits, four bits off the top of the mantissa at a time. */
  method EmitFraction(B: nat, buf: array<char>, man: nat, at: nat, prec: nat) returns (rem: nat, ghost g: nat)
    requires IsWidth(B) && man < 10 * Unit(B) && 0 < at <= prec <= buf.Length
    requires buf[at..prec] == Dec(0, prec - at)
    modifies buf
    ensures var r := Generate(B, man, 0, 0, at, true); g == r.g && rem == r.rem && r.count == at
    ensures buf[..prec] == Dec(g, prec)
    ensures buf[prec..] == old(buf[prec..])
  {
    var m: nat, k: nat := man, at;
    g := 0;
    ghost var result := Generate(B, man, 0, 0, at, true);
    hide Generate, Digits;
    var more := true;
    while more
      invariant k <= at && (more ==> k > 0 && m < 10 * Unit(B) && Generate(B, m, g, at - k, at, true) == result)
      invariant !more ==> k == 0 && m < Unit(B) && result == Generated(g, at, 16 * m)
      invariant buf[k..prec] == Dec(g, prec - k)
      invariant buf[prec..] == old(buf[prec..])
      decreases more, k
    {
      TopDigit(m, Unit(B));
      GenerateUnfolds(B, m, g, at - k, at, true);
      PutFraction(buf, k, prec, m / Unit(B), g);
      g := 10 * g + m / Unit(B);
      k := k - 1;
      m := m % Unit(B);
      if k == 0 {
        more := false;
      } else {
        m := m * 10;
      }
    }
    rem := m * 16;
  }

  // ---------------------------------------------------------------------------------------------
  // The rounding ripple.

  /** Adds one unit in the place at dec, skipping the point, growing a digit past the end if it must. */
  method RippleUp(buf: array<char>, dec: nat, end: nat) returns (ok: bool, end': nat)
    requires dec <= end <= buf.Length && IsDecimalText(buf[dec..end])
    modifies buf
    ensures var r := Successor(old(buf[dec..end]));
            && (ok <==> dec + |r| <= buf.Length)
            && (ok ==> end' == dec + |r| && buf[dec..end'] == r)
    ensures buf[..dec] == old(buf[..dec])
  {
    ghost var s := buf[dec..end];
    NothingPassed(s);
    hide IsPassed, IsRippled, Successor, IsDecimalText;
    var i: nat, carry := dec, true;
    end', ok := end, true;
    while carry
      invariant dec <= i <= buf.Length && end <= end' <= buf.Length
      invariant carry ==> i <= end' == end && IsPassed(s, i - dec, buf[dec..end])
      invariant !carry ==> i > dec && IsRippled(s, i - 1 - dec, buf[dec..end'])
      invariant buf[..dec] == old(buf[..dec])
      decreases carry, buf.Length - i
    {
      ghost var t := buf[dec..end];
      if i >= buf.Length {
        NoRoom(s, t);
        ok := false;
        return;
      }
      if i < end { PassedMore(s, i - dec, t); } else { PassedAll(s, t); }
      if i >= end' {
        buf[end'] := '0';
        end' := end' + 1;
      }
      var c := buf[i];
      assert i < end ==> c == t[i - dec];
      if c == '.' {
      } else if c == '9' {
        buf[i] := '0';
        assert buf[dec..end] == t[i - dec := '0'];
      } else {
        buf[i] := (c as int + 1) as char;
        carry := false;
        assert buf[dec..end'] == if i < end then t[i - dec := (c as int + 1) as char] else t + ['1'];
      }
      i := i + 1;
    }
    RippledIsSuccessor(s, i - 1 - dec, buf[dec..end']);
    RippledLength(s, i - 1 - dec, buf[dec..end']);
  }

  lemma RippledLength(s: seq<char>, j: nat, r: seq<char>)
    requires IsRippled(s, j, r)
    ensures |r| <= |s| + 1
  {
  }

  // ---------------------------------------------------------------------------------------------
  // Facts about the text that the phases add up to.

  function Point(prec: nat, alt: bool): nat { if prec > 0 || alt then 1 else 0 }

  function PointText(prec: nat, alt: bool): (s: seq<char>)
    ensures |s| == Point(prec, alt)
  {
    if prec > 0 || alt then ['.'] else []
  }

  lemma FractionFits(B: nat, x: Finite, prec: nat)
    requires IsWidth(B) && IsFinite(x) && x.exp < MAN_BITS
    ensures FractionDigits(B, x, prec).digits < Pow(10, prec)
  {
    var s := F.Scale(B, F.Start(B, x), prec);
    F.StartFits(B, x);
    F.ScaleFits(B, F.Start(B, x), prec);
    hide Pow, Generate, F.Scale, F.Start, IsFinite;
    if s.zeros < prec { DigitsFit(B, Nudged(B, s), prec - s.zeros, prec); }
  }

  lemma DigitsFit(B: nat, man: nat, limit: nat, prec: nat)
    requires IsWidth(B) && man < 10 * Unit(B) && 0 < limit <= prec
    ensures Generate(B, man, 0, 0, limit, true).g < Pow(10, prec)
  {
    hide *;
    GenerateDigits(B, man, 0, 0, limit, true);
    GenerateValue(B, man, 0, 0, limit, true);
    PowMonotone(10, limit, prec);
  }

  /** The parity the tie test reads off the buffer is the parity of the number printed so far. */
  lemma LastDigit(n: nat, prec: nat, alt: bool)
    ensures var t := Fixed(n, prec, prec > 0 || alt);
            && (t[0] == '.' ==> |t| > 1)
            && (if t[0] == '.' then t[1] else t[0]) as int % 2 == n % 2
  {
    hide *;
    if prec > 0 { LastFractionDigit(n, prec); } else { LastWholeDigit(n, alt); }
  }

  lemma LastFractionDigit(n: nat, prec: nat)
    requires prec > 0
    ensures Fixed(n, prec, true)[0] == DigitChar(n % 10, 0)
    ensures var t := Fixed(n, prec, true); t[0] != '.' && t[0] as int % 2 == n % 2
  {
    assert Dec(n, prec)[0] == DigitChar(n % 10, 0) && Fixed(n, prec, true)[0] == Dec(n, prec)[0];
    hide *;
    DigitParity(n % 10);
  }

  lemma LastWholeDigit(n: nat, alt: bool)
    ensures var t := Fixed(n, 0, alt);
            && (t[0] == '.' ==> |t| > 1)
            && (if t[0] == '.' then t[1] else t[0]) as int % 2 == n % 2
  {
    FixedAtZero(n, alt);
    LowestDigit(n);
    hide Numeral, Fixed;
  }

  lemma FixedAtZero(n: nat, alt: bool)
    ensures Fixed(n, 0, alt) == Whole(n, alt)
  {
    assert Pow(10, 0) == 1;
    assert Dec(n, 0) == [];
    hide Whole, Pow, Digits;
    assert High(n, 0) == n;
  }

  lemma LowestDigit(n: nat)
    ensures DecNumeral(n)[0] != '.' && DecNumeral(n)[0] as int % 2 == n % 2
  {
    assert DecNumeral(n)[0] == DigitChar(n % 10, 0) && n % 10 % 2 == n % 2;
    hide *;
    DigitParity(n % 10);
  }

  lemma {:induction false} GenerateNothing(B: nat, n: nat, limit: nat)
    requires IsWidth(B) && n < limit
    ensures Generate(B, 0, 0, n, limit, true).g == 0
    decreases limit - n
  {
    DivModUnique(0, Unit(B), 0, 0);
    if n + 1 < limit { GenerateNothing(B, n + 1, limit); }
  }

  /** The text of a number with no fraction digits of its own. */
  lemma IntegerText(B: nat, x: Finite, prec: nat, alt: bool)
    requires IsWidth(B) && IsFinite(x) && !I.HasFraction(B, x)
    ensures var i := I.Convert(B, x);
            Text(B, x, prec, alt) ==
            Zeros(prec) + PointText(prec, alt) + Zeros(i.tens) + DecNumeral(i.man + i.carry)
  {
    var i, pt := I.Convert(B, x), prec > 0 || alt;
    I.ConvertBounds(B, x);
    hide I.Convert, Pow, Numeral, Digits, Fixed, I.IsState;
    FixedOfInteger(Tenfold(i.man + i.carry, i.tens), prec, pt);
    WholeShift(i.man + i.carry, i.tens, pt);
  }

  /** The number and the text before rounding. */
  function Truncated(B: nat, x: Finite, prec: nat): nat
    requires IsWidth(B) && IsFinite(x) && I.HasFraction(B, x)
  {
    Tenfold(I.Convert(B, x).man, prec) + FractionDigits(B, x, prec).digits
  }

  function TruncatedText(B: nat, x: Finite, prec: nat, alt: bool): seq<char>
    requires IsWidth(B) && IsFinite(x) && I.HasFraction(B, x)
  {
    Dec(FractionDigits(B, x, prec).digits, prec) + PointText(prec, alt) + DecNumeral(I.Convert(B, x).man)
  }

  lemma TruncatedIsFixed(B: nat, x: Finite, prec: nat, alt: bool)
    requires IsWidth(B) && IsFinite(x) && I.HasFraction(B, x)
    ensures TruncatedText(B, x, prec, alt) == Fixed(Truncated(B, x, prec), prec, prec > 0 || alt)
  {
    var m, d, pt := I.Convert(B, x).man, FractionDigits(B, x, prec).digits, prec > 0 || alt;
    FractionFits(B, x, prec);
    hide FractionDigits, I.Convert, Fixed;
    FixedOfParts(m, d, prec, pt);
    assert Dec(d, prec) + PointText(prec, alt) + DecNumeral(m) == Dec(d, prec) + Whole(m, pt);
  }

  lemma FractionText(B: nat, x: Finite, prec: nat, alt: bool)
    requires IsWidth(B) && IsFinite(x) && I.HasFraction(B, x)
    ensures var t := TruncatedText(B, x, prec, alt);
            && IsDecimalText(t)
            && Text(B, x, prec, alt) ==
               if RoundsUp(B, FractionDigits(B, x, prec), Truncated(B, x, prec)) then Successor(t) else t
  {
    TextOfTruncated(B, x, prec, alt);
    hide *;
    TruncatedIsFixed(B, x, prec, alt);
    SuccessorOfFixed(Truncated(B, x, prec), prec, prec > 0 || alt);
  }

  lemma TextOfTruncated(B: nat, x: Finite, prec: nat, alt: bool)
    requires IsWidth(B) && IsFinite(x) && I.HasFraction(B, x)
    ensures var n, pt := Truncated(B, x, prec), prec > 0 || alt;
            Text(B, x, prec, alt) ==
            if RoundsUp(B, FractionDigits(B, x, prec), n) then Fixed(n + 1, prec, pt) else Fixed(n, prec, pt)
  {
    hide FractionDigits, I.Convert, Fixed, RoundsUp, Tenfold;
  }

  // ---------------------------------------------------------------------------------------------
  // The conversion.

  method PutPoint(buf: array<char>, prec: nat, alt: bool) returns (dec: nat)
    requires prec < buf.Length
    modifies buf
    ensures dec == prec + Point(prec, alt) && buf[prec..dec] == PointText(prec, alt)
  {
    dec := prec;
    if prec > 0 || alt {
      buf[dec] := '.';
      dec := dec + 1;
    }
  }

  /** The scaled integer part, its zeros directly above whatever stands at buf[from..at). */
  method ScaleAbove(B: nat, buf: array<char>, x: Finite, from: nat, at: nat, divisionFree: bool)
    returns (ok: bool, s: I.Scaled, dec: nat)
    requires IsWidth(B) && IsFinite(x) && from <= at <= buf.Length
    modifies buf
    ensures var r := I.Convert(B, x);
            && (ok <==> at + r.tens <= buf.Length)
            && (ok ==> s == r && dec == at + r.tens && buf[from..dec] == old(buf[from..at]) + Zeros(r.tens))
  {
    s, dec, ok := I.Scaled(0, 0, 0), at, true;
    if x.exp >= 0 {
      I.StartFits(B, x);
      assert I.Start(B, x).tens == 0;
      hide I.Scale, I.Start, I.Steps, IsFinite;
      ghost var head := buf[..at];
      var start := IntegerStart(B, x, divisionFree);
      ok, s, dec := ScaleInteger(B, buf, start, I.Steps(B, x), at, divisionFree);
      if ok {
        assert buf[from..at] == head[from..] by { assert buf[..at] == head; assert buf[from..at] == buf[..at][from..]; }
        assert buf[from..dec] == buf[from..at] + buf[at..dec];
      }
    }
  }

  /** The point, the zeros of the integer scaling and the integer digits. */
  method IntegerPhase(B: nat, buf: array<char>, x: Finite, prec: nat, alt: bool, divisionFree: bool)
    returns (ok: bool, carry: nat, dec: nat, end: nat)
    requires IsWidth(B) && IsFinite(x) && prec + 2 <= buf.Length
    modifies buf
    ensures var i := I.Convert(B, x);
            && (ok <==> Lead(B, x, prec, alt) + (if B <= 32 then 10 else |DecNumeral(i.man)|) <= buf.Length)
            && (ok ==> carry == i.carry && dec == Lead(B, x, prec, alt) && end == dec + |DecNumeral(i.man)| <= buf.Length)
            && (ok ==> buf[prec..end] == PointText(prec, alt) + Zeros(i.tens) + DecNumeral(i.man))
  {
    I.ConvertBounds(B, x);
    hide I.Convert, Numeral, IsFinite, PointText, Unit;
    carry, end := 0, prec;
    dec := PutPoint(buf, prec, alt);
    var s;
    ok, s, dec := ScaleAbove(B, buf, x, prec, dec, divisionFree);
    if ok {
      carry := s.carry;
      ok, end := EmitAbove(B, buf, s.man, prec, dec, divisionFree);
    }
  }

  /** The integer digits, on top of what already stands above the fraction places. */
  method EmitAbove(B: nat, buf: array<char>, man: nat, prec: nat, at: nat, divisionFree: bool)
    returns (ok: bool, end: nat)
    requires IsWidth(B) && man < 16 * Unit(B) && prec <= at <= buf.Length
    modifies buf
    ensures ok <==> at + (if B <= 32 then 10 else |DecNumeral(man)|) <= buf.Length
    ensures ok ==> end == at + |DecNumeral(man)| <= buf.Length
    ensures ok ==> buf[prec..end] == old(buf[prec..at]) + DecNumeral(man)
  {
    ghost var head := buf[..at];
    assert head[prec..] == buf[prec..at];
    ok, end := EmitInteger(B, buf, man, at, divisionFree);
    if ok {
      assert buf[prec..at] == buf[..at][prec..];
      assert buf[prec..end] == buf[prec..at] + buf[at..end];
    }
  }

  /** The fraction digits; the point and everything above it stay as they are. */
  method FractionPhase(B: nat, buf: array<char>, x: Finite, prec: nat, end: nat, divisionFree: bool)
    returns (exp: int, rem: nat)
    requires IsWidth(B) && IsFinite(x) && I.HasFraction(B, x) && prec <= end <= buf.Length
    modifies buf
    ensures var f := FractionDigits(B, x, prec);
            exp == f.exp && rem == f.rem && buf[..end] == Dec(f.digits, prec) + old(buf[prec..end])
  {
    F.StartFits(B, x);
    ghost var upper := buf[prec..];
    var start := FractionStart(B, x, divisionFree);
    var s, at := ScaleFraction(B, buf, start, prec);
    F.ScaleFits(B, F.Start(B, x), prec);
    exp, rem := s.exp, Nudged(B, s);
    if at > 0 {
      ghost var g;
      rem, g := EmitFraction(B, buf, rem, at, prec);
    }
    hide *;
    JoinUpper(buf[..], prec, end, upper);
  }

  lemma JoinUpper(s: seq<char>, prec: nat, end: nat, upper: seq<char>)
    requires prec <= end <= |s| && s[prec..] == upper
    ensures s[..end] == s[..prec] + upper[..end - prec]
  {
  }

  /** No fraction: zeros down to buf[0]. */
  method ZeroPhase(B: nat, buf: array<char>, prec: nat, end: nat)
    requires IsWidth(B) && prec <= end <= buf.Length
    modifies buf
    ensures buf[..end] == Zeros(prec) + old(buf[prec..end])
  {
    ghost var upper := buf[prec..];
    if prec > 0 {
      var rem, g := EmitFraction(B, buf, 0, prec, prec);
      GenerateNothing(B, 0, prec);
      DigitsOfZero(prec);
    }
    assert buf[..prec] == Zeros(prec);
    hide *;
    JoinUpper(buf[..], prec, end, upper);
  }

  lemma TextIsLong(B: nat, x: Finite, prec: nat, alt: bool)
    requires IsWidth(B) && IsFinite(x)
    ensures |Text(B, x, prec, alt)| >= Lead(B, x, prec, alt) + |DecNumeral(I.Convert(B, x).man)|
    ensures |Text(B, x, prec, alt)| >= prec + Point(prec, alt) + 1
  {
    var i := I.Convert(B, x);
    if I.HasFraction(B, x) {
      FractionText(B, x, prec, alt);
      I.ConvertBounds(B, x);
    } else {
      IntegerText(B, x, prec, alt);
      NumeralLengthMonotone(i.man, i.man + i.carry);
    }
  }

  /**
   * Up to 32 bits a text is as good as too long when ten integer digits in its place would be: no
   * such integer part has more, so the text itself is never what does not fit.
   */
  lemma NarrowFits(B: nat, C: nat, x: Finite, prec: nat, alt: bool)
    requires IsWidth(B) && IsFinite(x) && B <= 32
    ensures Fits(B, C, x, prec, alt) <==> prec + Point(prec, alt) + I.Convert(B, x).tens + 10 <= C
  {
    TenDigitsAtMost(B, x);
    I.ConvertBounds(B, x);
    if I.HasFraction(B, x) {
      NarrowFraction(B, x, prec, alt);
    } else {
      IntegerText(B, x, prec, alt);
    }
    hide Text, I.Convert, Numeral, IsFinite, I.HasFraction;
  }

  lemma NarrowFraction(B: nat, x: Finite, prec: nat, alt: bool)
    requires IsWidth(B) && IsFinite(x) && I.HasFraction(B, x)
    ensures |Text(B, x, prec, alt)| <= prec + Point(prec, alt) + |DecNumeral(I.Convert(B, x).man + 1)|
    ensures I.Convert(B, x).tens == 0
  {
    var man, n := I.Convert(B, x).man, Conversion(B, x, prec);
    assert I.Convert(B, x).tens == 0 by { hide I.Start; }
    hide *;
    TextLengthIs(B, x, prec, alt);
    ConversionAtMost(B, x, prec);
    NumeralLengthMonotone(High(n, prec), man + 1);
  }

  lemma TextLengthIs(B: nat, x: Finite, prec: nat, alt: bool)
    requires IsWidth(B) && IsFinite(x)
    ensures |Text(B, x, prec, alt)| == prec + Point(prec, alt) + |DecNumeral(High(Conversion(B, x, prec), prec))|
  {
    hide Conversion, Numeral, Digits, High;
  }

  lemma ConversionAtMost(B: nat, x: Finite, prec: nat)
    requires IsWidth(B) && IsFinite(x) && I.HasFraction(B, x)
    ensures High(Conversion(B, x, prec), prec) <= I.Convert(B, x).man + 1
  {
    var man, d := I.Convert(B, x).man, FractionDigits(B, x, prec).digits;
    FractionFits(B, x, prec);
    assert Conversion(B, x, prec) <= Tenfold(man, prec) + d + 1;
    hide Conversion, FractionDigits, I.Convert;
    HighAtMost(Conversion(B, x, prec), man, d, prec);
  }

  lemma HighAtMost(n: nat, man: nat, d: nat, prec: nat)
    requires n <= Tenfold(man, prec) + d + 1 && d < Pow(10, prec)
    ensures High(n, prec) <= man + 1
  {
    var p := Pow(10, prec);
    assert High(n, prec) == n / p && Tenfold(man, prec) == man * p;
    hide *;
    DivModEquation(n, p);
    assert (man + 2) * p == man * p + 2 * p;
    MulCancelLess(n / p, man + 2, p);
  }

  lemma TenDigitsAtMost(B: nat, x: Finite)
    requires IsWidth(B) && IsFinite(x) && B <= 32
    ensures |DecNumeral(I.Convert(B, x).man)| <= |DecNumeral(I.Convert(B, x).man + 1)| <= 10
  {
    I.ConvertBounds(B, x);
    WordBound(B);
    var man := I.Convert(B, x).man;
    assert man + 1 < Pow(10, 10);
    hide I.Convert, Numeral, Pow, IsFinite;
    NumeralLengthMonotone(man, man + 1);
    NumeralLength(man + 1, 10, 0);
    if |DecNumeral(man + 1)| > 10 { PowMonotone(10, 10, |DecNumeral(man + 1)| - 1); }
  }

  /**
   * The fused %f conversion. A number is written reversed at buf[0..len) exactly when it Fits, and
   * is then the text of Fused.Conversion; everything else is one of the three special texts.
   */
  method FtoaRev(B: nat, buf: array<char>, bits: nat, prec: nat, alt: bool, adj: nat, divisionFree: bool)
    returns (len: int)
    requires IsWidth(B) && bits < BIN_MODULUS && IsCase(adj) && buf.Length >= 23
    modifies buf
    ensures match Decode(bits)
            case NotANumber => len == -3 && buf[..3] == SpecialText(NAN, adj)
            case Infinity => len == -3 && buf[..3] == SpecialText(INF, adj)
            case Number(x) =>
              if Fits(B, buf.Length, x, prec, alt)
              then 0 <= len <= buf.Length && buf[..len] == Text(B, x, prec, alt)
              else len == -3 && buf[..3] == SpecialText(ERR, adj)
  {
    var ok: bool := false;
    match Decode(bits)
    case NotANumber =>
      len := FtoaSpecial(buf, adj, NAN);
    case Infinity =>
      len := FtoaSpecial(buf, adj, INF);
    case Number(x) =>
      TextIsLong(B, x, prec, alt);
      if prec <= buf.Length - 2 {
        ok, len := FiniteRev(B, buf, x, prec, alt, divisionFree);
      }
      if !ok {
        len := FtoaSpecial(buf, adj, ERR);
      }
  }

  method FiniteRev(B: nat, buf: array<char>, x: Finite, prec: nat, alt: bool, divisionFree: bool)
    returns (ok: bool, len: int)
    requires IsWidth(B) && IsFinite(x) && prec + 2 <= buf.Length
    modifies buf
    ensures ok <==> Fits(B, buf.Length, x, prec, alt)
    ensures ok ==> 0 <= len <= buf.Length && buf[..len] == Text(B, x, prec, alt)
  {
    len := 0;
    TextIsLong(B, x, prec, alt);
    var carry, dec, end;
    ok, carry, dec, end := IntegerPhase(B, buf, x, prec, alt, divisionFree);
    if !ok { return; }
    if I.HasFraction(B, x) {
      ok, len := RoundFraction(B, buf, x, prec, alt, end, divisionFree);
    } else {
      ok, len := RoundWhole(B, buf, x, prec, alt, carry, dec, end);
    }
  }

  /** All that rounding needs to know of the text t before it, which denotes n. */
  ghost predicate IsUnrounded(B: nat, f: Fraction, n: nat, t: seq<char>, up: bool)
    requires IsWidth(B)
  {
    && |t| >= 1 && IsDecimalText(t)
    && (t[0] == '.' ==> |t| > 1)
    && (if t[0] == '.' then t[1] else t[0]) as int % 2 == n % 2
    && (up <==> f.exp >= 0 && f.rem >= 8 * Unit(B) && (f.rem == 8 * Unit(B) ==> n % 2 == 1))
  }

  lemma RoundFacts(B: nat, x: Finite, prec: nat, alt: bool) returns (t: seq<char>, n: nat, up: bool)
    requires IsWidth(B) && IsFinite(x) && I.HasFraction(B, x)
    ensures t == Dec(FractionDigits(B, x, prec).digits, prec) + (PointText(prec, alt) + DecNumeral(I.Convert(B, x).man))
    ensures IsUnrounded(B, FractionDigits(B, x, prec), n, t, up)
    ensures IsDecimalText(t) && Text(B, x, prec, alt) == if up then Successor(t) else t
  {
    t, n := TruncatedText(B, x, prec, alt), Truncated(B, x, prec);
    var f := FractionDigits(B, x, prec);
    up := RoundsUp(B, f, n);
    TextParts(B, x, prec, alt);
    hide *;
    FractionText(B, x, prec, alt);
    TruncatedIsFixed(B, x, prec, alt);
    LastDigit(n, prec, alt);
    FixedIsNonempty(n, prec, prec > 0 || alt);
    UnroundedIs(B, f, n, t);
  }

  lemma FixedIsNonempty(n: nat, prec: nat, point: bool)
    ensures |Fixed(n, prec, point)| >= 1
  {
  }

  lemma TextParts(B: nat, x: Finite, prec: nat, alt: bool)
    requires IsWidth(B) && IsFinite(x) && I.HasFraction(B, x)
    ensures TruncatedText(B, x, prec, alt) ==
            Dec(FractionDigits(B, x, prec).digits, prec) + (PointText(prec, alt) + DecNumeral(I.Convert(B, x).man))
  {
    hide FractionDigits, I.Convert, Digits, Numeral;
  }

  lemma UnroundedIs(B: nat, f: Fraction, n: nat, t: seq<char>)
    requires IsWidth(B) && |t| >= 1 && IsDecimalText(t) && (t[0] == '.' ==> |t| > 1)
    requires (if t[0] == '.' then t[1] else t[0]) as int % 2 == n % 2
    ensures IsUnrounded(B, f, n, t, RoundsUp(B, f, n))
  {
  }

  method RoundFraction(B: nat, buf: array<char>, x: Finite, prec: nat, alt: bool, end: nat, divisionFree: bool)
    returns (ok: bool, len: int)
    requires IsWidth(B) && IsFinite(x) && I.HasFraction(B, x) && prec <= end <= buf.Length
    requires buf[prec..end] == PointText(prec, alt) + DecNumeral(I.Convert(B, x).man)
    modifies buf
    ensures ok <==> |Text(B, x, prec, alt)| <= buf.Length
    ensures ok ==> 0 <= len <= buf.Length && buf[..len] == Text(B, x, prec, alt)
  {
    ghost var f := FractionDigits(B, x, prec);
    hide *;
    ghost var t, n, up := RoundFacts(B, x, prec, alt);
    var exp, rem := FractionPhase(B, buf, x, prec, end, divisionFree);
    var carry := TieToEven(B, buf, exp, rem, f, t, n, up);
    ok, len := FinishFraction(buf, carry, end, t);
  }

  /** The code's rounding decision: the top bit, and for an exact half the last digit it wrote. */
  method TieToEven(B: nat, buf: array<char>, exp: int, rem: nat, ghost f: Fraction, ghost t: seq<char>,
      ghost n: nat, ghost up: bool)
    returns (carry: bool)
    requires IsWidth(B) && |t| <= buf.Length && buf[..|t|] == t
    requires exp == f.exp && rem == f.rem && IsUnrounded(B, f, n, t, up)
    ensures carry == up
  {
    carry := exp >= 0 && rem >= 8 * Unit(B);
    if rem == 8 * Unit(B) {
      assert buf[0] == t[0] && (|t| > 1 ==> buf[1] == t[1]);
      var lsd := buf[0];
      if lsd == '.' { lsd := buf[1]; }
      carry := carry && lsd as int % 2 == 1;
    }
  }

  method FinishFraction(buf: array<char>, carry: bool, end: nat, ghost t: seq<char>) returns (ok: bool, len: int)
    requires end <= buf.Length && buf[..end] == t && IsDecimalText(t)
    modifies buf
    ensures var r := if carry then Successor(t) else t;
            && (ok <==> |r| <= buf.Length)
            && (ok ==> 0 <= len <= buf.Length && buf[..len] == r)
  {
    ok, len := true, end;
    if carry {
      assert buf[0..end] == t;
      var end';
      ok, end' := RippleUp(buf, 0, end);
      len := end';
    }
  }

  method RoundWhole(B: nat, buf: array<char>, x: Finite, prec: nat, alt: bool, carry: nat, dec: nat, end: nat)
    returns (ok: bool, len: int)
    requires IsWidth(B) && IsFinite(x) && !I.HasFraction(B, x) && prec <= dec <= end <= buf.Length
    requires var i := I.Convert(B, x);
             && carry == i.carry && dec == Lead(B, x, prec, alt) && end == dec + |DecNumeral(i.man)|
             && buf[prec..end] == PointText(prec, alt) + Zeros(i.tens) + DecNumeral(i.man)
    modifies buf
    ensures ok <==> |Text(B, x, prec, alt)| <= buf.Length
    ensures ok ==> 0 <= len <= buf.Length && buf[..len] == Text(B, x, prec, alt)
  {
    ghost var head, digits := WholeFacts(B, x, prec, alt);
    hide *;
    ok, len := WholeTail(B, buf, prec, head, digits, carry != 0, dec, end);
  }

  /** The text of a whole number: what rounding leaves alone, and the digits it may count up. */
  lemma WholeFacts(B: nat, x: Finite, prec: nat, alt: bool) returns (head: seq<char>, digits: seq<char>)
    requires IsWidth(B) && IsFinite(x) && !I.HasFraction(B, x)
    ensures var i := I.Convert(B, x);
            && digits == DecNumeral(i.man) && IsDecimalText(digits)
            && |head| == Lead(B, x, prec, alt) && head[..prec] == Zeros(prec)
            && head[prec..] + digits == PointText(prec, alt) + Zeros(i.tens) + DecNumeral(i.man)
            && i.carry <= 1
            && Text(B, x, prec, alt) == head + if i.carry != 0 then Successor(digits) else digits
  {
    var i := I.Convert(B, x);
    IntegerText(B, x, prec, alt);
    I.ConvertBounds(B, x);
    hide I.Convert, I.Scale, Numeral, Text, Successor, IsDecimalText;
    SuccessorOfNumeral(i.man);
    head, digits := Zeros(prec) + (PointText(prec, alt) + Zeros(i.tens)), DecNumeral(i.man);
    assert head[prec..] == PointText(prec, alt) + Zeros(i.tens);
    assert head == Zeros(prec) + PointText(prec, alt) + Zeros(i.tens);
  }

  /** Zeros below the point, then the ripple over the integer digits alone. */
  method WholeTail(B: nat, buf: array<char>, prec: nat, ghost head: seq<char>, ghost digits: seq<char>,
      carry: bool, dec: nat, end: nat)
    returns (ok: bool, len: int)
    requires IsWidth(B) && prec <= dec <= end <= buf.Length && IsDecimalText(digits)
    requires |head| == dec && head[..prec] == Zeros(prec) && buf[prec..end] == head[prec..] + digits
    modifies buf
    ensures var t := head + if carry then Successor(digits) else digits;
            && (ok <==> |t| <= buf.Length)
            && (ok ==> 0 <= len <= buf.Length && buf[..len] == t)
  {
    hide *;
    ZeroPhase(B, buf, prec, end);
    assert buf[..end] == head + digits by { assert head == head[..prec] + head[prec..]; }
    assert buf[..dec] == buf[..end][..dec] == head;
    assert buf[dec..end] == buf[..end][dec..] == digits;
    ok, len := true, end;
    if carry {
      var end';
      ok, end' := RippleUp(buf, dec, end);
      len := end';
      if ok { assert buf[..end'] == buf[..dec] + buf[dec..end']; }
    }
  }
}
