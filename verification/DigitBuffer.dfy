/** The steps on numbers and on the buffer that the two decimal conversions have in common. */
module DigitBuffer {
  import opened Arithmetic
  import opened Numerals
  import opened Doubles
  import opened Unsigned
  import I = IntegerPart
  import F = FractionPart

  /** The cut of the integer part, its shift made in either form. */
  method IntegerStart(B: nat, x: Finite, divisionFree: bool) returns (s: I.Scaled)
    requires IsWidth(B) && IsFinite(x) && x.exp >= 0
    ensures s == I.Start(B, x)
  {
    var shift := MAN_BITS - Min(x.exp, ShiftBits(B));
    if shift > 0 {
      var b := BinShr(x.bin, shift - 1, divisionFree);
      s := I.Scaled(b / 2, b % 2, 0);
    } else {
      s := I.Scaled(x.bin, 0, 0);
    }
  }

  /** The cut of the fraction: the bits of the integer part leave the word. */
  method FractionStart(B: nat, x: Finite, divisionFree: bool) returns (s: F.Scaled)
    requires IsWidth(B) && IsFinite(x) && x.exp < MAN_BITS
    ensures s == F.Start(B, x)
  {
    var shift := if x.exp < 0 then -1 else x.exp;
    var bits := BinShl(x.bin, BIN_BITS - MAN_BITS + shift, divisionFree);
    hide Pow;
    if B < BIN_BITS {
      s := F.Scaled(Shr(bits, BIN_BITS - B), Shr(bits, BIN_BITS - B - 1) % 2, x.exp - shift, false, 0);
    } else {
      s := F.Scaled(Shl(bits, B - BIN_BITS), 0, x.exp - shift, false, 0);
    }
  }

  /** The division step of the integer scaling, in either of its two forms. */
  method DivideStep(B: nat, s: I.Scaled, divisionFree: bool) returns (t: I.Scaled)
    requires IsWidth(B) && I.IsState(B, s.man, s.carry) && s.man >= 8 * Unit(B)
    ensures t == I.Step(B, s)
  {
    var q, c;
    if divisionFree && B <= 32 {
      WordBound(B);
      q, c := DivideByFiveDivisionFree(s.man, s.carry);
    } else {
      q, c := DivideByFive(s.man, s.carry);
    }
    t := I.Scaled(q, c, s.tens + 1);
  }

  lemma WordBound(B: nat)
    requires IsWidth(B) && B <= 32
    ensures 16 * Unit(B) <= TWO32 && TWO32 < Pow(10, 10)
  {
    UnitPowers(B);
    assert Pow(2, 4) == 16 && Pow(10, 2) == 100 && Pow(10, 4) == 10000;
    hide *;
    PowAdd(2, 4, 4);
    PowAdd(2, 8, 8);
    PowAdd(2, 16, 16);
    PowMonotone(2, B, 32);
    PowAdd(10, 4, 4);
    PowAdd(10, 8, 2);
  }

  /** One step: halve, or multiply by five and count the place passed or the digit prepared. */
  method ScaleStep(B: nat, s: F.Scaled) returns (t: F.Scaled)
    requires IsWidth(B) && F.IsState(B, s) && s.exp < 4
    ensures t == F.Step(B, s)
  {
    if s.man > F.Threshold(B) || s.digit {
      t := s.(carry := s.man % 2, man := s.man / 2, exp := s.exp + 1);
    } else {
      var man := s.man * 5;
      if s.carry != 0 { man := man + 3; }
      F.ThresholdFits(B);
      DivModUnique(man, 16 * Unit(B), 0, man);
      if s.exp < 0 {
        t := F.Scaled(man, 0, s.exp + 1, s.digit, s.zeros + 1);
      } else {
        t := F.Scaled(man, 0, s.exp + 1, true, s.zeros);
      }
    }
  }

  lemma TopDigit(m: nat, u: nat)
    requires u > 0 && m < 10 * u
    ensures m / u < 10 && m % u < u
  {
    DivModEquation(m, u);
    MulCancelLess(m / u, 10, u);
  }

  // ---------------------------------------------------------------------------------------------
  // Digits in the buffer.

  /** Prepends one digit, of lower place, to the run of digits at buf[at..prec). */
  method PutFraction(buf: array<char>, at: nat, prec: nat, d: nat, ghost g: nat)
    requires 0 < at <= prec <= buf.Length && d < 10
    requires buf[at..prec] == Dec(g, prec - at)
    modifies buf
    ensures buf[at - 1..prec] == Dec(10 * g + d, prec - at + 1)
    ensures buf[prec..] == old(buf[prec..])
  {
    DecDigit(g, d, prec - at);
    hide Digits, DigitChar;
    buf[at - 1] := DigitChar(d, 0);
    assert buf[at - 1..prec] == [DigitChar(d, 0)] + old(buf[at..prec]);
  }

  lemma TenDigits(man: nat)
    requires man < Pow(10, 10)
    ensures |DecNumeral(man)| <= 10
  {
    NumeralLength(man, 10, 0);
    hide *;
    if |DecNumeral(man)| > 10 { PowMonotone(10, 10, |DecNumeral(man)| - 1); }
  }

  /** A conversion integer wider than the unsigned type is emitted in place, digit by digit. */
  method EmitDigits(buf: array<char>, man: nat, at: nat) returns (ok: bool, end: nat)
    requires at <= buf.Length
    modifies buf
    ensures ok <==> at + |DecNumeral(man)| <= buf.Length
    ensures ok ==> end == at + |DecNumeral(man)| && buf[at..end] == DecNumeral(man)
    ensures buf[..at] == old(buf[..at])
    ensures forall i :: at + |DecNumeral(man)| <= i < buf.Length ==> buf[i] == old(buf[i])
  {
    ghost var text := DecNumeral(man);
    var v: nat := man;
    var more := true;
    end := at;
    while more
      invariant at <= end <= buf.Length
      invariant buf[at..end] + (if more then DecNumeral(v) else []) == text
      invariant buf[..at] == old(buf[..at])
      invariant forall i :: end <= i < buf.Length ==> buf[i] == old(buf[i])
      decreases more, v
    {
      if end >= buf.Length {
        ok := false;
        return;
      }
      NumeralUnfolds(v, 10, 0);
      PutDigit(buf, at, end, v % 10, 0, DecNumeral(v), text);
      end := end + 1;
      v := v / 10;
      more := v != 0;
    }
    ok := true;
  }

  // ---------------------------------------------------------------------------------------------
  // The rounding ripple.

  /** What the ripple leaves: zeros for the nines it passed, points kept, one digit raised. */
  ghost predicate IsRippled(s: seq<char>, j: nat, r: seq<char>) {
    && j <= |s| && |r| == Max(|s|, j + 1)
    && (forall k :: 0 <= k < j ==> (s[k] == '9' && r[k] == '0') || (s[k] == '.' && r[k] == '.'))
    && (if j < |s| then '0' <= s[j] < '9' && r[j] as int == s[j] as int + 1 else r[j] == '1')
    && (forall k :: j < k < |s| ==> r[k] == s[k])
  }

  lemma {:induction false} RippledIsSuccessor(s: seq<char>, j: nat, r: seq<char>)
    requires IsDecimalText(s) && IsRippled(s, j, r)
    ensures Successor(s) == r
  {
    if j == 0 {
      if s != [] { assert r == [(s[0] as int + 1) as char] + s[1..]; }
    } else {
      assert forall k :: 0 <= k < |r| - 1 ==> r[1..][k] == r[k + 1];
      assert forall k :: 0 <= k < |s| - 1 ==> s[1..][k] == s[k + 1];
      RippledIsSuccessor(s[1..], j - 1, r[1..]);
      assert r == [r[0]] + r[1..];
    }
  }

  /** Part of the way up: j characters passed, the others untouched. */
  ghost predicate IsPassed(s: seq<char>, j: nat, t: seq<char>) {
    && j <= |s| == |t|
    && (forall k :: 0 <= k < j ==> (s[k] == '9' && t[k] == '0') || (s[k] == '.' && t[k] == '.'))
    && (forall k :: j <= k < |s| ==> t[k] == s[k])
  }

  lemma NoRoom(s: seq<char>, t: seq<char>)
    requires IsPassed(s, |s|, t)
    ensures IsDecimalText(s) && |Successor(s)| == |s| + 1
  {
    RippledIsSuccessor(s, |s|, t + ['1']);
  }

  lemma NothingPassed(s: seq<char>)
    ensures IsPassed(s, 0, s)
  {
  }

  /** Passing a point or a nine, and stopping at any other digit or behind the last one. */
  lemma PassedMore(s: seq<char>, j: nat, t: seq<char>)
    requires IsPassed(s, j, t) && j < |s| && IsDecimalText(s)
    ensures t[j] == s[j]
    ensures s[j] == '.' ==> IsPassed(s, j + 1, t)
    ensures s[j] == '9' ==> IsPassed(s, j + 1, t[j := '0'])
    ensures s[j] != '.' && s[j] != '9' ==> '0' <= s[j] < '9' && IsRippled(s, j, t[j := (s[j] as int + 1) as char])
  {
  }

  lemma PassedAll(s: seq<char>, t: seq<char>)
    requires IsPassed(s, |s|, t)
    ensures IsRippled(s, |s|, t + ['1'])
  {
  }
}
