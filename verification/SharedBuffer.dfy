/**
 * npf_etoa_rev over its buffer, up to the rounded digits: they are generated right-aligned at the
 * top of the buffer, one digit past what the precision needs, then cut and rounded in place.
 */
module SharedBuffer {
  import opened Arithmetic
  import opened Numerals
  import opened Doubles
  import opened DigitGeneration
  import opened Unsigned
  import opened DigitBuffer
  import opened Shared
  import opened SharedExact
  import I = IntegerPart
  import F = FractionPart

  /** The run as the loops hold it: its digits at s[end..], everything else in variables. */
  ghost predicate Holds(s: seq<char>, end: nat, dec: int, carry: nat, tail: bool, r: Run) {
    && end <= |s| && |s| - end == r.nsig && s[end..] == Dec(r.g, r.nsig)
    && dec == r.dec && carry == r.carry && tail == r.tail
  }

  // ---------------------------------------------------------------------------------------------
  // The integer digits.

  /** The integer scaling; its zeros are only counted here. */
  method IntegerScale(B: nat, x: Finite, divisionFree: bool) returns (s: I.Scaled)
    requires IsWidth(B) && IsFinite(x)
    ensures s == I.Convert(B, x)
  {
    s := I.Scaled(0, 0, 0);
    if x.exp >= 0 {
      I.StartFits(B, x);
      s := IntegerStart(B, x, divisionFree);
      var e: nat := I.Steps(B, x);
      while e > 0
        invariant I.IsState(B, s.man, s.carry)
        invariant I.Scale(B, s, e) == I.Convert(B, x)
      {
        I.StepIsWide(B, s);
        if s.man < 8 * Unit(B) {
          s := I.Scaled(2 * s.man + s.carry, 0, s.tens);
        } else {
          s := DivideStep(B, s, divisionFree);
        }
        e := e - 1;
      }
    }
  }

  /** The move to the top of the buffer: source and destination may overlap. */
  method MoveUp(buf: array<char>, k: nat)
    requires k <= buf.Length
    modifies buf
    ensures buf[buf.Length - k..] == old(buf[..k])
  {
    ghost var source, top := buf[..k], buf.Length - k;
    var i := 0;
    while i < k
      invariant 0 <= i <= k
      invariant forall j :: 0 <= j < k - i ==> buf[j] == source[j]
      invariant forall j :: buf.Length - i <= j < buf.Length ==> buf[j] == source[j - top]
    {
      buf[buf.Length - 1 - i] := buf[k - 1 - i];
      i := i + 1;
    }
  }

  /** The integer digits, emitted at buf[0..k) and then right-aligned. */
  method IntegerRun(B: nat, buf: array<char>, man: nat, fixed: bool, divisionFree: bool) returns (ok: bool, end: nat)
    requires IsWidth(B) && man < 16 * Unit(B) && IsCapacity(buf.Length)
    modifies buf
    ensures var n := IntegerDigits(man, fixed);
            && (ok <==> n <= buf.Length)
            && (ok ==> end == buf.Length - n && buf[end..] == Dec(man, n))
  {
    ok, end := true, buf.Length;
    if man > 0 || fixed {
      IntegerDigitsFit(B, man, fixed);
      hide Numeral, Digits, Unit, Pow;
      var k: nat;
      if B <= 32 {
        WordBound(B);
        TenDigits(man);
        k := UtoaRevEnd(man, buf, 0, 10, 0, divisionFree);
      } else {
        ok, k := EmitDigits(buf, man, 0);
        if !ok { return; }
      }
      assert buf[0..k] == buf[..k];
      MoveUp(buf, k);
      end := buf.Length - k;
    }
  }

  // ---------------------------------------------------------------------------------------------
  // The fraction digits.

  /** Base-2 to base-10 scaling; a zero is a digit only when an integer digit precedes it. */
  method ScaleRun(B: nat, buf: array<char>, start: F.Scaled, at: nat, b: Bound, ghost man: nat)
    returns (s: F.Scaled, end: nat, dec: int)
    requires IsWidth(B) && F.IsState(B, start) && start.zeros == 0 && start.exp <= 0
    requires at <= buf.Length && b.sig < buf.Length && b.stop < 0
    requires buf[at..] == Dec(man, buf.Length - at)
    modifies buf
    ensures var n := buf.Length - at;
            && s == F.Scale(B, start, Room(n, b)) && F.IsState(B, s)
            && end == at - (if n == 0 then 0 else s.zeros)
            && dec == 0 - s.zeros
            && buf[end..] == Dec(if n == 0 then man else Tenfold(man, s.zeros), buf.Length - end)
  {
    ghost var room := Room(buf.Length - at, b);
    s, end, dec := start, at, 0;
    TenfoldZero(man);
    var lo := buf.Length - b.sig - 1;
    while end > lo && dec > b.stop && s.exp < 4
      invariant F.IsState(B, s) && F.Scale(B, s, room) == F.Scale(B, start, room)
      invariant dec == 0 - s.zeros && 0 <= end == at - (if at == buf.Length then 0 else s.zeros)
      invariant buf[end..] == Dec(if at == buf.Length then man else Tenfold(man, s.zeros), buf.Length - end)
      decreases 4 - s.exp
    {
      F.StepIsWide(B, s);
      var t := ScaleStep(B, s);
      if t.zeros > s.zeros {
        dec := dec - 1;
        if at < buf.Length {
          PutLowest(buf, end, 0, Tenfold(man, s.zeros));
          TenfoldOnce(man, s.zeros);
          end := end - 1;
        }
      }
      s := t;
    }
  }

  /** Prepends one digit, of lower place, to the run at the top of the buffer. */
  method PutLowest(buf: array<char>, end: nat, d: nat, ghost g: nat)
    requires 0 < end <= buf.Length && d < 10 && buf[end..] == Dec(g, buf.Length - end)
    modifies buf
    ensures buf[end - 1..] == Dec(10 * g + d, buf.Length - end + 1)
  {
    hide Digits;
    assert buf[end..buf.Length] == buf[end..];
    PutFraction(buf, end, buf.Length, d, g);
    assert buf[end - 1..buf.Length] == buf[end - 1..];
  }

  /** One digit: the top four bits, which leave the mantissa. */
  method EmitOne(B: nat, buf: array<char>, m: nat, end: nat, ghost g: nat) returns (rest: nat, ghost g': nat)
    requires IsWidth(B) && m < 10 * Unit(B) && 0 < end <= buf.Length && buf[end..] == Dec(g, buf.Length - end)
    modifies buf
    ensures rest == m % Unit(B) && rest < Unit(B) && g' == 10 * g + m / Unit(B)
    ensures buf[end - 1..] == Dec(g', buf.Length - end + 1)
  {
    var unit := Unit(B);
    TopDigit(m, unit);
    hide *;
    PutLowest(buf, end, m / Unit(B), g);
    g' := 10 * g + m / Unit(B);
    rest := m % Unit(B);
  }

  /** The digits off the top of the mantissa, until it is exhausted or a bound is reached. */
  method EmitRun(B: nat, buf: array<char>, man: nat, at: nat, from: int, b: Bound, ghost g0: nat)
    returns (rem: nat, end: nat, dec: int, ghost g: nat)
    requires IsWidth(B) && man < 10 * Unit(B) && at <= buf.Length && b.sig < buf.Length
    requires at > buf.Length - b.sig - 1 && from > b.stop
    requires buf[at..] == Dec(g0, buf.Length - at)
    modifies buf
    ensures var r := Generate(B, man, g0, 0, Min(at - (buf.Length - b.sig - 1), from - b.stop), false);
            && rem == r.rem && g == r.g && dec == from - r.count && 0 <= end == at - r.count
            && buf[end..] == Dec(g, buf.Length - end)
  {
    var lo := buf.Length - b.sig - 1;
    ghost var limit: nat := Min(at - lo, from - b.stop);
    ghost var result := Generate(B, man, g0, 0, limit, false);
    hide Generate, Digits, Unit;
    var m: nat := man;
    var more := true;
    end, dec, g := at, from, g0;
    while more
      invariant lo <= end <= at && dec - from == end - at
      invariant more ==> at - end < limit && m < 10 * Unit(B) && Generate(B, m, g, at - end, limit, false) == result
      invariant !more ==> m < Unit(B) && result == Generated(g, at - end, 16 * m)
      invariant buf[end..] == Dec(g, buf.Length - end)
      decreases more, end
    {
      GenerateUnfolds(B, m, g, at - end, limit, false);
      m, g := EmitOne(B, buf, m, end, g);
      end, dec := end - 1, dec - 1;
      if m == 0 || end <= lo || dec <= b.stop {
        more := false;
      } else {
        m := m * 10;
      }
    }
    rem := m * 16;
  }

  /** The fraction behind n integer digits of man. */
  method FractionRun(B: nat, buf: array<char>, x: Finite, at: nat, b: Bound, divisionFree: bool, ghost man: nat)
    returns (end: nat, dec: int, carry: nat, tail: bool)
    requires IsWidth(B) && IsFinite(x) && I.HasFraction(B, x) && IsBound(b) && b.sig < buf.Length && at <= buf.Length
    requires man == I.Convert(B, x).man && buf.Length - at == IntegerDigits(man, b.fixed)
    requires buf[at..] == Dec(man, buf.Length - at)
    modifies buf
    ensures Holds(buf[..], end, dec, carry, tail, GenerateRun(B, x, b))
  {
    F.StartFits(B, x);
    var start := FractionStart(B, x, divisionFree);
    end, dec, carry, tail := at, 0, 0, true;
    if start.man != 0 || start.carry != 0 {
      ScaledState(B, x, b);
      assert b.stop < 0;
      var s;
      s, end, dec := ScaleRun(B, buf, start, at, b, man);
      end, dec, carry, tail := FinishRun(B, buf, s, end, dec, b, man, buf.Length - at);
    }
  }

  method FinishRun(B: nat, buf: array<char>, s: F.Scaled, at: nat, from: int, b: Bound, ghost man: nat, ghost n: nat)
    returns (end: nat, dec: int, carry: nat, tail: bool)
    requires IsWidth(B) && CanFinish(B, man, n, s, b) && b.sig < buf.Length && at <= buf.Length
    requires from == 0 - s.zeros && n <= buf.Length && at == buf.Length - n - if n == 0 then 0 else s.zeros
    requires buf[at..] == Dec(if n == 0 then man else Tenfold(man, s.zeros), buf.Length - at)
    modifies buf
    ensures Holds(buf[..], end, dec, carry, tail, Finish(B, man, n, s, b))
  {
    if n == 0 { NothingBefore(man, s.zeros); }
    var lo := buf.Length - b.sig - 1;
    var rem := Nudged(B, s);
    end, dec := at, from;
    if end > lo && dec > b.stop {
      NudgeIsPlain(B, s);
      ghost var g;
      rem, end, dec, g := EmitRun(B, buf, rem, at, from, b, Tenfold(man, s.zeros));
    }
    carry := if s.exp >= 0 && rem >= 8 * Unit(B) then 1 else 0;
    tail := rem == 0;
  }

  lemma NothingBefore(man: nat, z: nat)
    requires man < Pow(10, 0)
    ensures man == 0 == Tenfold(man, z)
  {
    assert Pow(10, 0) == 1;
  }

  /** The digit run of either style; it fails only when the integer digits overrun the buffer. */
  method GenerateDigits(B: nat, buf: array<char>, x: Finite, b: Bound, divisionFree: bool)
    returns (ok: bool, end: nat, dec: int, carry: nat, tail: bool)
    requires IsWidth(B) && IsFinite(x) && IsBound(b) && b.sig < buf.Length && IsCapacity(buf.Length)
    modifies buf
    ensures ok <==> IntegerDigits(I.Convert(B, x).man, b.fixed) <= buf.Length
    ensures ok ==> Holds(buf[..], end, dec, carry, tail, GenerateRun(B, x, b))
  {
    I.ConvertBounds(B, x);
    var i := IntegerScale(B, x, divisionFree);
    ok, end := IntegerRun(B, buf, i.man, b.fixed, divisionFree);
    dec, carry, tail := i.tens, i.carry, x.exp <= ShiftBits(B);
    if ok && I.HasFraction(B, x) {
      end, dec, carry, tail := FractionRun(B, buf, x, end, b, divisionFree, i.man);
    }
  }

  // ---------------------------------------------------------------------------------------------
  // Cutting the run and rounding it.

  /** No digits at all means zero: one '0' at exponent 0. */
  method FixZero(buf: array<char>, at: nat, from: int, carry0: nat, tail: bool, ghost r: Run)
    returns (end: nat, dec: int, carry: nat)
    requires Holds(buf[..], at, from, carry0, tail, r) && buf.Length > 0
    modifies buf
    ensures Holds(buf[..], end, dec, carry, tail, OrZero(r))
  {
    end, dec, carry := at, from, carry0;
    if at == buf.Length {
      PutLowest(buf, end, 0, 0);
      assert buf[..][end - 1..] == Dec(0, 1);
      end, dec, carry := end - 1, 0, 0;
    }
  }

  lemma ZeroDigits(g: nat, k: nat)
    ensures Dec(g, k) == Zeros(k) <==> Low(g, k) == 0
  {
    DigitsMod(g, k);
    DigitsOfZero(k);
    DigitsValue(g, k, 10, 0);
    DigitsValue(0, k, 10, 0);
    hide Digits, Value, Zeros;
    DivModUnique(0, Pow(10, k), 0, 0);
  }

  /** The digit at place drop-1 and everything under it, in terms of the number. */
  lemma GuardParts(g: nat, drop: nat)
    requires drop > 0
    ensures var guard, below := High(Low(g, drop), drop - 1), Low(Low(g, drop), drop - 1);
            guard == High(g, drop - 1) % 10 && below == Low(g, drop - 1)
  {
    var p, kept, guard, below := Pow(10, drop - 1), High(g, drop), High(Low(g, drop), drop - 1), Low(Low(g,
        drop), drop - 1);
    SplitDigits(g, drop);
    DivModUnique(g, p, kept * 10 + guard, below);
  }

  /** What the buffer shows of the digits to be dropped, and what it keeps. */
  lemma DroppedDigits(g: nat, nsig: nat, drop: nat)
    requires 0 < drop < nsig
    ensures var s := Dec(g, nsig);
            var guard, below := High(Low(g, drop), drop - 1), Low(Low(g, drop), drop - 1);
            && s[drop..] == Dec(High(g, drop), nsig - drop)
            && guard < 10 && s[drop - 1] == DigitChar(guard, 0)
            && (s[..drop - 1] == Zeros(drop - 1) <==> below == 0)
  {
    GuardParts(g, drop);
    DigitsSplit(g, drop, nsig - drop);
    DigitsSplit(g, drop - 1, nsig - drop + 1);
    ZeroDigits(g, drop - 1);
    assert Dec(High(g, drop - 1), nsig - drop + 1)[0] == DigitChar(High(g, drop - 1) % 10, 0);
    hide Digits, Pow, DigitChar, Low;
  }

  lemma LowestParity(g: nat, n: nat)
    requires n >= 1
    ensures Dec(g, n)[0] as int % 2 == g % 2
  {
    assert Dec(g, n)[0] == DigitChar(g % 10, 0);
    hide *;
    DigitParity(g % 10);
  }

  /** Drops the excess digits; the first of them decides the rounding, the others only a tie. */
  method DropDigits(buf: array<char>, at: nat, from: int, carry0: nat, tail0: bool, drop: int, ghost r: Run)
    returns (end: nat, dec: int, carry: nat, tail: bool)
    requires Holds(buf[..], at, from, carry0, tail0, r) && drop < r.nsig
    ensures Holds(buf[..], end, dec, carry, tail, Drop(r, drop))
  {
    end, dec, carry, tail := at, from, carry0, tail0;
    if drop > 0 {
      ghost var s := buf[at..];
      assert buf[..][at..] == s;
      DroppedDigits(r.g, r.nsig, drop);
      LowestParity(High(r.g, drop), r.nsig - drop);
      hide Digits, High, Low;
      dec, end := dec + drop, at + drop;
      assert buf[..][end..] == s[drop..] && buf[end - 1] == s[drop - 1] && buf[end] == s[drop..][0];
      carry := if buf[end - 1] >= '5' then 1 else 0;
      if buf[end - 1] == '5' {
        assert buf[at..end - 1] == s[..drop - 1];
        tail := OnlyZeros(buf, at, end - 1, tail0);
        if tail { carry := buf[end] as int % 2; }
      }
    }
  }

  method OnlyZeros(buf: array<char>, from: nat, to: nat, tail0: bool) returns (tail: bool)
    requires from <= to <= buf.Length
    ensures tail <==> tail0 && buf[from..to] == Zeros(to - from)
  {
    tail := tail0;
    var i := from;
    while tail && i < to
      invariant from <= i <= to
      invariant tail <==> tail0 && forall j :: from <= j < i ==> buf[j] == '0'
    {
      tail := buf[i] == '0';
      i := i + 1;
    }
    if tail { assert buf[from..to] == Zeros(to - from); }
  }

  /** The ripple ended at a digit below nine: the run counts one more. */
  lemma RippledRun(g: nat, n: nat, j: nat, t: seq<char>)
    requires g < Pow(10, n) && j < n && IsRippled(Dec(g, n), j, t)
    ensures t == Dec(g + 1, n) && g + 1 < Pow(10, n)
  {
    DigitsAreText(g, n);
    RippledIsSuccessor(Dec(g, n), j, t);
    SuccessorOfDigits(g, n, []);
    AllNinesWraps(g, n);
    hide Digits, IsRippled, Pow, AllNines;
    assert Dec(g, n) + [] == Dec(g, n);
    assert Dec(g + 1, n) + [] == Dec(g + 1, n);
    if g + 1 == Pow(10, n) { DivModUnique(g + 1, Pow(10, n), 1, 0); }
  }

  /** The ripple passed every digit: they were nines, and are the zeros behind a new leading one. */
  lemma PassedRun(g: nat, n: nat, t: seq<char>)
    requires g < Pow(10, n) && n >= 1 && IsPassed(Dec(g, n), n, t)
    ensures g + 1 == Pow(10, n) && t[..n - 1] + ['1'] == Dec(Pow(10, n - 1), n)
  {
    DigitsAreText(g, n);
    assert t == Zeros(n);
    NoRoom(Dec(g, n), t);
    SuccessorOfDigits(g, n, []);
    AllNinesWraps(g, n);
    hide IsPassed, AllNines;
    assert Dec(g, n) + [] == Dec(g, n);
    assert Dec(g + 1, n) + [] == Dec(g + 1, n);
    if g + 1 < Pow(10, n) { DivModUnique(g + 1, Pow(10, n), 0, g + 1); }
    DigitsShift(1, n - 1, 1);
    assert 1 * Pow(10, n - 1) == Pow(10, n - 1);
    assert Dec(1, 1) == ['1'] by { assert Dec(1, 1) == [DigitChar(1, 0)] + Dec(0, 0); }
    assert Zeros(n)[..n - 1] == Zeros(n - 1);
  }

  /** The rounding ripple, which keeps the number of digits and moves the exponent instead. */
  method RoundDigits(buf: array<char>, end: nat, from: int, carry0: nat, tail: bool, ghost r: Run) returns (dec: int)
    requires Holds(buf[..], end, from, carry0, tail, r) && IsRun(r) && r.nsig >= 1
    modifies buf
    ensures Holds(buf[..], end, dec, 0, tail, Round(r))
  {
    ghost var s, n := buf[end..], r.nsig;
    assert buf[..][end..] == s;
    hide Digits;
    dec := from;
    var i, carry := end, carry0 != 0;
    while carry
      invariant end <= i <= buf.Length && dec == from
      invariant carry ==> carry0 == 1 && IsPassed(s, i - end, buf[end..])
      invariant !carry && carry0 == 0 ==> buf[end..] == s
      invariant !carry && carry0 == 1 ==> end < i && IsRippled(s, i - 1 - end, buf[end..])
      decreases carry, buf.Length - i
    {
      ghost var t := buf[end..];
      if i == buf.Length {
        PassedRun(r.g, n, t);
        buf[buf.Length - 1] := '1';
        assert buf[..][end..] == t[..n - 1] + ['1'];
        dec := dec + 1;
        return;
      }
      assert buf[i] == t[i - end] == s[i - end];
      DigitsAreText(r.g, n);
      if buf[i] == '9' {
        buf[i] := '0';
        assert buf[end..] == t[i - end := '0'];
      } else {
        buf[i] := (buf[i] as int + 1) as char;
        carry := false;
        assert buf[end..] == t[i - end := (s[i - end] as int + 1) as char];
      }
      i := i + 1;
    }
    assert buf[..][end..] == buf[end..];
    if carry0 == 1 { RippledRun(r.g, n, i - 1 - end, buf[end..]); }
  }

  /** The rounded run of either style. */
  function Rounded(B: nat, x: Finite, b: Bound): Run
    requires IsWidth(B) && IsFinite(x) && IsBound(b)
  {
    KeptShape(B, x, b);
    Round(Kept(B, x, b))
  }

  method RoundedRun(B: nat, buf: array<char>, x: Finite, b: Bound, divisionFree: bool)
    returns (ok: bool, end: nat, dec: int, ghost tail: bool)
    requires IsWidth(B) && IsFinite(x) && IsBound(b) && b.sig < buf.Length && IsCapacity(buf.Length)
    modifies buf
    ensures ok <==> IntegerDigits(I.Convert(B, x).man, b.fixed) <= buf.Length
    ensures ok ==> Holds(buf[..], end, dec, 0, tail, Rounded(B, x, b))
  {
    ghost var k := CutOf(B, x, b);
    hide *;
    tail := true;
    var carry, tl;
    ok, end, dec, carry, tl := GenerateDigits(B, buf, x, b, divisionFree);
    if ok {
      end, dec, tail := CutAndRound(buf, end, dec, carry, tl, b, GenerateRun(B, x, b), k);
    }
  }

  /** k is what is left of a generated run once it is cut to its bound. */
  ghost predicate CutsTo(g: Run, b: Bound, k: Run) {
    var r := OrZero(g);
    && r.nsig >= 1 && IsRun(r) && Excess(r, b) < r.nsig
    && k == Drop(r, Excess(r, b)) && IsRun(k) && k.nsig >= 1
  }

  lemma CutOf(B: nat, x: Finite, b: Bound) returns (k: Run)
    requires IsWidth(B) && IsFinite(x) && IsBound(b)
    ensures CutsTo(GenerateRun(B, x, b), b, k) && k.nsig >= 1 && Rounded(B, x, b) == Round(k)
  {
    k := Kept(B, x, b);
    RunShape(B, x, b);
    KeptShape(B, x, b);
    var r := OrZero(GenerateRun(B, x, b));
    if GenerateRun(B, x, b).nsig == 0 { assert Pow(10, 1) == 10; }
    hide GenerateRun, Drop, Round, IsFinite, HasLead, I.Convert;
  }

  method CutAndRound(buf: array<char>, at: nat, from: int, carry0: nat, tail0: bool, b: Bound, ghost g: Run,
      ghost k: Run)
    returns (end: nat, dec: int, ghost tail: bool)
    requires Holds(buf[..], at, from, carry0, tail0, g) && CutsTo(g, b, k) && buf.Length > 0 && k.nsig >= 1
    modifies buf
    ensures Holds(buf[..], end, dec, 0, tail, Round(k))
  {
    ghost var r := OrZero(g);
    hide Drop, OrZero, Round, IsRun, Digits;
    var carry, tl;
    end, dec, carry := FixZero(buf, at, from, carry0, tail0, g);
    var drop := if b.fixed then b.stop + 1 - dec else buf.Length - end - b.sig;
    end, dec, carry, tl := DropDigits(buf, end, dec, carry, tail0, drop, r);
    dec := RoundDigits(buf, end, dec, carry, tl, k);
    tail := tl;
  }
}
