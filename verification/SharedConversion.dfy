/** npf_etoa_rev as a whole: what %f, %e and %g leave in the buffer, for every input. */
module SharedConversion {
  import opened Arithmetic
  import opened Numerals
  import opened DecimalText
  import opened Doubles
  import opened Specials
  import opened Shared
  import opened Shortest
  import opened SharedBuffer
  import opened SharedLayout
  import I = IntegerPart

  datatype Conversion = FloatF | FloatE | FloatG

  datatype Output = Printed(text: seq<char>) | TooLong

  /** The integer digits alone overrun the buffer; only a conversion integer of over 72 bits can. */
  predicate Overruns(B: nat, C: nat, x: Finite)
    requires IsWidth(B)
  {
    IntegerDigits(I.Convert(B, x).man, false) > C
  }

  predicate Clobbers(B: nat, C: nat, x: Finite, prec: nat, alt: bool)
    requires IsWidth(B) && IsFinite(x) && IsCapacity(C)
  {
    var r := Rounded(B, x, FixedBound(C, prec));
    PointLandsOnDigit(C, r.nsig, r.dec, prec, prec > 0 || alt)
  }

  function FixedOutput(B: nat, C: nat, x: Finite, prec: nat, alt: bool): Output
    requires IsWidth(B) && IsFinite(x) && IsCapacity(C)
  {
    var t := Fixed(FixedConversion(B, C, x, prec), prec, prec > 0 || alt);
    if Overruns(B, C, x) || |t| > C then TooLong
    else Printed(if Clobbers(B, C, x, prec, alt) then t[0 := '.'] else t)
  }

  /** The run r in style e with pe digits after the point. */
  function ScientificText(r: Run, pe: nat, alt: bool, x: int, adj: nat): seq<char>
    requires IsCase(adj) && r.nsig <= pe + 1
  {
    Scientific(Tenfold(r.g, pe + 1 - r.nsig), pe, pe > 0 || alt, x, adj)
  }

  function ScientificOutput(B: nat, C: nat, x: Finite, prec: nat, alt: bool, adj: nat): Output
    requires IsWidth(B) && IsFinite(x) && IsCapacity(C) && IsCase(adj)
  {
    if prec + 1 > C - 7 || Overruns(B, C, x) then TooLong
    else
      SignificantShape(B, x, prec + 1);
      var r := Significant(B, x, prec + 1);
      Printed(ScientificText(r, prec, alt, r.dec + r.nsig - 1, adj))
  }

  function ShortestOutput(B: nat, C: nat, x: Finite, prec: nat, alt: bool, adj: nat): Output
    requires IsWidth(B) && IsFinite(x) && IsCapacity(C) && IsCase(adj)
  {
    var sig := Precision(prec);
    if sig > C - 7 || Overruns(B, C, x) then TooLong
    else
      SignificantShape(B, x, sig);
      match Choose(Significant(B, x, sig), sig, !alt)
      case F(fp) => FixedOutput(B, C, x, fp, alt)
      case E(run, pe, e) => Printed(ScientificText(run, pe, alt, e, adj))
  }

  function FiniteOutput(B: nat, C: nat, x: Finite, conv: Conversion, prec: nat, alt: bool, adj: nat): Output
    requires IsWidth(B) && IsFinite(x) && IsCapacity(C) && IsCase(adj)
  {
    match conv
    case FloatF => FixedOutput(B, C, x, prec, alt)
    case FloatE => ScientificOutput(B, C, x, prec, alt, adj)
    case FloatG => ShortestOutput(B, C, x, prec, alt, adj)
  }

  // ---------------------------------------------------------------------------------------------
  // %f

  lemma RoundedFixed(B: nat, C: nat, x: Finite, prec: nat)
    requires IsWidth(B) && IsFinite(x) && IsCapacity(C)
    ensures var r := Rounded(B, x, FixedBound(C, prec));
            && IsLaidOut(r.g, r.nsig, r.dec, prec)
            && Tenfold(r.g, r.dec + prec) == FixedConversion(B, C, x, prec)
  {
    var k := Kept(B, x, FixedBound(C, prec));
    KeptShape(B, x, FixedBound(C, prec));
    RoundShape(k);
    FixedOfKept(B, C, x, prec);
    assert k.nsig >= 1 && k.dec + prec >= 0 && k.dec + k.nsig >= 1 && (HasLead(k) || k.dec + k.nsig == 1);
    assert Rounded(B, x, FixedBound(C, prec)) == Round(k);
    hide Kept, Pow, IsFinite, Round, Rounded, FixedConversion, Tenfold;
    var r := Round(k);
    if r.dec > k.dec { TenfoldUp(r.g, k.g + k.carry, k.dec + prec); }
  }

  lemma FixedOfKept(B: nat, C: nat, x: Finite, prec: nat)
    requires IsWidth(B) && IsFinite(x) && IsCapacity(C)
    ensures var k := Kept(B, x, FixedBound(C, prec));
            k.dec + prec >= 0 ==> FixedConversion(B, C, x, prec) == Tenfold(k.g + k.carry, k.dec + prec)
  {
    hide Kept, Tenfold;
  }

  lemma TenfoldUp(g: nat, g': nat, k: nat)
    requires g * 10 == g'
    ensures Tenfold(g, k + 1) == Tenfold(g', k)
  {
    TenfoldOnce(g, k);
    assert g' * Pow(10, k) == 10 * (g * Pow(10, k));
  }

  lemma OverrunsFixed(B: nat, C: nat, x: Finite)
    requires IsWidth(B) && IsFinite(x) && IsCapacity(C)
    ensures IntegerDigits(I.Convert(B, x).man, true) > C <==> Overruns(B, C, x)
  {
    if I.Convert(B, x).man == 0 { OneDigit(0); }
  }

  method FixedPass(B: nat, buf: array<char>, x: Finite, prec: nat, alt: bool, divisionFree: bool)
    returns (ok: bool, len: int)
    requires IsWidth(B) && IsFinite(x) && IsCapacity(buf.Length) && prec <= buf.Length - 2
    modifies buf
    ensures match FixedOutput(B, buf.Length, x, prec, alt)
            case Printed(t) => ok && len == |t| <= buf.Length && buf[..|t|] == t
            case TooLong => !ok
  {
    ghost var r := Rounded(B, x, FixedBound(buf.Length, prec));
    FixedOutputIs(B, buf.Length, x, prec, alt);
    OverrunsFixed(B, buf.Length, x);
    var b := FixedBound(buf.Length, prec);
    hide Rounded, Overruns, FixedOutput, FixedLayout, Digits, IsFinite, PointLandsOnDigit, IntegerDigits, I.Convert;
    var end, dec;
    ghost var tail;
    len := 0;
    ok, end, dec, tail := RoundedRun(B, buf, x, b, divisionFree);
    if ok {
      assert buf[end..] == buf[..][end..];
      ok, len := LayFixed(buf, end, dec, prec, alt);
    }
  }

  /** The output in terms of the run's digits and their layout. */
  lemma FixedOutputIs(B: nat, C: nat, x: Finite, prec: nat, alt: bool)
    requires IsWidth(B) && IsFinite(x) && IsCapacity(C)
    ensures var r, point := Rounded(B, x, FixedBound(C, prec)), prec > 0 || alt;
            && r.nsig >= 1 && r.dec + prec >= 0 && r.dec + r.nsig >= 1
            && var t := FixedLayout(Dec(r.g, r.nsig), r.dec, prec, point);
               FixedOutput(B, C, x, prec, alt) ==
               if Overruns(B, C, x) || |t| > C then TooLong
               else Printed(if PointLandsOnDigit(C, r.nsig, r.dec, prec, point) then t[0 := '.'] else t)
  {
    RoundedLayout(B, C, x, prec, alt);
    FixedOutputUnfolds(B, C, x, prec, alt);
    hide *;
  }

  lemma RoundedLayout(B: nat, C: nat, x: Finite, prec: nat, alt: bool)
    requires IsWidth(B) && IsFinite(x) && IsCapacity(C)
    ensures var r, point := Rounded(B, x, FixedBound(C, prec)), prec > 0 || alt;
            && r.nsig >= 1 && r.dec + prec >= 0 && r.dec + r.nsig >= 1
            && FixedLayout(Dec(r.g, r.nsig), r.dec, prec, point) == Fixed(FixedConversion(B, C, x, prec), prec, point)
  {
    RoundedFixed(B, C, x, prec);
    LayoutOfRun(Rounded(B, x, FixedBound(C, prec)), FixedConversion(B, C, x, prec), prec, alt);
    hide *;
  }

  lemma LayoutOfRun(r: Run, n: nat, prec: nat, alt: bool)
    requires IsLaidOut(r.g, r.nsig, r.dec, prec) && Tenfold(r.g, r.dec + prec) == n
    ensures r.nsig >= 1 && r.dec + prec >= 0 && r.dec + r.nsig >= 1
    ensures FixedLayout(Dec(r.g, r.nsig), r.dec, prec, prec > 0 || alt) == Fixed(n, prec, prec > 0 || alt)
  {
    FixedLayoutIs(r.g, r.nsig, r.dec, prec, prec > 0 || alt);
    hide Tenfold, FixedLayout, Fixed, Digits, Pow;
  }

  lemma FixedOutputUnfolds(B: nat, C: nat, x: Finite, prec: nat, alt: bool)
    requires IsWidth(B) && IsFinite(x) && IsCapacity(C)
    ensures var r, t := Rounded(B, x, FixedBound(C, prec)), Fixed(FixedConversion(B, C, x, prec), prec, prec > 0 || alt);
            FixedOutput(B, C, x, prec, alt) ==
            if Overruns(B, C, x) || |t| > C then TooLong
            else Printed(if PointLandsOnDigit(C, r.nsig, r.dec, prec, prec > 0 || alt) then t[0 := '.'] else t)
  {
    hide Rounded, FixedConversion, Overruns, Fixed, IsFinite, PointLandsOnDigit;
  }

  // ---------------------------------------------------------------------------------------------
  // %e and %g

  method StripZeros(buf: array<char>, at: nat, from: int, ghost tail: bool, ghost r: Run) returns (end: nat, dec: int)
    requires Holds(buf[..], at, from, 0, tail, r) && r.nsig >= 1
    ensures Holds(buf[..], end, dec, 0, tail, Strip(r))
  {
    ghost var s := r;
    end, dec := at, from;
    assert buf[..][end..] == Dec(s.g, s.nsig);
    while buf.Length - end > 1 && buf[end] == '0'
      invariant Holds(buf[..], end, dec, 0, tail, s) && s.nsig >= 1 && Strip(s) == Strip(r)
      decreases s.nsig
    {
      LowestDigitIs(s.g, s.nsig);
      assert buf[end] == buf[..][end..][0];
      assert buf[..][end + 1..] == buf[..][end..][1..];
      s := s.(g := s.g / 10, nsig := s.nsig - 1, dec := s.dec + 1);
      end, dec := end + 1, dec + 1;
    }
    LowestDigitIs(s.g, s.nsig);
    assert buf[end] == buf[..][end..][0];
  }

  lemma LowestDigitIs(g: nat, n: nat)
    requires n >= 1
    ensures Dec(g, n)[0] == '0' <==> g % 10 == 0
    ensures Dec(g, n)[1..] == Dec(g / 10, n - 1)
  {
    assert Dec(g, n) == [DigitChar(g % 10, 0)] + Dec(g / 10, n - 1);
  }

  /** What the first pass settles on: a text of style e, or the precision style f is to run with. */
  ghost predicate IsSettled(s: seq<char>, len: int, again: bool, fp: nat, style: Style, alt: bool, adj: nat)
    requires IsCase(adj)
  {
    match style
    case F(p) => again && fp == p
    case E(run, pe, e) => !again && run.nsig <= pe + 1 && IsPrinted(s, len, ScientificText(run, pe, alt, e, adj))
  }

  /** %e is the first pass with the style settled beforehand. */
  function FirstStyle(r: Run, shortest: bool, prec: nat, alt: bool): Style
    requires r.nsig >= 1 && (shortest ==> prec >= 1)
  {
    if shortest then Choose(r, prec, !alt) else E(r, prec, r.dec + r.nsig - 1)
  }

  method SignificantPass(B: nat, buf: array<char>, x: Finite, shortest: bool, prec: nat, alt: bool, adj: nat,
      divisionFree: bool)
    returns (ok: bool, again: bool, fp: nat, len: int)
    requires IsWidth(B) && IsFinite(x) && IsCapacity(buf.Length) && IsCase(adj) && (shortest ==> prec >= 1)
    requires (if shortest then prec else prec + 1) <= buf.Length - 7
    modifies buf
    ensures ok <==> !Overruns(B, buf.Length, x)
    ensures var r := Significant(B, x, if shortest then prec else prec + 1);
            && r.nsig >= 1
            && (ok ==> IsSettled(buf[..], len, again, fp, FirstStyle(r, shortest, prec, alt), alt, adj))
  {
    var sig := if shortest then prec else prec + 1;
    ghost var r := Significant(B, x, sig);
    SignificantShape(B, x, sig);
    SignificantIsRounded(B, x, sig);
    again, fp, len := false, 0, 0;
    hide *;
    var end, dec;
    ghost var tail;
    var b := Bound(false, sig, INT_MIN);
    IsSignificant(sig);
    ok, end, dec, tail := RoundedRun(B, buf, x, b, divisionFree);
    OverrunsIs(B, buf.Length, x);
    if ok {
      again, fp, len := SettleStyle(buf, end, dec, tail, r, shortest, prec, alt, adj, divisionFree);
    }
  }

  lemma IsSignificant(sig: nat)
    requires 1 <= sig <= MAX_CAPACITY
    ensures Bound(false, sig, INT_MIN) == SignificantBound(sig) && IsBound(SignificantBound(sig))
  {
  }

  lemma OverrunsIs(B: nat, C: nat, x: Finite)
    requires IsWidth(B)
    ensures Overruns(B, C, x) <==> IntegerDigits(I.Convert(B, x).man, false) > C
  {
  }

  /** Strips trailing zeros, chooses the style, and lays out style e. */
  method SettleStyle(buf: array<char>, at: nat, from: int, ghost tail: bool, ghost r: Run, shortest: bool,
      prec: nat, alt: bool, adj: nat, divisionFree: bool)
    returns (again: bool, fp: nat, len: int)
    requires Holds(buf[..], at, from, 0, tail, r) && IsRun(r) && 1 <= r.nsig <= (if shortest then prec else prec + 1)
    requires (HasLead(r) || r.nsig == 1) && -999 <= r.dec + r.nsig - 1 <= 999 && IsCase(adj)
    requires (if shortest then prec else prec + 1) <= buf.Length - 7 && buf.Length >= 8 && (shortest ==> prec >= 1)
    modifies buf
    ensures IsSettled(buf[..], len, again, fp, FirstStyle(r, shortest, prec, alt), alt, adj)
  {
    hide Digits, Strip, ScientificText, Scientific, ExponentText, ScientificLayout;
    var end, dec := at, from;
    var e := dec + (buf.Length - end) - 1;
    ghost var run := r;
    var pe := prec;
    again, fp, len := false, 0, 0;
    if shortest {
      pe := prec - 1;
      if !alt {
        end, dec := StripZeros(buf, end, dec, tail, r);
        run := Strip(r);
        StrippedShape(r);
        pe := buf.Length - end - 1;
      }
      if -4 <= e < prec {
        var kept := if alt then prec else buf.Length - end;
        again, fp := true, if kept - 1 - e > 0 then kept - 1 - e else 0;
        return;
      }
    }
    ScientificRun(buf[..], end, run, pe, alt, e, adj);
    len := LayScientific(buf, end, e, pe, alt, adj, divisionFree);
  }

  lemma StrippedShape(r: Run)
    requires IsRun(r) && r.nsig >= 1 && (HasLead(r) || r.nsig == 1)
    ensures IsRun(Strip(r)) && 1 <= Strip(r).nsig <= r.nsig
  {
    if HasLead(r) { StripKeeps(r); }
  }

  ghost predicate IsPrinted(s: seq<char>, len: int, t: seq<char>) {
    len == |t| <= |s| && s[..|t|] == t
  }

  lemma SignificantIsRounded(B: nat, x: Finite, sig: nat)
    requires IsWidth(B) && IsFinite(x) && 1 <= sig <= MAX_CAPACITY
    ensures Significant(B, x, sig) == Rounded(B, x, SignificantBound(sig))
  {
    KeptShape(B, x, SignificantBound(sig));
  }

  lemma ScientificRun(s: seq<char>, end: nat, r: Run, pe: nat, alt: bool, x: int, adj: nat)
    requires end <= |s| && s[end..] == Dec(r.g, r.nsig) && IsRun(r) && 1 <= r.nsig <= pe + 1 && IsCase(adj)
    ensures ScientificLayout(s[end..], pe, pe > 0 || alt, ExponentText(x, adj)) == ScientificText(r, pe, alt, x, adj)
  {
    ScientificLayoutIs(r.g, r.nsig, pe, pe > 0 || alt, x, adj);
  }

  /**
   * The conversion. %g runs it at most twice: the second run has the position bound of %f, and is
   * not followed by another.
   */
  method EtoaRev(B: nat, buf: array<char>, bits: nat, conv: Conversion, prec: nat, alt: bool, adj: nat,
      divisionFree: bool)
    returns (len: int)
    requires IsWidth(B) && bits < BIN_MODULUS && IsCase(adj) && IsCapacity(buf.Length)
    modifies buf
    ensures match Decode(bits)
            case NotANumber => len == -3 && buf[..3] == SpecialText(NAN, adj)
            case Infinity => len == -3 && buf[..3] == SpecialText(INF, adj)
            case Number(x) =>
              match FiniteOutput(B, buf.Length, x, conv, prec, alt, adj)
              case Printed(t) => len == |t| <= buf.Length && buf[..|t|] == t
              case TooLong => len == -3 && buf[..3] == SpecialText(ERR, adj)
  {
    match Decode(bits)
    case NotANumber =>
      len := FtoaSpecial(buf, adj, NAN);
    case Infinity =>
      len := FtoaSpecial(buf, adj, INF);
    case Number(x) =>
      var ok: bool;
      ok, len := FiniteRev(B, buf, x, conv, prec, alt, adj, divisionFree);
      if !ok {
        len := FtoaSpecial(buf, adj, ERR);
      }
  }

  method FiniteRev(B: nat, buf: array<char>, x: Finite, conv: Conversion, prec: nat, alt: bool, adj: nat,
      divisionFree: bool)
    returns (ok: bool, len: int)
    requires IsWidth(B) && IsFinite(x) && IsCase(adj) && IsCapacity(buf.Length)
    modifies buf
    ensures match FiniteOutput(B, buf.Length, x, conv, prec, alt, adj)
            case Printed(t) => ok && len == |t| <= buf.Length && buf[..|t|] == t
            case TooLong => !ok
  {
    hide Overruns, Clobbers, FixedConversion, Fixed, Significant, Choose, ScientificText, IsFinite;
    ok, len := false, 0;
    if prec > buf.Length - 2 {
      FixedIsLong(FixedConversion(B, buf.Length, x, prec), prec, alt);
      return;
    }
    if conv == FloatF {
      ok, len := FixedPass(B, buf, x, prec, alt, divisionFree);
      return;
    }
    var p := if conv == FloatG && prec == 0 then 1 else prec;
    if (if conv == FloatG then p else p + 1) > buf.Length - 7 { return; }
    var again, fp;
    ok, again, fp, len := SignificantPass(B, buf, x, conv == FloatG, p, alt, adj, divisionFree);
    if ok && again {
      ok, len := RegeneratedPass(B, buf, x, p, fp, alt, divisionFree);
    }
  }

  lemma FixedIsLong(n: nat, prec: nat, alt: bool)
    requires prec > 0
    ensures |Fixed(n, prec, prec > 0 || alt)| >= prec + 2
  {
  }

  /** The second run of %g. */
  method RegeneratedPass(B: nat, buf: array<char>, x: Finite, sig: nat, fp: nat, alt: bool, divisionFree: bool)
    returns (ok: bool, len: int)
    requires IsWidth(B) && IsFinite(x) && IsCapacity(buf.Length) && 1 <= sig <= buf.Length - 7
    requires Significant(B, x, sig).nsig >= 1 && Choose(Significant(B, x, sig), sig, !alt) == F(fp)
    modifies buf
    ensures match FixedOutput(B, buf.Length, x, fp, alt)
            case Printed(t) => ok && len == |t| <= buf.Length && buf[..|t|] == t
            case TooLong => !ok
  {
    ok, len := FixedPass(B, buf, x, fp, alt, divisionFree);
  }
}
