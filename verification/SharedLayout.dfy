/**
 * The end of npf_etoa_rev: the text is composed from buf[0] up while its digits still stand at the
 * top of the same buffer. The texts are those of composing from a copy of the digits.
 */
module SharedLayout {
  import opened Arithmetic
  import opened Numerals
  import opened DecimalText
  import opened Unsigned
  import opened Shared

  /** s holds the digits of a number whose lowest digit is at 10^dec: style f, prec places. */
  function FixedLayout(s: seq<char>, dec: int, prec: nat, point: bool): (t: seq<char>)
    requires dec + prec >= 0 && dec + |s| >= 1
    ensures |t| == |s| + prec + Max(dec, 0) - Max(0 - dec, 0) + if point then 1 else 0
  {
    var fd := Max(0 - dec, 0);
    Zeros(prec - fd) + s[..fd] + (if point then ['.'] else []) + Zeros(Max(dec, 0)) + s[fd..]
  }

  /** Style e: pe digits after the point, zeros first where the run is shorter, then the exponent. */
  function ScientificLayout(s: seq<char>, pe: nat, point: bool, exponent: seq<char>): seq<char>
    requires 1 <= |s| <= pe + 1
  {
    exponent + Zeros(pe + 1 - |s|) + s[..|s| - 1] + (if point then ['.'] else []) + [s[|s| - 1]]
  }

  // ---------------------------------------------------------------------------------------------
  // What the layouts denote.

  /** Every digit run a conversion leaves: a significant leading digit, or %f's zero before the point. */
  predicate IsLaidOut(g: nat, nsig: nat, dec: int, prec: nat) {
    && nsig >= 1 && g < Pow(10, nsig) && dec + prec >= 0 && dec + nsig >= 1
    && (Pow(10, nsig - 1) <= g || dec + nsig == 1)
  }

  lemma FixedLayoutIs(g: nat, nsig: nat, dec: int, prec: nat, point: bool)
    requires IsLaidOut(g, nsig, dec, prec)
    ensures FixedLayout(Dec(g, nsig), dec, prec, point) == Fixed(Tenfold(g, dec + prec), prec, point)
  {
    if dec >= 0 {
      FixedAbove(g, nsig, dec, prec, point);
    } else {
      FixedAcross(g, nsig, -dec, prec, point);
    }
  }

  lemma FixedAbove(g: nat, nsig: nat, dec: nat, prec: nat, point: bool)
    requires IsLaidOut(g, nsig, dec, prec)
    ensures FixedLayout(Dec(g, nsig), dec, prec, point) == Fixed(Tenfold(g, dec + prec), prec, point)
  {
    NumeralOfRun(g, nsig);
    if dec > 0 { NonzeroLead(g, nsig); }
    TenfoldTwice(g, dec, prec);
    hide Digits, Numeral, Pow, Fixed, Tenfold;
    FixedOfInteger(Tenfold(g, dec), prec, point);
    assert Tenfold(Tenfold(g, dec), prec) == Tenfold(g, dec + prec);
    FixedIsZeros(Tenfold(g, dec), prec, point);
    WholeIs(g, dec, point);
    assert Dec(g, nsig)[..0] == [] && Dec(g, nsig)[0..] == Dec(g, nsig);
  }

  lemma NonzeroLead(g: nat, nsig: nat)
    requires nsig >= 1 && Pow(10, nsig - 1) <= g
    ensures g > 0
  {
  }

  lemma FixedIsZeros(m: nat, prec: nat, point: bool)
    ensures Fixed(Tenfold(m, prec), prec, point) == Zeros(prec) + Whole(m, point)
  {
    FixedOfInteger(m, prec, point);
  }

  lemma WholeIs(m: nat, tens: nat, point: bool)
    requires m > 0 || tens == 0
    ensures Whole(Tenfold(m, tens), point) == (if point then ['.'] else []) + Zeros(tens) + DecNumeral(m)
  {
    WholeShift(m, tens, point);
  }

  lemma NumeralOfRun(g: nat, nsig: nat)
    requires nsig >= 1 && g < Pow(10, nsig) && (nsig > 1 ==> Pow(10, nsig - 1) <= g)
    ensures DecNumeral(g) == Dec(g, nsig)
  {
    NumeralLengthIs(g, nsig);
  }

  lemma FixedAcross(g: nat, nsig: nat, fd: nat, prec: nat, point: bool)
    requires IsLaidOut(g, nsig, 0 - fd, prec)
    ensures FixedLayout(Dec(g, nsig), 0 - fd, prec, point) == Fixed(Tenfold(g, prec - fd), prec, point)
  {
    var z := prec - fd;
    ShiftedDigits(g, z, fd);
    RunSplits(g, nsig, fd);
    HighOfShift(g, z, fd);
    HighRun(g, nsig, fd);
    FixedIs(Tenfold(g, z), prec, point);
    hide *;
    AcrossText(Dec(g, nsig), Dec(g, fd), Dec(High(g, fd), nsig - fd), 0 - fd, prec, point);
  }

  lemma AcrossText(s: seq<char>, low: seq<char>, high: seq<char>, dec: int, prec: nat, point: bool)
    requires s == low + high && |low| == -dec <= prec && |high| >= 1
    ensures FixedLayout(s, dec, prec, point) == (Zeros(prec - |low|) + low) + ((if point then ['.'] else []) + high)
  {
    assert s[..|low|] == low && s[|low|..] == high;
    assert Zeros(0) == [];
  }

  lemma FixedIs(n: nat, prec: nat, point: bool)
    ensures Fixed(n, prec, point) == Dec(n, prec) + ((if point then ['.'] else []) + DecNumeral(High(n, prec)))
  {
    hide Digits, Numeral, High;
  }

  lemma ShiftedDigits(g: nat, z: nat, k: nat)
    ensures Dec(Tenfold(g, z), z + k) == Zeros(z) + Dec(g, k)
  {
    DigitsShift(g, z, k);
  }

  lemma RunSplits(g: nat, nsig: nat, k: nat)
    requires k <= nsig
    ensures Dec(g, nsig) == Dec(g, k) + Dec(High(g, k), nsig - k)
  {
    DigitsSplit(g, k, nsig - k);
  }

  lemma HighOfShift(g: nat, z: nat, fd: nat)
    ensures High(Tenfold(g, z), z + fd) == High(g, fd)
  {
    PowAdd(10, fd, z);
    DivScale(g, Pow(10, fd), Pow(10, z));
  }

  lemma HighRun(g: nat, nsig: nat, fd: nat)
    requires fd < nsig && g < Pow(10, nsig) && (Pow(10, nsig - 1) <= g || fd + 1 == nsig)
    ensures DecNumeral(High(g, fd)) == Dec(High(g, fd), nsig - fd)
  {
    PowAdd(10, nsig - fd, fd);
    PowAdd(10, nsig - fd - 1, fd);
    hide Digits, Numeral, Pow;
    HighBounds(g, Pow(10, fd), Pow(10, nsig - fd), Pow(10, nsig - fd - 1));
    NumeralOfRun(High(g, fd), nsig - fd);
  }

  lemma ScientificLayoutIs(g: nat, nsig: nat, pe: nat, point: bool, x: int, adj: nat)
    requires 1 <= nsig <= pe + 1 && g < Pow(10, nsig) && IsCase(adj)
    ensures ScientificLayout(Dec(g, nsig), pe, point, ExponentText(x, adj)) ==
            Scientific(Tenfold(g, pe + 1 - nsig), pe, point, x, adj)
  {
    var z := pe + 1 - nsig;
    ShiftedDigits(g, z, nsig - 1);
    RunSplits(g, nsig, nsig - 1);
    HighOfShift(g, z, nsig - 1);
    TopOfRun(g, nsig);
    ScientificIs(Tenfold(g, z), pe, point, x, adj);
    hide *;
    ScientificPieces(Dec(g, nsig), Dec(g, nsig - 1), Dec(High(g, nsig - 1), 1), pe, point, ExponentText(x, adj));
  }

  lemma ScientificPieces(s: seq<char>, low: seq<char>, high: seq<char>, pe: nat, point: bool, exponent: seq<char>)
    requires s == low + high && |high| == 1 && |low| <= pe
    ensures ScientificLayout(s, pe, point, exponent) ==
            exponent + (Zeros(pe - |low|) + low) + (if point then ['.'] else []) + [high[0]]
  {
    assert s[..|s| - 1] == low && s[|s| - 1] == high[0];
  }

  lemma ScientificIs(n: nat, pe: nat, point: bool, x: int, adj: nat)
    requires IsCase(adj)
    ensures Scientific(n, pe, point, x, adj) ==
            ExponentText(x, adj) + Dec(n, pe) + (if point then ['.'] else []) + [DigitChar(High(n, pe) % 10, 0)]
  {
    hide ExponentText, Digits, High;
  }

  lemma TopOfRun(g: nat, nsig: nat)
    requires nsig >= 1 && g < Pow(10, nsig)
    ensures High(g, nsig - 1) < 10
    ensures Dec(High(g, nsig - 1), 1)[0] == DigitChar(High(g, nsig - 1) % 10, 0)
  {
    assert Pow(10, nsig) == 10 * Pow(10, nsig - 1);
    HighBounds(g, Pow(10, nsig - 1), 10, 0);
  }

  lemma ExponentLength(x: int, adj: nat)
    requires IsCase(adj) && -999 <= x <= 999
    ensures |ExponentText(x, adj)| <= 5
  {
    var a := if x < 0 then -x else x;
    NumeralLength(a, 10, 0);
    assert Pow(10, 3) == 1000;
    hide Pow, Numeral;
    if |DecNumeral(a)| > 3 { PowMonotone(10, 3, |DecNumeral(a)| - 1); }
    if a < 10 { OneDigit(a); }
  }

  lemma OneDigit(a: nat)
    requires a < 10
    ensures |DecNumeral(a)| == 1
  {
  }

  // ---------------------------------------------------------------------------------------------
  // Composing in place.

  method WriteZeros(buf: array<char>, o: nat, k: nat)
    requires o + k <= buf.Length
    modifies buf
    ensures buf[..o + k] == old(buf[..o]) + Zeros(k)
    ensures buf[o + k..] == old(buf[o + k..])
  {
    var i := 0;
    while i < k
      invariant 0 <= i <= k
      invariant buf[..o + i] == old(buf[..o]) + Zeros(i)
      invariant forall j :: o + i <= j < buf.Length ==> buf[j] == old(buf[j])
    {
      buf[o + i] := '0';
      i := i + 1;
    }
  }

  /** Copies downwards in ascending order, which an overlap of the two ranges does not disturb. */
  method CopyDown(buf: array<char>, from: nat, o: nat, k: nat)
    requires o <= from && from + k <= buf.Length
    modifies buf
    ensures buf[..o + k] == old(buf[..o]) + old(buf[from..from + k])
    ensures buf[o + k..] == old(buf[o + k..])
  {
    var i := 0;
    while i < k
      invariant 0 <= i <= k
      invariant buf[..o + i] == old(buf[..o]) + old(buf[from..from + i])
      invariant forall j :: o + i <= j < buf.Length ==> buf[j] == old(buf[j])
    {
      buf[o + i] := buf[from + i];
      i := i + 1;
    }
  }

  /**
   * The store of the point, made whether or not there is one to print, falls on a digit still to be
   * read exactly when no point is printed and the digits fill the whole buffer.
   */
  predicate PointLandsOnDigit(C: nat, nsig: nat, dec: int, prec: nat, point: bool) {
    !point && prec == 0 && nsig == C && dec == 0
  }

  method LayFixed(buf: array<char>, end: nat, dec: int, prec: nat, alt: bool) returns (ok: bool, len: int)
    requires end < buf.Length && dec + prec >= 0 && dec + (buf.Length - end) >= 1 && prec < buf.Length
    modifies buf
    ensures var s, point := old(buf[end..]), prec > 0 || alt;
            var t := FixedLayout(s, dec, prec, point);
            && (ok <==> |t| <= buf.Length)
            && (ok ==> len == |t|)
            && (ok ==> buf[..|t|] == if PointLandsOnDigit(buf.Length, |s|, dec, prec, point) then t[0 := '.'] else t)
  {
    ghost var s := buf[end..];
    var nsig := buf.Length - end;
    var above := nsig + if dec > 0 then 0 else dec;
    var id := if above < 0 then 0 else above;
    var iz := if dec > 0 then dec else 0;
    var fd := nsig - id;
    var fz := prec - fd;
    var dp := if prec > 0 || alt then 1 else 0;
    ok, len := id + iz + dp + prec <= buf.Length, 0;
    if !ok { return; }
    ghost var lands := dp == 0 && nsig == buf.Length;
    Compose(buf, end, fz, fd, dp, iz, id);
    len := prec + dp + iz + id;
    ClobberedLayout(s, dec, prec, dp == 1, lands, fz, fd, iz);
  }

  lemma ClobberedLayout(s: seq<char>, dec: int, prec: nat, point: bool, lands: bool, fz: nat, fd: nat, iz: nat)
    requires dec + prec >= 0 && dec + |s| >= 1 && |s| >= 1
    requires fd == Max(0 - dec, 0) && fz == prec - fd && iz == Max(dec, 0)
    requires lands ==> fz == fd == iz == 0 && !point
    ensures var t := FixedLayout(s, dec, prec, point);
            Zeros(fz) + s[..fd] + (if point then ['.'] else []) + Zeros(iz) + (if lands then s[0 := '.'] else s[fd..]) ==
            if lands then t[0 := '.'] else t
  {
    if lands {
      assert FixedLayout(s, dec, prec, point) == s;
      assert Zeros(0) == [] && s[..0] == [];
    }
  }

  /** The five pieces in their order, the digits read from the top of the same buffer. */
  method Compose(buf: array<char>, end: nat, fz: nat, fd: nat, dp: nat, iz: nat, id: nat)
    requires end < buf.Length && fd + id == buf.Length - end && dp <= 1 && fz + fd < buf.Length
    requires fz + fd + dp + iz + id <= buf.Length
    requires dp == 0 ==> fz == fd == 0
    modifies buf
    ensures var s := old(buf[end..]);
            buf[..fz + fd + dp + iz + id] ==
            Zeros(fz) + s[..fd] + (if dp == 1 then ['.'] else []) + Zeros(iz) +
            if dp == 0 && id == buf.Length then s[0 := '.'] else s[fd..]
  {
    ghost var s := buf[end..];
    ComposeFraction(buf, end, fz, fd);
    StorePoint(buf, fz + fd, end + fd, dp);
    ghost var rest := if dp == 0 && id == buf.Length then s[0 := '.'] else s[fd..];
    assert buf[end + fd..] == rest;
    LayWhole(buf, end + fd, fz + fd + dp, iz, id, rest);
  }

  method ComposeFraction(buf: array<char>, end: nat, fz: nat, fd: nat)
    requires end + fd <= buf.Length && fz <= end
    modifies buf
    ensures buf[..fz + fd] == Zeros(fz) + old(buf[end..])[..fd]
    ensures buf[end + fd..] == old(buf[end..])[fd..]
  {
    ghost var s := buf[end..];
    WriteZeros(buf, 0, fz);
    KeepsTail(old(buf[..]), buf[..], fz, end);
    assert buf[end..end + fd] == s[..fd] by { assert buf[end..end + fd] == buf[end..][..fd]; }
    label copied:
    CopyDown(buf, end, fz, fd);
    KeepsTail(old@copied(buf[..]), buf[..], fz + fd, end + fd);
    assert old@copied(buf[end + fd..]) == s[fd..];
  }

  lemma KeepsTail(a: seq<char>, b: seq<char>, k: nat, end: nat)
    requires k <= end <= |a| == |b| && a[k..] == b[k..]
    ensures a[end..] == b[end..]
  {
    assert a[end..] == a[k..][end - k..] && b[end..] == b[k..][end - k..];
  }

  /** Stores the point at o; the next character overwrites it when there is none to print. */
  method StorePoint(buf: array<char>, o: nat, from: nat, dp: nat)
    requires o < buf.Length && o + dp <= from <= buf.Length && dp <= 1
    modifies buf
    ensures buf[..o + dp] == old(buf[..o]) + if dp == 1 then ['.'] else []
    ensures buf[from..] == if o == from then old(buf[from..])[0 := '.'] else old(buf[from..])
  {
    buf[o] := '.';
  }

  /** The zeros and digits above the point, the digits moving down from where they stand. */
  method LayWhole(buf: array<char>, from: nat, o: nat, iz: nat, id: nat, ghost rest: seq<char>)
    requires o + iz <= from && from + id == buf.Length && buf[from..] == rest
    modifies buf
    ensures buf[..o + iz + id] == old(buf[..o]) + Zeros(iz) + rest
  {
    WriteZeros(buf, o, iz);
    KeepsTail(old(buf[..]), buf[..], o + iz, from);
    CopyDown(buf, from, o + iz, id);
  }

  /** "d.<frac>e<sign><exp>", reversed; the longest is guarded against before any work is done. */
  method LayScientific(buf: array<char>, end: nat, x: int, pe: nat, alt: bool, adj: nat, divisionFree: bool)
    returns (len: int)
    requires end < buf.Length && buf.Length - end <= pe + 1 <= buf.Length - 7
    requires -999 <= x <= 999 && IsCase(adj)
    modifies buf
    ensures var t := ScientificLayout(old(buf[end..]), pe, pe > 0 || alt, ExponentText(x, adj));
            len == |t| <= buf.Length && buf[..len] == t
  {
    ghost var s, exponent := buf[end..], ExponentText(x, adj);
    ExponentLength(x, adj);
    hide Numeral;
    var o := LayExponent(buf, x, adj, divisionFree);
    var nsig := buf.Length - end;
    var pad := pe - (nsig - 1);
    assert pad + nsig == pe + 1;
    assert o == |exponent| <= 5;
    assert buf[end..] == s;
    LayFraction(buf, end, o, pe, pad);
    o := o + pe;
    var dp := if pe > 0 || alt then 1 else 0;
    StorePoint(buf, o, buf.Length - 1, dp);
    o := o + dp;
    assert buf[buf.Length - 1..] == [s[nsig - 1]];
    buf[o] := buf[buf.Length - 1];
    assert buf[..o + 1] == buf[..o] + [s[nsig - 1]];
    len := o + 1;
  }

  method LayExponent(buf: array<char>, x: int, adj: nat, divisionFree: bool) returns (o: nat)
    requires -999 <= x <= 999 && IsCase(adj) && buf.Length >= 8
    modifies buf
    ensures o == |ExponentText(x, adj)| <= buf.Length && buf[..o] == ExponentText(x, adj)
    ensures forall j :: o <= j < buf.Length ==> buf[j] == old(buf[j])
  {
    ExponentLength(x, adj);
    hide Numeral;
    var a: nat := if x < 0 then -x else x;
    if a < 10 { OneDigit(a); } else { TwoDigits(a); }
    o := UtoaRevEnd(a, buf, 0, 10, 0, divisionFree);
    assert buf[..o] == buf[0..o];
    KeepsEach(old(buf[..]), buf[..], o);
    if o < 2 {
      o := PutNext(buf, o, '0');
    }
    o := PutNext(buf, o, if x < 0 then '-' else '+');
    o := PutNext(buf, o, ('E' as int + adj) as char);
  }

  lemma TwoDigits(a: nat)
    requires a >= 10
    ensures |DecNumeral(a)| >= 2
  {
  }

  lemma KeepsEach(a: seq<char>, b: seq<char>, k: nat)
    requires k <= |a| == |b| && a[k..] == b[k..]
    ensures forall j :: k <= j < |a| ==> a[j] == b[j]
  {
    forall j | k <= j < |a| ensures a[j] == b[j] { assert a[j] == a[k..][j - k] && b[j] == b[k..][j - k]; }
  }

  method PutNext(buf: array<char>, o: nat, c: char) returns (o': nat)
    requires o < buf.Length
    modifies buf
    ensures o' == o + 1 && buf[..o'] == old(buf[..o]) + [c]
    ensures forall j :: o' <= j < buf.Length ==> buf[j] == old(buf[j])
  {
    buf[o] := c;
    o' := o + 1;
  }

  /** pe fraction digits: padding zeros, then all digits of the run but the leading one. */
  method LayFraction(buf: array<char>, end: nat, o: nat, pe: nat, pad: nat)
    requires end < buf.Length && pad + (buf.Length - end) == pe + 1 && o + pad <= end
    modifies buf
    ensures buf[..o + pe] == old(buf[..o]) + Zeros(pad) + old(buf[end..])[..buf.Length - end - 1]
    ensures buf[buf.Length - 1] == old(buf[buf.Length - 1])
  {
    ghost var head, s := buf[..o], buf[end..];
    ghost var run := Zeros(pad) + s;
    var i: nat := 0;
    while i < pe
      invariant i <= pe
      invariant buf[..o + i] == head + run[..i]
      invariant forall j :: o + i <= j < buf.Length ==> buf[j] == old(buf[j])
    {
      buf[o + i] := if i < pad then '0' else buf[end + (i - pad)];
      assert run[..i + 1] == run[..i] + [run[i]];
      i := i + 1;
    }
    assert run[..pe] == Zeros(pad) + s[..buf.Length - end - 1];
  }
}
