/** npf_ftoa_special: the texts that are not numbers. */
module Specials {
  import opened Numerals

  /** The three texts, each reversed and terminated, selected by their offset. */
  const PACKED: seq<char> := ['N', 'A', 'N', '\0', 'F', 'N', 'I', '\0', 'R', 'R', 'E', '\0']
  const NAN: nat := 0
  const INF: nat := 4
  const ERR: nat := 8

  predicate IsSpecial(off: nat) { off == NAN || off == INF || off == ERR }

  /** Reversed, in the letter case of the conversion. */
  function SpecialText(off: nat, adj: nat): (s: seq<char>)
    requires IsSpecial(off) && IsCase(adj)
    ensures |s| == 3
  {
    seq(3, i requires 0 <= i < 3 => (PACKED[off + i] as int + adj) as char)
  }

  /** The negated length tells the caller that the buffer holds text, not a number. */
  method FtoaSpecial(buf: array<char>, adj: nat, off: nat) returns (len: int)
    requires buf.Length >= 3 && IsSpecial(off) && IsCase(adj)
    modifies buf
    ensures len == -3 && buf[..3] == SpecialText(off, adj)
  {
    var i: nat := 0;
    var more := true;
    while more
      invariant i <= 3 && (more <==> i < 3)
      invariant forall k :: 0 <= k < i ==> buf[k] == SpecialText(off, adj)[k]
      decreases 3 - i
    {
      buf[i] := (PACKED[off + i] as int + adj) as char;
      i := i + 1;
      more := PACKED[off + i] != '\0';
    }
    len := 0 - i;
  }

  /** NaN, infinity and the overflow marker are told apart by any of their letters. */
  lemma SpecialsDiffer(adj: nat)
    requires IsCase(adj)
    ensures SpecialText(NAN, 0) == "NAN" && SpecialText(INF, 0) == "FNI" && SpecialText(ERR, 0) == "RRE"
    ensures SpecialText(NAN, LOWER) == "nan" && SpecialText(INF, LOWER) == "fni" && SpecialText(ERR, LOWER) == "rre"
  {
  }
}
