/** npf_bufputc and npf_vsnprintf: the bounded sink against the unbounded stream. */
module Sink {
  import opened Arithmetic
  import opened FormatSpec
  import opened Fields
  import Driver

  /** A moving cursor into a buffer and the capacity behind it; without a buffer it only counts. */
  class BufPutc {
    const dst: array?<char>
    var at: nat
    var len: nat

    ghost predicate Valid()
      reads this
    {
      dst != null ==> at + len <= dst.Length
    }

    constructor (buffer: array?<char>, bufsz: nat)
      requires buffer != null ==> bufsz <= buffer.Length
      ensures Valid() && dst == buffer && at == 0 && len == bufsz
    {
      dst := buffer;
      at, len := 0, bufsz;
    }

    method Put(c: char)
      requires Valid()
      modifies this, dst
      ensures Valid() && at + len == old(at + len)
      ensures dst == null || old(len) == 0 ==> at == old(at)
      ensures dst != null && old(len) > 0 ==> at == old(at) + 1
      ensures dst != null ==> dst[..] == if old(len) > 0 then old(dst[..])[old(at) := c] else old(dst[..])
    {
      if dst != null && len > 0 {
        len := len - 1;
        dst[at] := c;
        at := at + 1;
      }
    }

    /** Any number of characters: as many as fit are kept, in order, and nothing else changes. */
    method PutAll(s: seq<char>)
      requires Valid()
      modifies this, dst
      ensures Valid() && at + len == old(at + len)
      ensures dst != null ==> at == old(at) + Min(|s|, old(len))
      ensures dst != null ==> dst[..] == old(dst[..at]) + s[..at - old(at)] + old(dst[..])[at..]
    {
      ghost var room, start := len, at;
      for i := 0 to |s|
        invariant Valid() && at + len == start + room
        invariant dst != null ==> at == start + Min(i, room)
        invariant dst != null ==> dst[..] == old(dst[..at]) + s[..at - start] + old(dst[..])[at..]
      {
        ghost var k := at - start;
        Put(s[i]);
        if dst != null && k < room {
          assert s[..k + 1] == s[..k] + [s[k]];
          assert old(dst[..])[at - 1..][1..] == old(dst[..])[at..];
        }
      }
    }
  }

  /** What the caller finds in the first bufsz bytes, the previous content being before. */
  function Stored(before: seq<char>, full: seq<char>, bufsz: nat, safeEmpty: bool): seq<char>
    requires bufsz <= |before|
  {
    if bufsz == 0 then before
    else if |full| < bufsz then full + ['\0'] + before[|full| + 1..]
    else if safeEmpty then ['\0'] + full[1..bufsz] + before[bufsz..]
    else full[..bufsz - 1] + ['\0'] + before[bufsz..]
  }

  /**
   * Buffer and size only decide what is kept: the count is that of the whole output, the bytes are
   * its longest prefix that leaves room for the terminator, and no other byte changes; on overflow
   * the safe variant promises the empty string instead.
   */
  method Vsnprintf(cfg: Config, buffer: array?<char>, bufsz: nat, format: string, args: seq<Arg>, safeEmpty: bool)
    returns (n: nat)
    requires IsConfig(cfg) && IsCString(format) && ArgsMatch(format, 0, args)
    requires buffer != null ==> bufsz <= buffer.Length
    modifies buffer
    ensures n == |Render(cfg, format, 0, args)|
    ensures buffer != null ==> buffer[..] == Stored(old(buffer[..]), Render(cfg, format, 0, args), bufsz, safeEmpty)
  {
    var ctx := new BufPutc(buffer, bufsz);
    var out;
    out, n := Driver.Vpprintf(cfg, format, args);
    hide Render, Stored;
    ghost var before := if buffer != null then buffer[..] else [];
    ctx.PutAll(out);
    if buffer != null {
      assert buffer[..] == out[..Min(n, bufsz)] + before[Min(n, bufsz)..];
      StoredIs(before, out, bufsz, safeEmpty);
      if bufsz > 0 {
        var end := if safeEmpty then (if n >= bufsz then 0 else n) else Min(n, bufsz - 1);
        ghost var kept := buffer[..];
        buffer[end] := '\0';
        assert buffer[..] == kept[end := '\0'];
      }
    }
  }

  lemma StoredIs(before: seq<char>, full: seq<char>, bufsz: nat, safeEmpty: bool)
    requires bufsz <= |before|
    ensures var kept := full[..Min(|full|, bufsz)] + before[Min(|full|, bufsz)..];
            && |kept| == |before|
            && (bufsz == 0 ==> Stored(before, full, bufsz, safeEmpty) == kept)
            && (bufsz > 0 ==>
                  Stored(before, full, bufsz, safeEmpty) ==
                  kept[(if safeEmpty then (if |full| >= bufsz then 0 else |full|) else Min(|full|, bufsz - 1)) := '\0'])
  {
  }

  /** The string found afterwards: a prefix of the output, all of it exactly when it fits. */
  lemma StoredString(before: seq<char>, full: seq<char>, bufsz: nat)
    requires 0 < bufsz <= |before|
    ensures var s, k := Stored(before, full, bufsz, false), Min(|full|, bufsz - 1);
            && |s| == |before| && s[..k] == full[..k] && s[k] == '\0' && s[k + 1..] == before[k + 1..]
            && (k == |full| <==> |full| < bufsz)
    ensures var s := Stored(before, full, bufsz, true);
            && |s| == |before| && s[bufsz..] == before[bufsz..]
            && (if |full| < bufsz then s == Stored(before, full, bufsz, false) else s[0] == '\0')
  {
  }
}
