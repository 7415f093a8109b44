/**
 Bytes, little-endian integers and the byte buffer of libdtubase/dtubuffer.cpp.
 */
module Bytes {

  type byte = b: int | 0 <= b < 0x100
  type uint16 = v: int | 0 <= v < 0x1_0000
  type uint32 = v: int | 0 <= v < 0x1_0000_0000

  function Le16(v: uint16): (s: seq<byte>)
    ensures |s| == 2
  {
    [v % 0x100, v / 0x100]
  }

  function Le32(v: uint32): (s: seq<byte>)
    ensures |s| == 4
  {
    Le16(v % 0x1_0000) + Le16(v / 0x1_0000)
  }

  function Of16(s: seq<byte>): uint16
    requires |s| == 2
  {
    (s[1] as int) * 0x100 + s[0]
  }

  function Of32(s: seq<byte>): uint32
    requires |s| == 4
  {
    (Of16(s[2..]) as int) * 0x1_0000 + Of16(s[..2])
  }

  lemma Le16RoundTrip(v: uint16, s: seq<byte>)
    requires |s| == 2
    ensures Of16(Le16(v)) == v && Le16(Of16(s)) == s
  {
  }

  lemma Le32RoundTrip(v: uint32)
    ensures Of32(Le32(v)) == v
  {
    assert Le32(v)[..2] == Le16(v % 0x1_0000) && Le32(v)[2..] == Le16(v / 0x1_0000);
  }

  /** The lowest byte comes first. */
  lemma LittleEndian(s: seq<byte>)
    requires |s| == 4
    ensures Of16(s[..2]) == s[0] as int + 0x100 * s[1] as int
    ensures Of32(s) == s[0] as int + 0x100 * s[1] as int + 0x1_0000 * s[2] as int + 0x100_0000 * s[3] as int
  {
  }

  lemma Of32Tells(s: seq<byte>, t: seq<byte>)
    requires |s| == 4 && |t| == 4
    ensures Of32(s) == Of32(t) <==> s == t
  {
    LittleEndian(s);
    LittleEndian(t);
    hide Of32, Of16;
    if Of32(s) == Of32(t) {
      DigitsTell(s[0], s[1], s[2], s[3], t[0], t[1], t[2], t[3]);
    }
  }

  lemma DigitsTell(a: byte, b: byte, c: byte, d: byte, w: byte, x: byte, y: byte, z: byte)
    requires a as int + 0x100 * b as int + 0x1_0000 * c as int + 0x100_0000 * d as int
          == w as int + 0x100 * x as int + 0x1_0000 * y as int + 0x100_0000 * z as int
    ensures a == w && b == x && c == y && d == z
  {
    LowDigitTells(a, b as int + 0x100 * c as int + 0x1_0000 * d as int,
                  w, x as int + 0x100 * y as int + 0x1_0000 * z as int);
    LowDigitTells(b, c as int + 0x100 * d as int, x, y as int + 0x100 * z as int);
    LowDigitTells(c, d, y, z);
  }

  lemma LowDigitTells(a: byte, n: int, w: byte, m: int)
    requires a as int + 0x100 * n == w as int + 0x100 * m
    ensures a == w && n == m
  {
  }

  /** The sum of a buffer's bytes in eight bits (get_mod of libdtubase/dtucommon.cpp). */
  function Sum8(s: seq<byte>): byte
    decreases |s|
  {
    if s == [] then 0 else (Sum8(s[..|s| - 1]) + s[|s| - 1]) % 0x100
  }

  method GetMod(data: seq<byte>) returns (chs: byte)
    ensures chs == Sum8(data)
  {
    chs := 0;
    for i := 0 to |data|
      invariant chs == Sum8(data[..i])
    {
      assert data[..i + 1][..i] == data[..i];
      chs := (chs + data[i]) % 0x100;
    }
    assert data[..|data|] == data;
  }

  /** The sum of all bytes. */
  function Total(s: seq<byte>): nat
    decreases |s|
  {
    if s == [] then 0 else s[0] + Total(s[1..])
  }

  lemma {:induction false} TotalJoin(s: seq<byte>, t: seq<byte>)
    ensures Total(s + t) == Total(s) + Total(t)
    decreases |s|
  {
    if s == [] {
      assert s + t == t;
    } else {
      assert (s + t)[1..] == s[1..] + t;
      TotalJoin(s[1..], t);
    }
  }

  lemma TotalOfOne(b: byte)
    ensures Total([b]) == b
  {
    assert [b][1..] == [];
  }

  lemma SumStep(init: seq<byte>, last: byte)
    ensures Sum8(init + [last]) == (Sum8(init) + last) % 0x100
  {
    var s := init + [last];
    assert s[..|s| - 1] == init;
  }

  /** The check sum is the sum of all bytes modulo 256. */
  lemma {:induction false} SumOfBytes(s: seq<byte>)
    ensures Sum8(s) == Total(s) % 0x100
    decreases |s|
  {
    if s != [] {
      var (init, last) := (s[..|s| - 1], s[|s| - 1]);
      SumOfBytes(init);
      assert s == init + [last];
      hide Sum8, Total;
      SumStep(init, last);
      TotalJoin(init, [last]);
      TotalOfOne(last);
      AddsOne(Total(init), last);
    }
  }

  lemma AddsOne(n: nat, b: byte)
    ensures (n % 0x100 + b) % 0x100 == (n + b) % 0x100
  {
  }

  lemma SumJoin(s: seq<byte>, t: seq<byte>)
    ensures Sum8(s + t) == (Sum8(s) + Sum8(t)) % 0x100
  {
    SumOfBytes(s);
    SumOfBytes(t);
    SumOfBytes(s + t);
    TotalJoin(s, t);
    hide Sum8, Total;
    ModuloAdds(Total(s), Total(t));
  }

  lemma ModuloAdds(x: nat, y: nat)
    ensures (x + y) % 0x100 == (x % 0x100 + y % 0x100) % 0x100
  {
  }

  lemma SumOfOne(b: byte)
    ensures Sum8([b]) == b
  {
    SumOfBytes([b]);
    assert [b][1..] == [];
  }

  lemma TotalAround(before: seq<byte>, b: byte, after: seq<byte>)
    ensures Total(before + ([b] + after)) == Total(before) + Total(after) + b
  {
    hide Total;
    TotalJoin(before, [b] + after);
    TotalJoin([b], after);
    TotalOfOne(b);
  }

  /** Any change of a single byte shows in the sum. */
  lemma OneByteShows(s: seq<byte>, k: nat, b: byte)
    requires k < |s| && b != s[k]
    ensures Sum8(s[k := b]) != Sum8(s)
  {
    hide Sum8, Total;
    var (before, after) := (s[..k], s[k + 1..]);
    SumOfBytes(s);
    SumOfBytes(s[k := b]);
    TotalAround(before, s[k], after);
    TotalAround(before, b, after);
    assert s == before + ([s[k]] + after) && s[k := b] == before + ([b] + after);
    DifferByLess(Total(before) + Total(after), s[k], b);
  }

  lemma DifferByLess(n: nat, a: byte, b: byte)
    requires a != b
    ensures (n + a) % 0x100 != (n + b) % 0x100
  {
  }

  // ---------------------------------------------------------------- the buffer class

  /**
   How a buffer operation ends; Overrun stands for an access past the vector, which the wrapped guard lets through.
   */
  datatype Access<T> = Done(value: T) | Throws | Overrun

  /** The guard "pos + size > length" of get, set and remove, in 32-bit arithmetic. */
  predicate GuardPasses(pos: uint32, size: nat, length: nat) { (pos + size) % 0x1_0000_0000 <= length }

  /** buffer::get; a length of zero throws in the constructor of the result. */
  function Get(s: seq<byte>, pos: uint32, size: uint32): Access<seq<byte>> {
    if !GuardPasses(pos, size, |s|) || size == 0 then Throws
    else if pos + size > |s| then Overrun
    else Access.Done(s[pos..pos + size])
  }

  /** buffer::set: src replaces what stands at pos. */
  function Set(s: seq<byte>, pos: uint32, src: seq<byte>): (r: Access<seq<byte>>)
    ensures r.Done? <==> pos + |src| <= |s|
    ensures r.Done? ==> |r.value| == |s|
  {
    if !GuardPasses(pos, |src|, |s|) then Throws
    else if pos + |src| > |s| then Overrun
    else Access.Done(s[..pos] + src + s[pos + |src|..])
  }

  function Remove(s: seq<byte>, pos: uint32, size: uint32): Access<seq<byte>> {
    if size == 0 then Access.Done(s)
    else if !GuardPasses(pos, size, |s|) then Throws
    else if pos + size > |s| then Overrun
    else Access.Done(s[..pos] + s[pos + size..])
  }

  /** The guard keeps set inside the buffer exactly when the sum of position and length fits 32 bits. */
  lemma SetStaysInside(s: seq<byte>, pos: uint32, src: seq<byte>)
    requires |s| < 0x1_0000_0000 && |src| < 0x1_0000_0000
    ensures Set(s, pos, src).Overrun? <==>
              pos + |src| >= 0x1_0000_0000 && pos + |src| - 0x1_0000_0000 <= |s|
  {
  }

  /** What set wrote is what get reads there; every other byte is as before. */
  lemma GetAfterSet(s: seq<byte>, pos: uint32, src: seq<byte>, k: nat)
    requires Set(s, pos, src).Done? && k < |s|
    ensures var t := Set(s, pos, src).value;
            && t[k] == (if pos <= k < pos + |src| then src[k - pos] else s[k])
            && (0 < |src| < 0x1_0000_0000 && |s| < 0x1_0000_0000 ==> Get(t, pos, |src|) == Access.Done(src))
  {
    var t := Set(s, pos, src).value;
    assert t[pos..pos + |src|] == src;
  }

  /** A range that ends beyond the buffer is refused, unless its end wraps round to a place inside. */
  lemma BeyondTheEnd(s: seq<byte>, pos: uint32, size: uint32)
    requires pos + size > |s| && size > 0 && |s| < 0x1_0000_0000
    ensures Get(s, pos, size) == Remove(s, pos, size)
    ensures Get(s, pos, size) == if 0x1_0000_0000 <= pos + size <= 0x1_0000_0000 + |s| then Overrun else Throws
  {
  }

  /** What removing leaves and what get reads are the parts around and between the two positions. */
  lemma GetAndRemove(before: seq<byte>, middle: seq<byte>, after: seq<byte>)
    requires |before| + |middle| + |after| < 0x1_0000_0000
    ensures var s := before + middle + after;
            && Remove(s, |before|, |middle|) == Access.Done(before + after)
            && Get(s, |before|, |middle|) == if middle == [] then Throws else Access.Done(middle)
  {
    var s := before + middle + after;
    assert s[..|before|] == before && s[|before| + |middle|..] == after;
    assert s[|before|..|before| + |middle|] == middle;
  }

  class Buffer {
    var contents: seq<byte>

    constructor (size: uint32)
      ensures contents == seq(size, _ => 0)
    {
      contents := seq(size, _ => 0);
    }

    /** buffer::get, which throws on an empty result; query lets it pass. */
    method Read(pos: uint32, size: uint32) returns (r: Access<seq<byte>>)
      ensures r == Get(contents, pos, size)
    {
      if (size + pos) % 0x1_0000_0000 > |contents| || size == 0 {
        return Throws;
      }
      if pos + size > |contents| {
        return Overrun;
      }
      r := Access.Done(contents[pos..pos + size]);
    }

    method Write(pos: uint32, src: seq<byte>) returns (r: Access<()>)
      modifies this
      ensures match Set(old(contents), pos, src)
              case Done(t) => r.Done? && contents == t
              case Throws => r.Throws? && contents == old(contents)
              case Overrun => r.Overrun? && contents == old(contents)
    {
      if (|src| + pos) % 0x1_0000_0000 > |contents| {
        return Throws;
      }
      if pos + |src| > |contents| {
        return Overrun;
      }
      contents := contents[..pos] + src + contents[pos + |src|..];
      r := Access.Done(());
    }

    method Append(src: seq<byte>)
      modifies this
      ensures contents == old(contents) + src
    {
      contents := contents + src;
    }

    method Erase(pos: uint32, size: uint32) returns (r: Access<()>)
      modifies this
      ensures match Remove(old(contents), pos, size)
              case Done(t) => r.Done? && contents == t
              case Throws => r.Throws? && contents == old(contents)
              case Overrun => r.Overrun? && contents == old(contents)
    {
      if size == 0 {
        return Access.Done(());
      }
      if (pos + size) % 0x1_0000_0000 > |contents| {
        return Throws;
      }
      if pos + size > |contents| {
        return Overrun;
      }
      contents := contents[..pos] + contents[pos + size..];
      r := Access.Done(());
    }
  }
}
