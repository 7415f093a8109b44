/**
 What crc16 of libdtubase/dtucommon.cpp detects: the register as a shift of single bits, least significant bit of each
 byte first.
 */
module Crc16Bursts {
  import opened Crc
  import opened CrcTables

  // ---------------------------------------------------------------- bytes from any register

  function ShiftAll(r: bv16, data: seq<byte>): bv16
    decreases |data|
  {
    if data == [] then r else ShiftByte(ShiftAll(r, data[..|data| - 1]), data[|data| - 1])
  }

  lemma {:induction false} ModbusIsShift(data: seq<byte>)
    ensures Modbus(data) == ShiftAll(0xFFFF, data)
    decreases |data|
  {
    hide ShiftByte;
    if data != [] {
      ModbusIsShift(data[..|data| - 1]);
    }
  }

  lemma ByteXor(r: bv16, s: bv16, a: byte, b: byte)
    ensures Xor16(Xor16(r, s), XorByte(a, b) as bv16) == Xor16(Xor16(r, a as bv16), Xor16(s, b as bv16))
  {
  }

  lemma ShiftByteLinear(r: bv16, s: bv16, a: byte, b: byte)
    ensures ShiftByte(Xor16(r, s), XorByte(a, b)) == Xor16(ShiftByte(r, a), ShiftByte(s, b))
  {
    hide ShiftNibble, Xor16, XorByte;
    var (x, y) := (Xor16(r, a as bv16), Xor16(s, b as bv16));
    ByteXor(r, s, a, b);
    ShiftNibbleLinear(x, y);
    ShiftNibbleLinear(ShiftNibble(x), ShiftNibble(y));
  }

  lemma {:induction false} ShiftAllLinear(r: bv16, s: bv16, a: seq<byte>, b: seq<byte>)
    requires |a| == |b|
    ensures ShiftAll(Xor16(r, s), XorSeq(a, b)) == Xor16(ShiftAll(r, a), ShiftAll(s, b))
    decreases |a|
  {
    hide ShiftByte, Xor16, XorByte;
    if a != [] {
      var n := |a| - 1;
      assert XorSeq(a, b)[..n] == XorSeq(a[..n], b[..n]);
      ShiftAllLinear(r, s, a[..n], b[..n]);
      ShiftByteLinear(ShiftAll(r, a[..n]), ShiftAll(s, b[..n]), a[n], b[n]);
    }
  }

  lemma XorSelf(r: bv16, s: bv16)
    ensures Xor16(r, r) == 0 && Xor16(0, r) == r && (Xor16(r, s) == 0 <==> r == s)
  {
    if Xor16(r, s) == 0 {
      assert r == s;
    }
  }

  /** The difference of two codes is what the difference of the messages leaves in a register of zeros. */
  lemma CodesDiffer(a: seq<byte>, b: seq<byte>)
    requires |a| == |b|
    ensures Xor16(Modbus(a), Modbus(b)) == ShiftAll(0, XorSeq(a, b))
  {
    hide ShiftAll, Modbus, XorSeq, Xor16;
    XorSelf(0xFFFF, 0xFFFF);
    ModbusIsShift(a);
    ModbusIsShift(b);
    ShiftAllLinear(0xFFFF, 0xFFFF, a, b);
  }

  /** The code of the exclusive or of three messages is the exclusive or of their codes. */
  lemma Crc16Linear(a: seq<byte>, b: seq<byte>, c: seq<byte>)
    requires |a| == |b| == |c|
    ensures Modbus(XorSeq(XorSeq(a, b), c)) == Xor16(Xor16(Modbus(a), Modbus(b)), Modbus(c))
  {
    hide ShiftAll, Modbus, XorSeq, Xor16;
    CodesDiffer(a, b);
    ModbusIsShift(c);
    ModbusIsShift(XorSeq(XorSeq(a, b), c));
    XorSelf(0xFFFF, 0);
    ShiftAllLinear(0, 0xFFFF, XorSeq(a, b), c);
  }

  // ---------------------------------------------------------------- single bits

  /** The bits of a byte, least significant first. */
  function LowBit(b: byte, k: nat): bv1
    requires k < 8
  {
    BitOf(b, 7 - k)
  }

  function BitsOf(b: byte): (r: seq<bv1>)
    ensures |r| == 8 && forall k :: 0 <= k < 8 ==> r[k] == LowBit(b, k)
  {
    seq(8, k requires 0 <= k < 8 => LowBit(b, k))
  }

  function AllBits(data: seq<byte>): (r: seq<bv1>)
    ensures |r| == 8 * |data|
    decreases |data|
  {
    if data == [] then [] else AllBits(data[..|data| - 1]) + BitsOf(data[|data| - 1])
  }

  lemma {:induction false} AllBitsAt(data: seq<byte>, i: nat)
    requires i < 8 * |data|
    ensures AllBits(data)[i] == LowBit(data[i / 8], i % 8)
    decreases |data|
  {
    var n := |data| - 1;
    if i < 8 * n {
      AllBitsAt(data[..n], i);
    } else {
      assert i / 8 == n && i - 8 * n == i % 8;
    }
  }

  /** One bit shifted in. */
  function ShiftIn(r: bv16, x: bv1): bv16 { ShiftBit(Xor16(r, x as bv16)) }

  function ShiftBits(r: bv16, bits: seq<bv1>): bv16
    decreases |bits|
  {
    if bits == [] then r else ShiftBits(ShiftIn(r, bits[0]), bits[1..])
  }

  lemma {:induction false} ShiftBitsJoin(r: bv16, x: seq<bv1>, y: seq<bv1>)
    ensures ShiftBits(r, x + y) == ShiftBits(ShiftBits(r, x), y)
    decreases |x|
  {
    hide ShiftIn;
    if x == [] {
      assert x + y == y;
    } else {
      assert (x + y)[1..] == x[1..] + y;
      ShiftBitsJoin(ShiftIn(r, x[0]), x[1..], y);
    }
  }

  function ShiftTimes(r: bv16, n: nat): bv16
    decreases n
  {
    if n == 0 then r else ShiftTimes(ShiftBit(r), n - 1)
  }

  lemma ShiftBitZero(r: bv16)
    ensures ShiftBit(r) == 0 <==> r == 0
  {
    if ShiftBit(r) == 0 {
      assert r == 0;
    }
  }

  lemma {:induction false} ShiftTimesZero(r: bv16, n: nat)
    ensures ShiftTimes(r, n) == 0 <==> r == 0
    decreases n
  {
    hide ShiftBit;
    if n > 0 {
      ShiftBitZero(r);
      ShiftTimesZero(ShiftBit(r), n - 1);
    }
  }

  // ---------------------------------------------------------------- up to sixteen bits at once

  /** All bits from bit n on. */
  function Above(n: nat): bv16
    requires n <= 16
  {
    match n
    case 0 => 0xFFFF case 1 => 0xFFFE case 2 => 0xFFFC case 3 => 0xFFF8
    case 4 => 0xFFF0 case 5 => 0xFFE0 case 6 => 0xFFC0 case 7 => 0xFF80
    case 8 => 0xFF00 case 9 => 0xFE00 case 10 => 0xFC00 case 11 => 0xF800
    case 12 => 0xF000 case 13 => 0xE000 case 14 => 0xC000 case 15 => 0x8000
    case 16 => 0
  }

  predicate Below(p: bv16, n: nat)
    requires n <= 16
  {
    p & Above(n) == 0
  }

  function Put(x: bv1, p: bv16): bv16 { (x as bv16) | (p << 1) }

  lemma PutBelow(x: bv1, p: bv16, n: nat)
    requires n < 16 && Below(p, n)
    ensures Below(Put(x, p), n + 1) && p & 0x8000 == 0
  {
  }

  /** The bits as a register, the first one lowest. */
  function Pack(bits: seq<bv1>): (p: bv16)
    requires |bits| <= 16
    ensures Below(p, |bits|)
    decreases |bits|
  {
    if bits == [] then 0
    else
      var p := Pack(bits[1..]);
      PutBelow(bits[0], p, |bits| - 1);
      Put(bits[0], p)
  }

  /** Bits still to come may as well stand in the register already. */
  lemma ShiftPut(r: bv16, x: bv1, p: bv16)
    requires p & 0x8000 == 0
    ensures ShiftBit(Xor16(r, Put(x, p))) == Xor16(ShiftIn(r, x), p)
  {
    PutIsXor(x, p);
    ShiftBack(p);
    hide ShiftBit, Xor16, Put;
    XorInside16(r, x as bv16, p << 1);
    ShiftBitLinear(Xor16(r, x as bv16), p << 1);
  }

  lemma PutIsXor(x: bv1, p: bv16)
    ensures Put(x, p) == Xor16(x as bv16, p << 1)
  {
  }

  lemma ShiftBack(p: bv16)
    requires p & 0x8000 == 0
    ensures ShiftBit(p << 1) == p
  {
  }

  lemma {:induction false} PackedShift(r: bv16, bits: seq<bv1>)
    requires |bits| <= 16
    ensures ShiftBits(r, bits) == ShiftTimes(Xor16(r, Pack(bits)), |bits|)
    decreases |bits|
  {
    if bits == [] {
      XorSelf(r, 0);
      assert Xor16(r, 0) == r;
    } else {
      var p := Pack(bits[1..]);
      PutBelow(bits[0], p, |bits| - 1);
      ShiftPut(r, bits[0], p);
      hide ShiftIn, ShiftBit, Xor16, Put, Below;
      PackedShift(ShiftIn(r, bits[0]), bits[1..]);
    }
  }

  lemma {:induction false} PackZero(bits: seq<bv1>)
    requires |bits| <= 16
    ensures Pack(bits) == 0 <==> forall k :: 0 <= k < |bits| ==> bits[k] == 0
    decreases |bits|
  {
    if bits != [] {
      var p := Pack(bits[1..]);
      PutBelow(bits[0], p, |bits| - 1);
      PackZero(bits[1..]);
      PutZero(bits[0], p);
      assert forall k :: 0 <= k < |bits[1..]| ==> bits[1..][k] == bits[k + 1];
      hide Put, Below;
      if forall k :: 0 <= k < |bits[1..]| ==> bits[1..][k] == 0 {
        assert forall k :: 1 <= k < |bits| ==> bits[k] == bits[1..][k - 1];
      }
    }
  }

  lemma PutZero(x: bv1, p: bv16)
    requires p & 0x8000 == 0
    ensures Put(x, p) == 0 <==> x == 0 && p == 0
  {
  }

  lemma PackCons(x: bv1, later: seq<bv1>)
    requires |later| < 16
    ensures Pack([x] + later) == Put(x, Pack(later))
  {
    assert ([x] + later)[1..] == later;
  }

  /** Bits k to k + 3 of a byte on top of others. */
  function PutFour(b: byte, k: nat, p: bv16): bv16
    requires k <= 4
  {
    Put(LowBit(b, k), Put(LowBit(b, k + 1), Put(LowBit(b, k + 2), Put(LowBit(b, k + 3), p))))
  }

  lemma PutEight(b: byte, p: bv16)
    requires p & 0xFF00 == 0
    ensures PutFour(b, 0, PutFour(b, 4, p)) == (b as bv16) | (p << 8)
  {
  }

  lemma PackFour(b: byte, k: nat, later: seq<bv1>)
    requires k <= 4 && |later| <= 8
    ensures Pack(BitsOf(b)[k..] + later) == PutFour(b, k, Pack(BitsOf(b)[k + 4..] + later))
  {
    hide Put, LowBit, Pack, BitsOf;
    PackTail(b, k + 3, later);
    PackTail(b, k + 2, later);
    PackTail(b, k + 1, later);
    PackTail(b, k, later);
  }

  /** A byte packs to itself, below what follows it. */
  lemma PackByte(b: byte, later: seq<bv1>)
    requires |later| <= 8
    ensures Pack(BitsOf(b) + later) == (b as bv16) | (Pack(later) << 8)
  {
    hide *;
    PackedInByte(later);
    assert BitsOf(b)[0..] == BitsOf(b) && BitsOf(b)[8..] + later == later;
    PackFour(b, 4, later);
    PackFour(b, 0, later);
    PutEight(b, Pack(later));
  }

  lemma PackTail(b: byte, k: nat, later: seq<bv1>)
    requires k < 8 && |later| <= 8
    ensures Pack(BitsOf(b)[k..] + later) == Put(LowBit(b, k), Pack(BitsOf(b)[k + 1..] + later))
  {
    hide LowBit, Pack, Put;
    var bits := BitsOf(b);
    FirstOfTail(bits, k, later);
    hide BitsOf;
    PackCons(LowBit(b, k), bits[k + 1..] + later);
  }

  lemma FirstOfTail<T>(s: seq<T>, k: nat, later: seq<T>)
    requires k < |s|
    ensures s[k..] + later == [s[k]] + (s[k + 1..] + later)
  {
    assert s[k..] == [s[k]] + s[k + 1..];
  }

  lemma PackedInByte(later: seq<bv1>)
    requires |later| <= 8
    ensures Pack(later) & 0xFF00 == 0
  {
    var (p, n) := (Pack(later), |later|);
    hide Pack;
    BelowEight(p, n);
  }

  lemma BelowEight(p: bv16, n: nat)
    requires n <= 8 && Below(p, n)
    ensures p & 0xFF00 == 0
  {
  }

  lemma ShiftFour(r: bv16, n: nat)
    ensures ShiftTimes(r, n + 4) == ShiftTimes(ShiftNibble(r), n)
  {
    hide ShiftBit;
    var r1 := ShiftBit(r);
    var r2 := ShiftBit(r1);
    assert ShiftTimes(r, n + 4) == ShiftTimes(r1, n + 3);
    assert ShiftTimes(r1, n + 3) == ShiftTimes(r2, n + 2);
    assert ShiftTimes(r2, n + 2) == ShiftTimes(ShiftBit(r2), n + 1);
  }

  lemma ByteIsTimes(r: bv16, b: byte)
    ensures ShiftByte(r, b) == ShiftTimes(Xor16(r, b as bv16), 8)
  {
    hide ShiftNibble, Xor16;
    var x := Xor16(r, b as bv16);
    ShiftFour(x, 4);
    ShiftFour(ShiftNibble(x), 0);
  }

  lemma BitsAreTimes(r: bv16, b: byte)
    ensures ShiftBits(r, BitsOf(b)) == ShiftTimes(Xor16(r, b as bv16), 8)
  {
    hide *;
    assert BitsOf(b) + [] == BitsOf(b);
    PackByte(b, []);
    NothingPacked(b);
    PackedShift(r, BitsOf(b));
  }

  /** One byte is its eight bits, lowest first. */
  lemma ByteIsBits(r: bv16, b: byte)
    ensures ShiftByte(r, b) == ShiftBits(r, BitsOf(b))
  {
    hide *;
    ByteIsTimes(r, b);
    BitsAreTimes(r, b);
  }

  lemma NothingPacked(b: byte)
    ensures (b as bv16) | (Pack([]) << 8) == b as bv16
  {
  }

  lemma {:induction false} BytesAreBits(r: bv16, data: seq<byte>)
    ensures ShiftAll(r, data) == ShiftBits(r, AllBits(data))
    decreases |data|
  {
    hide ShiftByte, ShiftIn;
    if data != [] {
      var n := |data| - 1;
      BytesAreBits(r, data[..n]);
      ByteIsBits(ShiftAll(r, data[..n]), data[n]);
      ShiftBitsJoin(r, AllBits(data[..n]), BitsOf(data[n]));
    }
  }

  // ---------------------------------------------------------------- bursts and residue

  lemma {:induction false} ZeroBitsIn(r: bv16, bits: seq<bv1>)
    requires forall k :: 0 <= k < |bits| ==> bits[k] == 0
    ensures ShiftBits(r, bits) == 0 <==> r == 0
    decreases |bits|
  {
    if bits != [] {
      XorSelf(r, 0);
      assert ShiftIn(r, bits[0]) == ShiftBit(r) by {
        assert Xor16(r, 0) == r;
      }
      ShiftBitZero(r);
      hide ShiftIn, ShiftBit;
      ZeroBitsIn(ShiftIn(r, bits[0]), bits[1..]);
    }
  }

  /** Bits that are zero but for up to sixteen in a row leave the register zero only if these are zero too. */
  lemma WindowShows16(bits: seq<bv1>, q: nat, e: nat)
    requires q <= e <= |bits| && e - q <= 16
    requires forall k :: 0 <= k < |bits| && !(q <= k < e) ==> bits[k] == 0
    ensures ShiftBits(0, bits) == 0 <==> forall k :: 0 <= k < |bits| ==> bits[k] == 0
  {
    hide ShiftIn, Pack, Xor16;
    var (before, w, later) := (bits[..q], bits[q..e], bits[e..]);
    assert bits == before + (w + later);
    ShiftBitsJoin(0, before, w + later);
    ZeroBitsIn(0, before);
    ShiftBitsJoin(0, w, later);
    ZeroBitsIn(ShiftBits(0, w), later);
    PackedShift(0, w);
    XorSelf(Pack(w), 0);
    ShiftTimesZero(Pack(w), |w|);
    PackZero(w);
    assert forall k :: 0 <= k < |w| ==> w[k] == bits[q + k];
    if forall k :: 0 <= k < |w| ==> w[k] == 0 {
      forall k | 0 <= k < |bits| ensures bits[k] == 0 {
        assert q <= k < e ==> w[k - q] == bits[k];
      }
    }
  }

  /** Bit i of a message as crc16 takes it, least significant bit of each byte first. */
  function BitAt(data: seq<byte>, i: nat): bv1
    requires i < 8 * |data|
  {
    LowBit(data[i / 8], i % 8)
  }

  lemma LowBitXor(a: byte, b: byte, k: nat)
    requires k < 8
    ensures LowBit(XorByte(a, b), k) == 0 <==> LowBit(a, k) == LowBit(b, k)
  {
    hide BitOf, XorByte;
    BitOfLinear(a, b, 7 - k);
    XorBit(BitOf(a, 7 - k), BitOf(b, 7 - k));
  }

  lemma XorBit(x: bv1, y: bv1)
    ensures x ^ y == 0 <==> x == y
  {
  }

  lemma LowBitsTell(a: byte, b: byte)
    requires forall k :: 0 <= k < 8 ==> LowBit(a, k) == LowBit(b, k)
    ensures a == b
  {
    forall k | 0 <= k < 8 ensures BitOf(a, k) == BitOf(b, k) {
      assert LowBit(a, 7 - k) == LowBit(b, 7 - k);
    }
    hide BitOf;
    SameBits(a, b);
  }

  lemma DifferenceAt(a: seq<byte>, b: seq<byte>, i: nat)
    requires |a| == |b| && i < 8 * |a|
    ensures AllBits(XorSeq(a, b))[i] == 0 <==> BitAt(a, i) == BitAt(b, i)
  {
    hide LowBit, XorByte;
    AllBitsAt(XorSeq(a, b), i);
    LowBitXor(a[i / 8], b[i / 8], i % 8);
  }

  lemma SomeBitDiffers(a: seq<byte>, b: seq<byte>) returns (i: nat)
    requires |a| == |b| && a != b
    ensures i < 8 * |a| && BitAt(a, i) != BitAt(b, i)
  {
    hide LowBit;
    var k :| 0 <= k < |a| && a[k] != b[k];
    if forall j :: 0 <= j < 8 ==> LowBit(a[k], j) == LowBit(b[k], j) {
      LowBitsTell(a[k], b[k]);
    }
    var j :| 0 <= j < 8 && LowBit(a[k], j) != LowBit(b[k], j);
    i := 8 * k + j;
    assert i / 8 == k && i % 8 == j;
  }

  lemma SwappedTells(r: bv16, s: bv16)
    ensures Swapped(r) == Swapped(s) <==> r == s
  {
    if Swapped(r) == Swapped(s) {
      assert r == s;
    }
  }

  /**
   Two different messages that differ only inside 16 consecutive bits, wherever these start, never have the same code.
   */
  lemma Crc16DetectsBursts(a: seq<byte>, b: seq<byte>, q: nat)
    requires |a| == |b| && a != b
    requires forall i :: 0 <= i < 8 * |a| && !(q <= i < q + 16) ==> BitAt(a, i) == BitAt(b, i)
    ensures Swapped(Modbus(a)) != Swapped(Modbus(b))
  {
    hide LowBit, Modbus, Swapped, ShiftAll, ShiftBits, XorSeq, BitAt, AllBits, Xor16;
    var n, d := 8 * |a|, AllBits(XorSeq(a, b));
    var i := SomeBitDiffers(a, b);
    forall k | 0 <= k < n ensures d[k] == 0 <==> BitAt(a, k) == BitAt(b, k) {
      DifferenceAt(a, b, k);
    }
    assert q <= i < n && d[i] != 0;
    WindowShows16(d, q, if q + 16 < n then q + 16 else n);
    BytesAreBits(0, XorSeq(a, b));
    CodesDiffer(a, b);
    XorSelf(Modbus(a), Modbus(b));
    SwappedTells(Modbus(a), Modbus(b));
  }

  /**
   The code of a message followed by two bytes is zero exactly if these are its own code, high byte of the result first.
   */
  lemma Crc16Residue(data: seq<byte>, hi: byte, lo: byte)
    ensures Modbus(data + [hi, lo]) == 0 <==> Swapped(Modbus(data)) == Register16(hi, lo)
  {
    hide ShiftByte, ShiftBits, Pack, Xor16, BitsOf, Swapped, Register16;
    var m, all := Modbus(data), data + [hi, lo];
    assert all[..|data| + 1] == data + [hi] && (data + [hi])[..|data|] == data;
    ByteIsBits(m, hi);
    ByteIsBits(ShiftByte(m, hi), lo);
    var bits := BitsOf(hi) + BitsOf(lo);
    ShiftBitsJoin(m, BitsOf(hi), BitsOf(lo));
    PackedShift(m, bits);
    ShiftTimesZero(Xor16(m, Pack(bits)), 16);
    XorSelf(m, Pack(bits));
    PackTwo(hi, lo);
    SwapHalves(lo, hi);
    SwappedTells(m, Register16(lo, hi));
  }

  lemma PackTwo(hi: byte, lo: byte)
    ensures Pack(BitsOf(hi) + BitsOf(lo)) == Register16(lo, hi)
  {
    PackByte(hi, BitsOf(lo));
    PackByte(lo, []);
    assert BitsOf(lo) + [] == BitsOf(lo);
    NothingPacked(lo);
    hide Pack;
    OrCommutes(hi, lo);
  }

  lemma OrCommutes(hi: byte, lo: byte)
    ensures (hi as bv16) | ((lo as bv16) << 8) == Register16(lo, hi)
  {
  }
}
