/**
 crc32 and crc16 of libdtubase/dtucommon.cpp: the table-driven loops against bit-serial polynomial division.
 */
module Crc {
  import opened CrcTables

  // ---------------------------------------------------------------- bit-serial division

  /** The generator polynomial of IEEE 802.3 section 3.2.9 without its leading term. */
  const POLYNOMIAL_32: bv32 := 0x04C11DB7

  function Xor(a: bv32, b: bv32): bv32 { a ^ b }

  function XorByte(a: byte, b: byte): byte { a ^ b }

  predicate Leading(r: bv32) { r & 0x8000_0000 != 0 }

  function BringDown(r: bv32, bit: bv1): bv32 { (r << 1) | (bit as bv32) }

  /** One step of the long division: bring down the next message bit, subtract the divisor if the leading term was 1. */
  function DivideBit(r: bv32, bit: bv1): bv32 {
    if Leading(r) then Xor(BringDown(r, bit), POLYNOMIAL_32) else BringDown(r, bit)
  }

  /** The bits of a byte, most significant first. */
  function BitOf(b: byte, k: nat): bv1
    requires k < 8
  {
    ((b >> (7 - k)) & 1) as bv1
  }

  /** Four steps of the division, from bit k on. */
  function DivideNibble(r: bv32, b: byte, k: nat): bv32
    requires k <= 4
  {
    DivideBit(DivideBit(DivideBit(DivideBit(r, BitOf(b, k)), BitOf(b, k + 1)), BitOf(b, k + 2)), BitOf(b, k + 3))
  }

  function DivideByte(r: bv32, b: byte): bv32 { DivideNibble(DivideNibble(r, b, 0), b, 4) }

  /** The remainder left after dividing register r followed by the bytes. */
  function Divide(r: bv32, data: seq<byte>): bv32
    decreases |data|
  {
    if data == [] then r else DivideByte(Divide(r, data[..|data| - 1]), data[|data| - 1])
  }

  const ZEROS: seq<byte> := [0, 0, 0, 0]

  /** The remainder of the message times x^32 (init 0, not reflected, no final xor). */
  function Remainder32(data: seq<byte>): bv32 { Divide(0, data + ZEROS) }

  /** The MODBUS generator, reflected (MODBUS over Serial Line V1.02 section 6.2.2). */
  const POLYNOMIAL_16: bv16 := 0xA001

  function Xor16(a: bv16, b: bv16): bv16 { a ^ b }

  predicate Odd16(r: bv16) { r & 1 != 0 }

  function Half16(r: bv16): bv16 { r >> 1 }

  function ShiftBit(r: bv16): bv16 {
    if Odd16(r) then Xor16(Half16(r), POLYNOMIAL_16) else Half16(r)
  }

  function ShiftNibble(r: bv16): bv16 { ShiftBit(ShiftBit(ShiftBit(ShiftBit(r)))) }

  function ShiftByte(r: bv16, b: byte): bv16 { ShiftNibble(ShiftNibble(Xor16(r, b as bv16))) }

  function Modbus(data: seq<byte>): bv16
    decreases |data|
  {
    if data == [] then 0xFFFF else ShiftByte(Modbus(data[..|data| - 1]), data[|data| - 1])
  }

  // ---------------------------------------------------------------- the tables hold the bit-serial steps

  lemma Entries0(b: byte)
    requires b >> 4 == 0x0
    ensures Crc32Tab(b) == DivideByte((b as bv32) << 24, 0)
    ensures ((CrcLo(b) as bv16) << 8) | (CrcHi(b) as bv16) == ShiftByte(0, b)
  {
  }

  lemma Entries1(b: byte)
    requires b >> 4 == 0x1
    ensures Crc32Tab(b) == DivideByte((b as bv32) << 24, 0)
    ensures ((CrcLo(b) as bv16) << 8) | (CrcHi(b) as bv16) == ShiftByte(0, b)
  {
  }

  lemma Entries2(b: byte)
    requires b >> 4 == 0x2
    ensures Crc32Tab(b) == DivideByte((b as bv32) << 24, 0)
    ensures ((CrcLo(b) as bv16) << 8) | (CrcHi(b) as bv16) == ShiftByte(0, b)
  {
  }

  lemma Entries3(b: byte)
    requires b >> 4 == 0x3
    ensures Crc32Tab(b) == DivideByte((b as bv32) << 24, 0)
    ensures ((CrcLo(b) as bv16) << 8) | (CrcHi(b) as bv16) == ShiftByte(0, b)
  {
  }

  lemma Entries4(b: byte)
    requires b >> 4 == 0x4
    ensures Crc32Tab(b) == DivideByte((b as bv32) << 24, 0)
    ensures ((CrcLo(b) as bv16) << 8) | (CrcHi(b) as bv16) == ShiftByte(0, b)
  {
  }

  lemma Entries5(b: byte)
    requires b >> 4 == 0x5
    ensures Crc32Tab(b) == DivideByte((b as bv32) << 24, 0)
    ensures ((CrcLo(b) as bv16) << 8) | (CrcHi(b) as bv16) == ShiftByte(0, b)
  {
  }

  lemma Entries6(b: byte)
    requires b >> 4 == 0x6
    ensures Crc32Tab(b) == DivideByte((b as bv32) << 24, 0)
    ensures ((CrcLo(b) as bv16) << 8) | (CrcHi(b) as bv16) == ShiftByte(0, b)
  {
  }

  lemma Entries7(b: byte)
    requires b >> 4 == 0x7
    ensures Crc32Tab(b) == DivideByte((b as bv32) << 24, 0)
    ensures ((CrcLo(b) as bv16) << 8) | (CrcHi(b) as bv16) == ShiftByte(0, b)
  {
  }

  lemma Entries8(b: byte)
    requires b >> 4 == 0x8
    ensures Crc32Tab(b) == DivideByte((b as bv32) << 24, 0)
    ensures ((CrcLo(b) as bv16) << 8) | (CrcHi(b) as bv16) == ShiftByte(0, b)
  {
  }

  lemma Entries9(b: byte)
    requires b >> 4 == 0x9
    ensures Crc32Tab(b) == DivideByte((b as bv32) << 24, 0)
    ensures ((CrcLo(b) as bv16) << 8) | (CrcHi(b) as bv16) == ShiftByte(0, b)
  {
  }

  lemma EntriesA(b: byte)
    requires b >> 4 == 0xA
    ensures Crc32Tab(b) == DivideByte((b as bv32) << 24, 0)
    ensures ((CrcLo(b) as bv16) << 8) | (CrcHi(b) as bv16) == ShiftByte(0, b)
  {
  }

  lemma EntriesB(b: byte)
    requires b >> 4 == 0xB
    ensures Crc32Tab(b) == DivideByte((b as bv32) << 24, 0)
    ensures ((CrcLo(b) as bv16) << 8) | (CrcHi(b) as bv16) == ShiftByte(0, b)
  {
  }

  lemma EntriesC(b: byte)
    requires b >> 4 == 0xC
    ensures Crc32Tab(b) == DivideByte((b as bv32) << 24, 0)
    ensures ((CrcLo(b) as bv16) << 8) | (CrcHi(b) as bv16) == ShiftByte(0, b)
  {
  }

  lemma EntriesD(b: byte)
    requires b >> 4 == 0xD
    ensures Crc32Tab(b) == DivideByte((b as bv32) << 24, 0)
    ensures ((CrcLo(b) as bv16) << 8) | (CrcHi(b) as bv16) == ShiftByte(0, b)
  {
  }

  lemma EntriesE(b: byte)
    requires b >> 4 == 0xE
    ensures Crc32Tab(b) == DivideByte((b as bv32) << 24, 0)
    ensures ((CrcLo(b) as bv16) << 8) | (CrcHi(b) as bv16) == ShiftByte(0, b)
  {
  }

  lemma EntriesF(b: byte)
    requires b >> 4 == 0xF
    ensures Crc32Tab(b) == DivideByte((b as bv32) << 24, 0)
    ensures ((CrcLo(b) as bv16) << 8) | (CrcHi(b) as bv16) == ShiftByte(0, b)
  {
  }

  /** Every entry is eight division steps on the byte in the leading position, with zeros brought down. */
  lemma TableEntries(b: byte)
    ensures Crc32Tab(b) == DivideByte((b as bv32) << 24, 0)
    ensures ((CrcLo(b) as bv16) << 8) | (CrcHi(b) as bv16) == ShiftByte(0, b)
  {
    hide DivideByte, ShiftByte, Crc32Tab, CrcLo, CrcHi;
    match b >> 4
    case 0 => Entries0(b); case 1 => Entries1(b);
    case 2 => Entries2(b); case 3 => Entries3(b);
    case 4 => Entries4(b); case 5 => Entries5(b);
    case 6 => Entries6(b); case 7 => Entries7(b);
    case 8 => Entries8(b); case 9 => Entries9(b);
    case 10 => EntriesA(b); case 11 => EntriesB(b);
    case 12 => EntriesC(b); case 13 => EntriesD(b);
    case 14 => EntriesE(b); case _ => EntriesF(b);
  }

  // ---------------------------------------------------------------- division is linear

  lemma BringDownLinear(r: bv32, s: bv32, x: bv1, y: bv1)
    ensures BringDown(Xor(r, s), x ^ y) == Xor(BringDown(r, x), BringDown(s, y))
  {
  }

  lemma LeadingLinear(r: bv32, s: bv32)
    ensures Leading(Xor(r, s)) <==> Leading(r) != Leading(s)
  {
  }

  lemma XorAside(a: bv32, b: bv32, p: bv32)
    ensures Xor(Xor(a, p), b) == Xor(Xor(a, b), p) == Xor(a, Xor(b, p)) && Xor(Xor(a, p), Xor(b, p)) == Xor(a, b)
  {
  }

  lemma DivideBitLinear(r: bv32, s: bv32, x: bv1, y: bv1)
    ensures DivideBit(Xor(r, s), x ^ y) == Xor(DivideBit(r, x), DivideBit(s, y))
  {
    hide Xor, BringDown, Leading;
    BringDownLinear(r, s, x, y);
    LeadingLinear(r, s);
    XorAside(BringDown(r, x), BringDown(s, y), POLYNOMIAL_32);
  }

  lemma BitOfLinear(a: byte, b: byte, k: nat)
    requires k < 8
    ensures BitOf(XorByte(a, b), k) == BitOf(a, k) ^ BitOf(b, k)
  {
    match k
    case 0 => case 1 => case 2 => case 3 => case 4 => case 5 => case 6 => case _ =>
  }

  lemma DivideNibbleLinear(r: bv32, s: bv32, a: byte, b: byte, k: nat)
    requires k <= 4
    ensures DivideNibble(Xor(r, s), XorByte(a, b), k) == Xor(DivideNibble(r, a, k), DivideNibble(s, b, k))
  {
    hide DivideBit, BitOf, Xor, XorByte;
    BitOfLinear(a, b, k);
    BitOfLinear(a, b, k + 1);
    BitOfLinear(a, b, k + 2);
    BitOfLinear(a, b, k + 3);
    var (r1, s1) := (DivideBit(r, BitOf(a, k)), DivideBit(s, BitOf(b, k)));
    var (r2, s2) := (DivideBit(r1, BitOf(a, k + 1)), DivideBit(s1, BitOf(b, k + 1)));
    var (r3, s3) := (DivideBit(r2, BitOf(a, k + 2)), DivideBit(s2, BitOf(b, k + 2)));
    DivideBitLinear(r, s, BitOf(a, k), BitOf(b, k));
    DivideBitLinear(r1, s1, BitOf(a, k + 1), BitOf(b, k + 1));
    DivideBitLinear(r2, s2, BitOf(a, k + 2), BitOf(b, k + 2));
    DivideBitLinear(r3, s3, BitOf(a, k + 3), BitOf(b, k + 3));
  }

  lemma DivideByteLinear(r: bv32, s: bv32, a: byte, b: byte)
    ensures DivideByte(Xor(r, s), XorByte(a, b)) == Xor(DivideByte(r, a), DivideByte(s, b))
  {
    hide DivideNibble, Xor, XorByte;
    DivideNibbleLinear(r, s, a, b, 0);
    DivideNibbleLinear(DivideNibble(r, a, 0), DivideNibble(s, b, 0), a, b, 4);
  }

  lemma LeadingBitsClear(r: bv32, x: bv1, m: bv32)
    requires r & m == 0 && m & 0x8000_0000 != 0
    ensures !Leading(r) && BringDown(r, x) & (m << 1) == 0
    ensures DivideBit(r, x) == BringDown(r, x)
  {
  }

  lemma FoldByte(r: bv32, b: byte)
    ensures var r4 := BringDown(BringDown(BringDown(BringDown(r, BitOf(b, 0)), BitOf(b, 1)), BitOf(b, 2)), BitOf(b, 3));
            (r << 8) | (b as bv32)
            == BringDown(BringDown(BringDown(BringDown(r4, BitOf(b, 4)), BitOf(b, 5)), BitOf(b, 6)), BitOf(b, 7))
  {
  }

  /** With the leading byte clear nothing is subtracted: the byte is only brought down. */
  lemma NothingToSubtract(r: bv32, b: byte)
    requires r & 0xFF00_0000 == 0
    ensures DivideByte(r, b) == Join(r, b)
  {
    hide DivideBit, BringDown, BitOf, Leading;
    var r1 := BringDown(r, BitOf(b, 0));
    var r2 := BringDown(r1, BitOf(b, 1));
    var r3 := BringDown(r2, BitOf(b, 2));
    var r4 := BringDown(r3, BitOf(b, 3));
    var r5 := BringDown(r4, BitOf(b, 4));
    var r6 := BringDown(r5, BitOf(b, 5));
    var r7 := BringDown(r6, BitOf(b, 6));
    LeadingBitsClear(r, BitOf(b, 0), 0xFF00_0000);
    LeadingBitsClear(r1, BitOf(b, 1), 0xFE00_0000);
    LeadingBitsClear(r2, BitOf(b, 2), 0xFC00_0000);
    LeadingBitsClear(r3, BitOf(b, 3), 0xF800_0000);
    LeadingBitsClear(r4, BitOf(b, 4), 0xF000_0000);
    LeadingBitsClear(r5, BitOf(b, 5), 0xE000_0000);
    LeadingBitsClear(r6, BitOf(b, 6), 0xC000_0000);
    LeadingBitsClear(r7, BitOf(b, 7), 0x8000_0000);
    FoldByte(r, b);
  }

  function HighByte(r: bv32): bv32 { ((r >> 24) as byte as bv32) << 24 }

  function LowBytes(r: bv32): bv32 { r & 0x00FF_FFFF }

  function Join(r: bv32, b: byte): bv32 { (r << 8) | (b as bv32) }

  /** The assignment of the loop of crc32. */
  function TableStep(r: bv32, b: byte): bv32 { ((r << 8) | (b as bv32)) ^ Crc32Tab((r >> 24) as byte) }

  lemma SplitRegister(r: bv32, b: byte)
    ensures Xor(HighByte(r), LowBytes(r)) == r && XorByte(0, b) == b
    ensures TableStep(r, b) == Xor(Crc32Tab((r >> 24) as byte), Join(LowBytes(r), b))
  {
    hide Crc32Tab;
  }

  lemma HighByteDivided(r: bv32)
    ensures DivideByte(HighByte(r), 0) == Crc32Tab((r >> 24) as byte) && LowBytes(r) & 0xFF00_0000 == 0
  {
    hide Crc32Tab, CrcLo, CrcHi, ShiftByte, DivideByte;
    TableEntries((r >> 24) as byte);
  }

  /** The table step brings down a whole byte at once. */
  lemma TableStep32(r: bv32, b: byte)
    ensures TableStep(r, b) == DivideByte(r, b)
  {
    hide DivideByte, Crc32Tab, ShiftByte, CrcLo, CrcHi, Xor, XorByte, Join, HighByte, LowBytes, TableStep;
    var high, low := HighByte(r), LowBytes(r);
    HighByteDivided(r);
    SplitRegister(r, b);
    NothingToSubtract(low, b);
    DivideByteLinear(high, low, 0, b);
  }

  lemma HalvesLinear(r: bv16, s: bv16)
    ensures Half16(Xor16(r, s)) == Xor16(Half16(r), Half16(s))
    ensures Odd16(Xor16(r, s)) <==> Odd16(r) != Odd16(s)
  {
  }

  lemma XorAside16(a: bv16, b: bv16, p: bv16)
    ensures Xor16(Xor16(a, p), b) == Xor16(Xor16(a, b), p)
  {
  }

  lemma XorInside16(a: bv16, b: bv16, p: bv16)
    ensures Xor16(a, Xor16(b, p)) == Xor16(Xor16(a, b), p)
  {
  }

  lemma XorCancels16(a: bv16, p: bv16)
    ensures Xor16(Xor16(a, p), p) == a
  {
  }

  lemma XorTwice16(a: bv16, b: bv16, p: bv16)
    ensures Xor16(Xor16(a, p), Xor16(b, p)) == Xor16(a, b)
  {
    hide Xor16;
    XorAside16(a, Xor16(b, p), p);
    XorInside16(a, b, p);
    XorCancels16(Xor16(a, b), p);
  }

  lemma ShiftBitLinear(r: bv16, s: bv16)
    ensures ShiftBit(Xor16(r, s)) == Xor16(ShiftBit(r), ShiftBit(s))
  {
    hide Xor16, Half16, Odd16;
    HalvesLinear(r, s);
    XorAside16(Half16(r), Half16(s), POLYNOMIAL_16);
    XorInside16(Half16(r), Half16(s), POLYNOMIAL_16);
    XorTwice16(Half16(r), Half16(s), POLYNOMIAL_16);
  }

  lemma ShiftNibbleLinear(r: bv16, s: bv16)
    ensures ShiftNibble(Xor16(r, s)) == Xor16(ShiftNibble(r), ShiftNibble(s))
  {
    hide ShiftBit, Xor16;
    ShiftBitLinear(r, s);
    ShiftBitLinear(ShiftBit(r), ShiftBit(s));
    ShiftBitLinear(ShiftBit(ShiftBit(r)), ShiftBit(ShiftBit(s)));
    ShiftBitLinear(ShiftBit(ShiftBit(ShiftBit(r))), ShiftBit(ShiftBit(ShiftBit(s))));
  }

  /** The register of crc16 from its two halves. */
  function Register16(hi: byte, lo: byte): bv16 { ((hi as bv16) << 8) | (lo as bv16) }

  lemma HighHalfShiftsDown(hi: byte)
    ensures ShiftNibble(ShiftNibble((hi as bv16) << 8)) == hi as bv16
  {
  }

  lemma SplitRegister16(hi: byte, lo: byte, b: byte, u: byte, v: byte)
    ensures Xor16(Register16(hi, lo), b as bv16) == Xor16((hi as bv16) << 8, Xor16(0, (lo ^ b) as bv16))
    ensures Xor16(hi as bv16, ((u as bv16) << 8) | (v as bv16)) == Register16(u, hi ^ v)
  {
  }

  lemma TableStep16(hi: byte, lo: byte, b: byte)
    ensures ShiftByte(Register16(hi, lo), b) == Register16(CrcLo(lo ^ b), hi ^ CrcHi(lo ^ b))
  {
    hide ShiftNibble, Crc32Tab, CrcLo, CrcHi, DivideByte, Xor16, Register16;
    var i := lo ^ b;
    TableEntries(i);
    SplitRegister16(hi, lo, b, CrcLo(i), CrcHi(i));
    ShiftNibbleLinear((hi as bv16) << 8, Xor16(0, i as bv16));
    ShiftNibbleLinear(ShiftNibble((hi as bv16) << 8), ShiftNibble(Xor16(0, i as bv16)));
    HighHalfShiftsDown(hi);
  }

  lemma DivideNext(data: seq<byte>, n: nat)
    requires n < |data|
    ensures Divide(0, data[..n + 1]) == DivideByte(Divide(0, data[..n]), data[n])
  {
    assert data[..n + 1][..n] == data[..n];
  }

  // ---------------------------------------------------------------- the loops of the source

  method Crc32(buf: seq<byte>) returns (crcResult: bv32)
    ensures crcResult == Remainder32(buf)
  {
    hide DivideByte, TableStep;
    ghost var all := buf + ZEROS;
    crcResult := 0;
    assert all[..0] == [];
    for k := 0 to |buf|
      invariant crcResult == Divide(0, all[..k])
    {
      DivideNext(all, k);
      TableStep32(crcResult, buf[k]);
      crcResult := Crc32Step(crcResult, buf[k]);
    }
    for i := 0 to 4
      invariant crcResult == Divide(0, all[..|buf| + i])
    {
      DivideNext(all, |buf| + i);
      TableStep32(crcResult, 0);
      crcResult := Crc32Step(crcResult, 0);
    }
    assert all[..|buf| + 4] == all;
  }

  method Crc32Step(crc: bv32, b: byte) returns (r: bv32)
    ensures r == TableStep(crc, b)
  {
    hide Crc32Tab;
    r := ((crc << 8) | (b as bv32)) ^ Crc32Tab((crc >> 24) as byte);
  }

  /** crc16 returns the MODBUS code with its two bytes swapped. */
  method Crc16(data: seq<byte>) returns (code: bv16)
    ensures code == Swapped(Modbus(data))
  {
    hide ShiftByte, CrcLo, CrcHi;
    var ucCRCHi: byte, ucCRCLo: byte := 0xFF, 0xFF;
    for k := 0 to |data|
      invariant Register16(ucCRCHi, ucCRCLo) == Modbus(data[..k])
    {
      assert data[..k + 1][..k] == data[..k];
      TableStep16(ucCRCHi, ucCRCLo, data[k]);
      var index := ucCRCLo ^ data[k];
      ucCRCLo := ucCRCHi ^ CrcHi(index);
      ucCRCHi := CrcLo(index);
    }
    assert data[..|data|] == data;
    code := ((ucCRCLo as bv16) << 8) | (ucCRCHi as bv16);
    SwapHalves(ucCRCHi, ucCRCLo);
  }

  function Swapped(r: bv16): bv16 { (r << 8) | (r >> 8) }

  lemma SwapHalves(hi: byte, lo: byte)
    ensures Swapped(Register16(hi, lo)) == Register16(lo, hi)
  {
  }

  // ---------------------------------------------------------------- what the code detects

  function XorSeq(a: seq<byte>, b: seq<byte>): (r: seq<byte>)
    requires |a| == |b|
    ensures |r| == |a|
  {
    seq(|a|, k requires 0 <= k < |a| => XorByte(a[k], b[k]))
  }

  lemma {:induction false} DivideLinear(r: bv32, s: bv32, a: seq<byte>, b: seq<byte>)
    requires |a| == |b|
    ensures Divide(Xor(r, s), XorSeq(a, b)) == Xor(Divide(r, a), Divide(s, b))
    decreases |a|
  {
    hide DivideByte, Xor, XorByte;
    if a != [] {
      var n := |a| - 1;
      assert XorSeq(a, b)[..n] == XorSeq(a[..n], b[..n]);
      DivideLinear(r, s, a[..n], b[..n]);
      DivideByteLinear(Divide(r, a[..n]), Divide(s, b[..n]), a[n], b[n]);
    }
  }

  lemma XorZeros()
    ensures Xor(0, 0) == 0 && XorByte(0, 0) == 0
  {
  }

  lemma XorCancels(r: bv32, s: bv32)
    ensures Xor(r, s) == 0 <==> r == s
  {
    if r == s {
      assert Xor(r, s) == 0;
    }
    if Xor(r, s) == 0 {
      assert r == s;
    }
  }

  lemma XorBytes()
    ensures forall x: byte, y: byte :: XorByte(x, y) == 0 <==> x == y
    ensures forall x: byte :: XorByte(x, 0) == x && XorByte(0, x) == x
  {
  }

  /** The code of an exclusive or is the exclusive or of the codes. */
  lemma Crc32Linear(a: seq<byte>, b: seq<byte>)
    requires |a| == |b|
    ensures Remainder32(XorSeq(a, b)) == Xor(Remainder32(a), Remainder32(b))
  {
    hide Divide, Xor, XorByte;
    XorZeros();
    assert XorSeq(a + ZEROS, b + ZEROS) == XorSeq(a, b) + ZEROS;
    DivideLinear(0, 0, a + ZEROS, b + ZEROS);
  }

  lemma ZeroStaysZero()
    ensures DivideByte(0, 0) == 0
  {
    NothingToSubtract(0, 0);
    assert Join(0, 0) == 0;
  }

  lemma {:induction false} LeadingZeros(data: seq<byte>)
    requires forall k :: 0 <= k < |data| ==> data[k] == 0
    ensures Divide(0, data) == 0
    decreases |data|
  {
    hide DivideByte;
    if data != [] {
      LeadingZeros(data[..|data| - 1]);
      ZeroStaysZero();
    }
  }

  lemma BitStepKeepsNonzero(r: bv32)
    requires r != 0
    ensures DivideBit(r, 0) != 0
  {
  }

  lemma ByteStepKeepsNonzero(r: bv32)
    requires r != 0
    ensures DivideByte(r, 0) != 0
  {
    hide DivideBit;
    assert forall k: nat :: k < 8 ==> BitOf(0, k) == 0;
    var r1 := DivideBit(r, 0);
    var r2 := DivideBit(r1, 0);
    var r3 := DivideBit(r2, 0);
    var r4 := DivideBit(r3, 0);
    var r5 := DivideBit(r4, 0);
    var r6 := DivideBit(r5, 0);
    BitStepKeepsNonzero(r);
    BitStepKeepsNonzero(r1);
    BitStepKeepsNonzero(r2);
    BitStepKeepsNonzero(r3);
    BitStepKeepsNonzero(r4);
    BitStepKeepsNonzero(r5);
    BitStepKeepsNonzero(r6);
    BitStepKeepsNonzero(DivideBit(r6, 0));
  }

  lemma {:induction false} TrailingZerosKeepNonzero(data: seq<byte>, n: nat)
    requires n <= |data| && Divide(0, data[..n]) != 0
    requires forall k :: n <= k < |data| ==> data[k] == 0
    ensures Divide(0, data) != 0
    decreases |data|
  {
    hide DivideByte;
    if n < |data| {
      var shorter := data[..|data| - 1];
      assert shorter[..n] == data[..n];
      TrailingZerosKeepNonzero(shorter, n);
      ByteStepKeepsNonzero(Divide(0, shorter));
    } else {
      assert data[..n] == data;
    }
  }

  /** The final four zero bytes decide nothing about a remainder of zero. */
  lemma ZerosKeepZero(data: seq<byte>)
    ensures Remainder32(data) == 0 <==> Divide(0, data) == 0
  {
    hide DivideByte;
    var all, n := data + ZEROS, |data|;
    assert all[..n] == data;
    if Divide(0, data) == 0 {
      ZeroStaysZero();
      DivideNext(all, n);
      DivideNext(all, n + 1);
      DivideNext(all, n + 2);
      DivideNext(all, n + 3);
      assert all[..n + 4] == all;
    } else {
      TrailingZerosKeepNonzero(all, n);
    }
  }

  /** The four bytes w as a register, most significant first. */
  function BigEndian(w: seq<byte>): bv32
    requires |w| == 4
  {
    Join(Join(Join(Join(0, w[0]), w[1]), w[2]), w[3])
  }

  lemma JoinRoom(a: byte, b: byte, c: byte)
    ensures Join(0, a) & 0xFF00_0000 == 0 && Join(Join(0, a), b) & 0xFF00_0000 == 0
    ensures Join(Join(Join(0, a), b), c) & 0xFF00_0000 == 0
  {
  }

  /** After zeros, four bytes simply fill the register. */
  lemma WindowFillsRegister(data: seq<byte>, p: nat)
    requires p + 4 <= |data| && forall k :: 0 <= k < p ==> data[k] == 0
    ensures Divide(0, data[..p + 4]) == BigEndian(data[p..p + 4])
  {
    hide DivideByte, Join;
    var (a, b, c, d) := (data[p], data[p + 1], data[p + 2], data[p + 3]);
    LeadingZeros(data[..p]);
    JoinRoom(a, b, c);
    assert data[p..p + 4] == [a, b, c, d];
    DivideNext(data, p);
    DivideNext(data, p + 1);
    DivideNext(data, p + 2);
    DivideNext(data, p + 3);
    NothingToSubtract(0, a);
    NothingToSubtract(Join(0, a), b);
    NothingToSubtract(Join(Join(0, a), b), c);
    NothingToSubtract(Join(Join(Join(0, a), b), c), d);
  }

  lemma BigEndianZero(w: seq<byte>)
    requires |w| == 4
    ensures BigEndian(w) == 0 ==> w[0] == 0 && w[1] == 0 && w[2] == 0 && w[3] == 0
  {
  }

  // ---------------------------------------------------------------- bursts of up to 32 bits

  /** Bit i of a message, most significant bit of each byte first. */
  function MessageBit(data: seq<byte>, i: nat): bv1
    requires i < 8 * |data|
  {
    BitOf(data[i / 8], i % 8)
  }

  /** The division of the bits of a byte from bit k on. */
  function DivideFrom(r: bv32, b: byte, k: nat): bv32
    requires k <= 8
    decreases 8 - k
  {
    if k == 8 then r else DivideFrom(DivideBit(r, BitOf(b, k)), b, k + 1)
  }

  lemma DivideFromStep(r: bv32, b: byte, k: nat)
    requires k < 8
    ensures DivideFrom(r, b, k) == DivideFrom(DivideBit(r, BitOf(b, k)), b, k + 1)
  {
  }

  lemma DivideByteIsFrom(r: bv32, b: byte)
    ensures DivideByte(r, b) == DivideFrom(r, b, 0)
  {
    hide DivideBit, BitOf, DivideFrom;
    DivideFourFrom(r, b, 0);
    DivideFourFrom(DivideNibble(r, b, 0), b, 4);
    FromTheEnd(DivideByte(r, b), b);
  }

  lemma DivideFourFrom(r: bv32, b: byte, k: nat)
    requires k <= 4
    ensures DivideFrom(r, b, k) == DivideFrom(DivideNibble(r, b, k), b, k + 4)
  {
    hide DivideBit, BitOf, DivideFrom;
    var r1 := DivideBit(r, BitOf(b, k));
    var r2 := DivideBit(r1, BitOf(b, k + 1));
    var r3 := DivideBit(r2, BitOf(b, k + 2));
    DivideFromStep(r, b, k);
    DivideFromStep(r1, b, k + 1);
    DivideFromStep(r2, b, k + 2);
    DivideFromStep(r3, b, k + 3);
  }

  lemma FromTheEnd(r: bv32, b: byte)
    ensures DivideFrom(r, b, 8) == r
  {
  }

  /** The n leading bits of a register. */
  function Top(n: nat): bv32
    requires n < 8
  {
    match n
    case 0 => 0
    case 1 => 0x8000_0000
    case 2 => 0xC000_0000
    case 3 => 0xE000_0000
    case 4 => 0xF000_0000
    case 5 => 0xF800_0000
    case 6 => 0xFC00_0000
    case 7 => 0xFE00_0000
  }

  predicate TopClear(r: bv32, n: nat)
    requires n < 8
  {
    r & Top(n) == 0
  }

  lemma BringDownTop(r: bv32, x: bv1, n: nat)
    requires 0 < n < 8 && TopClear(r, n)
    ensures TopClear(BringDown(r, x), n - 1)
  {
  }

  /** While the leading bit is zero, a step brings the next bit down and loses none. */
  lemma ClearStep(r: bv32, x: bv1, n: nat)
    requires 0 < n < 8 && TopClear(r, n)
    ensures TopClear(DivideBit(r, x), n - 1) && (DivideBit(r, x) == 0 ==> r == 0 && x == 0)
  {
    TopIsNotLeading(r, n);
    BringDownTop(r, x, n);
    BringDownKeeps(r, x);
    hide BringDown, Leading, TopClear;
  }

  lemma TopIsNotLeading(r: bv32, n: nat)
    requires 0 < n < 8 && TopClear(r, n)
    ensures !Leading(r)
  {
  }

  lemma BringDownKeeps(r: bv32, x: bv1)
    ensures !Leading(r) && BringDown(r, x) == 0 ==> r == 0 && x == 0
  {
  }

  /**
   The last 32 - s bits of a register and the first s bits of a byte, the others zero: dividing keeps some of them.
   */
  lemma {:induction false} WindowShows(r: bv32, b: byte, k: nat, s: nat)
    requires k <= 8 && s < 8 && (k < s ==> TopClear(r, s - k))
    requires forall j :: s <= j < 8 ==> BitOf(b, j) == 0
    requires r != 0 || exists j :: k <= j < s && BitOf(b, j) != 0
    ensures DivideFrom(r, b, k) != 0
    decreases 8 - k
  {
    hide DivideBit, BitOf, TopClear;
    if k < 8 {
      if k < s {
        ClearStep(r, BitOf(b, k), s - k);
      } else {
        BitStepKeepsNonzero(r);
      }
      WindowShows(DivideBit(r, BitOf(b, k)), b, k + 1, s);
    }
  }

  lemma FirstBitsClear(a: byte, s: nat)
    requires s < 8 && forall j :: 0 <= j < s ==> BitOf(a, j) == 0
    ensures TopClear((a as bv32) << 24, s)
  {
    if s > 0 {
      assert BitOf(a, 0) == 0;
      assert s > 1 ==> BitOf(a, 1) == 0;
      assert s > 2 ==> BitOf(a, 2) == 0;
      assert s > 3 ==> BitOf(a, 3) == 0;
      assert s > 4 ==> BitOf(a, 4) == 0;
      assert s > 5 ==> BitOf(a, 5) == 0;
      assert s > 6 ==> BitOf(a, 6) == 0;
    }
  }

  lemma FirstByteOnTop(a: byte, b: byte, c: byte, d: byte, n: nat)
    requires n < 8
    ensures TopClear(Join(Join(Join(Join(0, a), b), c), d), n) <==> TopClear((a as bv32) << 24, n)
  {
  }

  lemma WindowTop(w: seq<byte>, s: nat)
    requires |w| == 4 && s < 8 && forall j :: 0 <= j < s ==> BitOf(w[0], j) == 0
    ensures TopClear(BigEndian(w), s)
  {
    hide Join, TopClear, BitOf;
    FirstBitsClear(w[0], s);
    FirstByteOnTop(w[0], w[1], w[2], w[3], s);
  }

  lemma SameBits(x: byte, y: byte)
    requires forall j :: 0 <= j < 8 ==> BitOf(x, j) == BitOf(y, j)
    ensures x == y
  {
    assert BitOf(x, 0) == BitOf(y, 0) && BitOf(x, 1) == BitOf(y, 1) && BitOf(x, 2) == BitOf(y, 2)
        && BitOf(x, 3) == BitOf(y, 3);
    assert BitOf(x, 4) == BitOf(y, 4) && BitOf(x, 5) == BitOf(y, 5) && BitOf(x, 6) == BitOf(y, 6)
        && BitOf(x, 7) == BitOf(y, 7);
  }

  lemma ZeroBits(j: nat)
    requires j < 8
    ensures BitOf(0, j) == 0
  {
  }

  lemma AllBitsClear(b: byte)
    ensures (forall j :: 0 <= j < 8 ==> BitOf(b, j) == 0) ==> b == 0
  {
    if forall j :: 0 <= j < 8 ==> BitOf(b, j) == 0 {
      forall j | 0 <= j < 8 ensures BitOf(b, j) == BitOf(0, j) {
        ZeroBits(j);
      }
      hide BitOf;
      SameBits(b, 0);
    }
  }

  /** The bits of the difference of two messages, filled up with zeros. */
  lemma DifferenceBits(a: seq<byte>, b: seq<byte>, k: nat, j: nat)
    requires |a| == |b| && k < |a| + 4 && j < 8
    ensures BitOf((XorSeq(a, b) + ZEROS)[k], j) == 0 <==>
      k >= |a| || MessageBit(a, 8 * k + j) == MessageBit(b, 8 * k + j)
  {
    hide BitOf, XorByte;
    ZeroBits(j);
    if k < |a| {
      BitOfLinear(a[k], b[k], j);
    }
  }

  predicate BurstAt(a: seq<byte>, b: seq<byte>, q: nat) {
    |a| == |b| && a != b && forall i :: 0 <= i < 8 * |a| && !(q <= i < q + 32) ==> MessageBit(a, i) == MessageBit(b, i)
  }

  /** The difference of the messages has no bit outside the window. */
  lemma OutsideWindow(a: seq<byte>, b: seq<byte>, q: nat, k: nat, j: nat)
    requires BurstAt(a, b, q) && k < |a| + 4 && j < 8 && !(q <= 8 * k + j < q + 32)
    ensures BitOf((XorSeq(a, b) + ZEROS)[k], j) == 0
  {
    hide BitOf, MessageBit, XorSeq;
    DifferenceBits(a, b, k, j);
  }

  lemma OutsideBytes(a: seq<byte>, b: seq<byte>, q: nat, k: nat)
    requires BurstAt(a, b, q) && k < |a| + 4 && !(q / 8 <= k < q / 8 + 5)
    ensures (XorSeq(a, b) + ZEROS)[k] == 0
  {
    var x := (XorSeq(a, b) + ZEROS)[k];
    hide BitOf, XorSeq, BurstAt;
    forall j | 0 <= j < 8 ensures BitOf(x, j) == 0 {
      OutsideWindow(a, b, q, k, j);
    }
    AllBitsClear(x);
  }

  lemma SomeByteDiffers(a: seq<byte>, b: seq<byte>, q: nat) returns (k: nat)
    requires BurstAt(a, b, q)
    ensures q / 8 <= k < q / 8 + 5 && k < |a| && (XorSeq(a, b) + ZEROS)[k] != 0
  {
    XorBytes();
    k :| 0 <= k < |a| && a[k] != b[k];
    hide BurstAt, XorByte;
    if !(q / 8 <= k < q / 8 + 5) {
      OutsideBytes(a, b, q, k);
    }
  }

  /** A burst shows in the register right behind the five bytes it can touch. */
  lemma BurstFillsRegister(a: seq<byte>, b: seq<byte>, q: nat, p: nat, d: seq<byte>)
    requires BurstAt(a, b, q) && p == q / 8 && d == XorSeq(a, b) + ZEROS
    ensures p + 5 <= |d| && Divide(0, d[..p + 5]) != 0
  {
    hide Divide, DivideByte, DivideFrom, BitOf, XorSeq, BurstAt, BigEndian, TopClear;
    var s := q % 8;
    var k := SomeByteDiffers(a, b, q);
    forall i | 0 <= i < p ensures d[i] == 0 {
      OutsideBytes(a, b, q, i);
    }
    forall j | 0 <= j < s ensures BitOf(d[p], j) == 0 {
      OutsideWindow(a, b, q, p, j);
    }
    var last := d[p + 4];
    forall j | s <= j < 8 ensures BitOf(last, j) == 0 {
      OutsideWindow(a, b, q, p + 4, j);
    }
    var w := d[p..p + 4];
    WindowFillsRegister(d, p);
    WindowTop(w, s);
    BigEndianZero(w);
    assert k < p + 4 ==> w[k - p] == d[k];
    AllBitsClear(last);
    DivideByteIsFrom(BigEndian(w), last);
    WindowShows(BigEndian(w), last, 0, s);
    DivideNext(d, p + 4);
  }

  lemma BurstLeavesRemainder(a: seq<byte>, b: seq<byte>, q: nat)
    requires BurstAt(a, b, q)
    ensures Divide(0, XorSeq(a, b) + ZEROS) != 0
  {
    var p, d := q / 8 + 5, XorSeq(a, b) + ZEROS;
    hide *;
    BurstFillsRegister(a, b, q, q / 8, d);
    forall k | p <= k < |d| ensures d[k] == 0 {
      OutsideBytes(a, b, q, k);
    }
    TrailingZerosKeepNonzero(d, p);
  }

  /**
   Two different messages that differ only inside 32 consecutive bits, wherever these start, never have the same code.
   */
  lemma Crc32DetectsBursts(a: seq<byte>, b: seq<byte>, q: nat)
    requires |a| == |b| && a != b
    requires forall i :: 0 <= i < 8 * |a| && !(q <= i < q + 32) ==> MessageBit(a, i) == MessageBit(b, i)
    ensures Remainder32(a) != Remainder32(b)
  {
    assert BurstAt(a, b, q);
    hide *;
    BurstLeavesRemainder(a, b, q);
    DifferenceShows(a, b);
  }

  lemma DifferenceShows(a: seq<byte>, b: seq<byte>)
    requires |a| == |b| && Divide(0, XorSeq(a, b) + ZEROS) != 0
    ensures Remainder32(a) != Remainder32(b)
  {
    var d := Remainder32(XorSeq(a, b));
    assert d != 0;
    hide *;
    Crc32Linear(a, b);
    XorCancels(Remainder32(a), Remainder32(b));
  }

  lemma AppendedCode(data: seq<byte>, code: seq<byte>)
    requires |code| == 4
    ensures Divide(0, data + code) == 0 <==> BigEndian(code) == Remainder32(data)
  {
    hide DivideByte, Xor, XorByte, BigEndian;
    var n := |data|;
    var zeros := seq(n, _ => 0 as byte) + code;
    XorZeros();
    XorBytes();
    XorCancels(Remainder32(data), BigEndian(code));
    assert XorSeq(data + ZEROS, zeros) == data + code;
    DivideLinear(0, 0, data + ZEROS, zeros);
    WindowFillsRegister(zeros, n);
    assert zeros[..n + 4] == zeros && zeros[n..n + 4] == code;
  }

  /** The code of a message followed by four bytes is zero exactly if these are its own code. */
  lemma Crc32Residue(data: seq<byte>, code: seq<byte>)
    requires |code| == 4
    ensures Divide(0, data + code) == 0 <==> BigEndian(code) == Remainder32(data)
    ensures Remainder32(data + code) == 0 <==> BigEndian(code) == Remainder32(data)
  {
    hide *;
    ZerosKeepZero(data + code);
    AppendedCode(data, code);
  }
}
