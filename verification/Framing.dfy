/**
 The serial frame protocol of libdtucomm/dtuprotocol.cpp: packing, header search on a byte stream, extraction.
 */
module Framing {
  import opened Bytes
  import opened Sequences

  const PC_HEAD: uint16 := 0xaa55
  const ARM_HEAD: uint16 := 0xbb66
  const HEAD_LENGTH: nat := 16
  const MAX_TRIES: nat := 10

  datatype Frame = Frame(
    header: uint16, cmd: uint16, totalLen: uint32, curLen: uint16, blockno: uint16, crc32: uint32, data: seq<byte>)

  predicate IsHeader(v: uint16) { v == PC_HEAD || v == ARM_HEAD }

  /** A frame as senders build it: a known header word and as much data as its length field says. */
  predicate WellFormed(f: Frame) { IsHeader(f.header) && |f.data| == f.curLen }

  function HeaderBytes(f: Frame): (s: seq<byte>)
    ensures |s| == HEAD_LENGTH
  {
    Le16(f.header) + Le16(f.cmd) + Le32(f.totalLen) + Le16(f.curLen) + Le16(f.blockno) + Le32(f.crc32)
  }

  function Package(f: Frame): (s: seq<byte>)
    ensures |s| == HEAD_LENGTH + |f.data|
  {
    HeaderBytes(f) + f.data
  }

  /** The word at an offset of the stream. */
  function Word(s: seq<byte>, i: nat): uint16
    requires i + 2 <= |s|
  {
    Of16(s[i..i + 2])
  }

  function LengthField(s: seq<byte>): uint16
    requires |s| >= 10
  {
    Word(s, 8)
  }

  /** unpackage of a buffer that holds the whole frame; a frame without data keeps the data of the one before. */
  function Unpackage(s: seq<byte>, before: seq<byte>): Frame
    requires |s| >= HEAD_LENGTH && |s| >= HEAD_LENGTH + LengthField(s)
  {
    Frame(Word(s, 0), Word(s, 2), Of32(s[4..8]), LengthField(s), Word(s, 10), Of32(s[12..16]),
          if LengthField(s) > 0 then s[16..16 + LengthField(s)] else before)
  }

  // ---------------------------------------------------------------- header search

  /** The loop of check_header from an even index: where it stops. */
  function SearchFrom(s: seq<byte>, index: nat): (r: nat)
    requires |s| >= HEAD_LENGTH && index % 2 == 0 && index <= |s| / 2 + 1
    ensures r % 2 == 0 && index <= r <= |s| / 2 + 1
    ensures r < |s| / 2 ==> IsHeader(Word(s, r))
    ensures forall j :: index <= j < r && j % 2 == 0 ==> !IsHeader(Word(s, j))
    decreases |s| - index
  {
    if index < |s| / 2 && !IsHeader(Word(s, index)) then SearchFrom(s, index + 2) else index
  }

  /** check_header: whether a header word was found, and the buffer after dropping what stands before it. */
  function CheckHeader(s: seq<byte>): (r: (bool, seq<byte>))
    ensures |r.1| <= |s| && (r.0 ==> |r.1| >= 10)
  {
    if |s| < HEAD_LENGTH then (false, s)
    else
      var i := SearchFrom(s, 0);
      (i < |s| / 2, s[i..])
  }

  /** find_frame: the frame found, if any, and the buffer left; the frame itself is not yet removed. */
  datatype Found = Whole(frame: Frame, rest: seq<byte>) | NotYet(rest: seq<byte>)

  function FindFrame(s: seq<byte>, before: seq<byte>): (r: Found)
    ensures r.Whole? ==> |r.rest| >= HEAD_LENGTH + r.frame.curLen
    ensures |r.rest| <= |s|
  {
    var (found, t) := CheckHeader(s);
    if found && |t| >= HEAD_LENGTH + LengthField(t) then Whole(Unpackage(t, before), t) else NotYet(t)
  }

  /** The two header words by their bytes, as they stand on the line. */
  lemma HeaderWords(lo: byte, hi: byte)
    ensures IsHeader(Of16([lo, hi])) <==> (lo, hi) in {(0x55, 0xAA), (0x66, 0xBB)}
  {
  }

  // ---------------------------------------------------------------- packing round trip

  lemma HeaderFields(f: Frame, rest: seq<byte>)
    ensures var s := Package(f) + rest;
            && Word(s, 0) == f.header && Word(s, 2) == f.cmd && Of32(s[4..8]) == f.totalLen
            && LengthField(s) == f.curLen && Word(s, 10) == f.blockno && Of32(s[12..16]) == f.crc32
  {
    var s := Package(f) + rest;
    assert s[0..2] == Le16(f.header) && s[2..4] == Le16(f.cmd) && s[4..8] == Le32(f.totalLen);
    assert s[8..10] == Le16(f.curLen) && s[10..12] == Le16(f.blockno) && s[12..16] == Le32(f.crc32);
    Le16RoundTrip(f.header, [0, 0]);
    Le16RoundTrip(f.cmd, [0, 0]);
    Le32RoundTrip(f.totalLen);
    Le16RoundTrip(f.curLen, [0, 0]);
    Le16RoundTrip(f.blockno, [0, 0]);
    Le32RoundTrip(f.crc32);
  }

  /** What extraction delivers for a packed frame: the frame, except that empty data reads as the data before it. */
  function Delivered(f: Frame, before: seq<byte>): Frame { f.(data := if f.curLen > 0 then f.data else before) }

  lemma UnpackagePackage(f: Frame, rest: seq<byte>, before: seq<byte>)
    requires |f.data| == f.curLen
    ensures var s := Package(f) + rest;
            |s| >= HEAD_LENGTH + LengthField(s) && Unpackage(s, before) == Delivered(f, before)
    ensures Unpackage(Package(f) + rest, before) == f <==> f.curLen > 0 || before == []
  {
    HeaderFields(f, rest);
    var s := Package(f) + rest;
    assert s[16..16 + f.curLen] == f.data;
  }

  // ---------------------------------------------------------------- one call of readfromIO

  /** One ReadData call: its return value and the bytes it appended. */
  datatype Read = Read(ret: int, bytes: seq<byte>)

  /** One round of the loop of readfromIO: the frame it took and the buffer it left, or nothing, or a lost line. */
  datatype Try = Got(frame: Frame, iodata: seq<byte>) | Nothing(iodata: seq<byte>) | Disconnected

  function Extract(f: Found): (t: Try)
    requires f.Whole? ==> |f.rest| >= HEAD_LENGTH + f.frame.curLen
    ensures !t.Disconnected?
  {
    if f.Whole? then Got(f.frame, f.rest[HEAD_LENGTH + f.frame.curLen..]) else Nothing(f.rest)
  }

  function TryRead(iodata: seq<byte>, before: seq<byte>, r: Read): Try {
    var buffered := iodata + r.bytes;
    var first := FindFrame(buffered, before);
    if r.ret >= 0 then Extract(first)
    else if buffered == [] then Disconnected
    else if first.Whole? then Extract(first)
    else Extract(FindFrame(first.rest, before))
  }

  /** The line is given up exactly when the read failed and not a single byte is buffered. */
  lemma DisconnectsExactly(iodata: seq<byte>, before: seq<byte>, r: Read)
    ensures TryRead(iodata, before, r).Disconnected? <==> r.ret < 0 && iodata == [] && r.bytes == []
  {
    hide FindFrame;
    assert iodata + r.bytes == [] <==> iodata == [] && r.bytes == [];
  }

  /** What one call of readfromIO does with the inputs from n on; every failed round counts against its ten tries. */
  function ReadFromIo(iodata: seq<byte>, before: seq<byte>, inputs: seq<Read>, n: nat): Try
    requires n <= |inputs|
    decreases |inputs| - n
  {
    if n == |inputs| then Nothing(iodata)
    else
      var t := TryRead(iodata, before, inputs[n]);
      if t.Nothing? then ReadFromIo(t.iodata, before, inputs, n + 1) else t
  }

  class DtuProtocol {
    var header: uint16
    var cmd: uint16
    var totalLen: uint32
    var curLen: uint16
    var blockno: uint16
    var crc32: uint32
    var data: seq<byte>
    var iodata: seq<byte>

    constructor ()
      ensures data == [] && iodata == []
    {
      header, cmd, totalLen, curLen, blockno, crc32, data, iodata := 0, 0, 0, 0, 0, 0, [], [];
    }

    function AsFrame(): Frame
      reads this
    {
      Frame(header, cmd, totalLen, curLen, blockno, crc32, data)
    }

    method UnpackageStep(src: seq<byte>)
      requires |src| >= HEAD_LENGTH && |src| >= HEAD_LENGTH + LengthField(src)
      modifies this
      ensures AsFrame() == Unpackage(src, old(data)) && iodata == old(iodata)
    {
      var offset := 0;
      header := Of16(src[offset..offset + 2]);
      offset := offset + 2;
      cmd := Of16(src[offset..offset + 2]);
      offset := offset + 2;
      totalLen := Of32(src[offset..offset + 4]);
      offset := offset + 4;
      curLen := Of16(src[offset..offset + 2]);
      offset := offset + 2;
      blockno := Of16(src[offset..offset + 2]);
      offset := offset + 2;
      crc32 := Of32(src[offset..offset + 4]);
      offset := offset + 4;
      if curLen > 0 {
        data := src[offset..offset + curLen];
      }
    }

    method PackageStep() returns (result: seq<byte>)
      ensures result == Package(AsFrame())
    {
      result := Le16(header);
      result := result + Le16(cmd);
      result := result + Le32(totalLen);
      result := result + Le16(curLen);
      result := result + Le16(blockno);
      result := result + Le32(crc32);
      result := result + data;
    }

    method CheckHeaderStep() returns (found: bool)
      modifies `iodata
      ensures (found, iodata) == CheckHeader(old(iodata))
    {
      if |iodata| < HEAD_LENGTH {
        return false;
      }
      var index := 0;
      found := false;
      while index < |iodata| / 2
        invariant index % 2 == 0 && index <= |iodata| / 2 + 1 && iodata == old(iodata)
        invariant !found && SearchFrom(iodata, index) == SearchFrom(iodata, 0)
      {
        var headFlag := Of16(iodata[index..index + 2]);
        if headFlag == PC_HEAD || headFlag == ARM_HEAD {
          found := true;
          break;
        }
        index := index + 2;
      }
      iodata := iodata[index..];
    }

    /** find_frame on the object's own buffer: an incomplete frame still overwrites the first header fields. */
    method FindFrameStep() returns (found: bool)
      modifies this
      ensures match FindFrame(old(iodata), old(data))
              case Whole(frame, rest) => found && iodata == rest && AsFrame() == frame
              case NotYet(rest) =>
                && !found && iodata == rest && data == old(data) && blockno == old(blockno) && crc32 == old(crc32)
                && (if CheckHeader(old(iodata)).0
                    then header == Word(rest, 0) && cmd == Word(rest, 2) && totalLen == Of32(rest[4..8])
                        && curLen == Word(rest, 8)
                    else header == old(header) && cmd == old(cmd) && totalLen == old(totalLen) && curLen == old(curLen))
    {
      hide CheckHeader, Unpackage, Of16, Of32;
      if |iodata| == 0 {
        NothingFound();
        return false;
      }
      found := CheckHeaderStep();
      if !found {
        return false;
      }
      header := Of16(iodata[0..2]);
      cmd := Of16(iodata[2..4]);
      totalLen := Of32(iodata[4..8]);
      curLen := Of16(iodata[8..10]);
      if |iodata| < curLen + HEAD_LENGTH {
        return false;
      }
      UnpackageStep(iodata);
    }

    /** readfromIO; inputs are what its ReadData calls deliver, one per try. */
    method ReadFromIoStep(inputs: seq<Read>) returns (code: Code)
      requires |inputs| == MAX_TRIES
      modifies this
      ensures match ReadFromIo(old(iodata), old(data), inputs, 0)
              case Got(frame, rest) => code == Success && AsFrame() == frame && iodata == rest
              case Nothing(rest) => code == Timeout && data == old(data) && iodata == rest
              case Disconnected => code == Disconnect && data == old(data) && iodata == []
    {
      var falseCount := 0;
      while falseCount < MAX_TRIES
        invariant falseCount <= MAX_TRIES && data == old(data)
        invariant ReadFromIo(iodata, data, inputs, falseCount) == ReadFromIo(old(iodata), old(data), inputs, 0)
      {
        hide TryRead;
        code := TryReadStep(inputs[falseCount]);
        if code != Timeout {
          return;
        }
        falseCount := falseCount + 1;
      }
      return Timeout;
    }

    /** One round of the loop; Timeout stands for "no frame yet". */
    method TryReadStep(input: Read) returns (code: Code)
      modifies this
      ensures match TryRead(old(iodata), old(data), input)
              case Got(frame, rest) => code == Success && AsFrame() == frame && iodata == rest
              case Nothing(rest) => code == Timeout && data == old(data) && iodata == rest
              case Disconnected => code == Disconnect && data == old(data) && iodata == []
    {
      hide FindFrame, CheckHeader;
      iodata := iodata + input.bytes;
      if input.ret < 0 {
        if |iodata| == 0 {
          return Disconnect;
        }
        var found := FindFrameStep();
        if found {
          iodata := iodata[HEAD_LENGTH + curLen..];
          return Success;
        }
      }
      var found := FindFrameStep();
      if found {
        iodata := iodata[HEAD_LENGTH + curLen..];
        return Success;
      }
      return Timeout;
    }
  }

  lemma NothingFound()
    ensures CheckHeader([]) == (false, [])
  {
  }

  datatype Code = Success | Disconnect | Timeout

  // ---------------------------------------------------------------- resynchronisation

  /** Garbage before a frame: whole words, none of them a header word. */
  predicate Garbage(g: seq<byte>) {
    |g| % 2 == 0 && forall j :: 0 <= j < |g| && j % 2 == 0 ==> j + 2 <= |g| && !IsHeader(Word(g, j))
  }

  lemma WordOfPrefix(g: seq<byte>, t: seq<byte>, j: nat)
    requires j + 2 <= |g|
    ensures Word(g + t, j) == Word(g, j)
  {
    assert (g + t)[j..j + 2] == g[j..j + 2];
  }

  lemma HeaderAtEnd(g: seq<byte>, f: Frame, rest: seq<byte>)
    ensures Word(g + (Package(f) + rest), |g|) == f.header
  {
    var t := Package(f) + rest;
    assert (g + t)[|g|..|g| + 2] == t[0..2];
    HeaderFields(f, rest);
  }

  /** One call on garbage and a whole frame: the frame is found, or garbage alone is dropped, half the buffer of it. */
  lemma FindFrameInGarbage(g: seq<byte>, f: Frame, rest: seq<byte>, before: seq<byte>)
    requires Garbage(g) && WellFormed(f)
    ensures var (s, t) := (g + (Package(f) + rest), Package(f) + rest);
            var k := SearchFrom(s, 0);
            && k <= |g|
            && (|g| < |s| / 2 ==> FindFrame(s, before) == Whole(Delivered(f, before), t))
            && (|g| >= |s| / 2 ==>
                  FindFrame(s, before) == NotYet(g[k..] + t) && Garbage(g[k..]) && |g[k..] + t| - 1 <= (|s| - 1) / 2)
  {
    hide Unpackage, Package, LengthField;
    var t := Package(f) + rest;
    var s := g + t;
    var k := SearchFrom(s, 0);
    HeaderAtEnd(g, f, rest);
    UnpackagePackage(f, rest, before);
    forall j | 0 <= j < |g| && j % 2 == 0 ensures !IsHeader(Word(s, j)) {
      WordOfPrefix(g, t, j);
    }
    assert k <= |g|;
    assert s[k..] == g[k..] + t;
    assert |g| < |s| / 2 ==> g[k..] + t == t;
    GarbageSuffix(g, k);
  }

  lemma GarbageSuffix(g: seq<byte>, k: nat)
    requires Garbage(g) && k <= |g| && k % 2 == 0
    ensures Garbage(g[k..])
  {
    hide IsHeader, Of16;
    var t := g[k..];
    forall j | 0 <= j < |t| && j % 2 == 0 ensures j + 2 <= |t| && !IsHeader(Word(t, j)) {
      assert (k + j) % 2 == 0 && k + j + 2 <= |g|;
      assert t[j..j + 2] == g[k + j..k + j + 2];
      assert !IsHeader(Word(g, k + j));
    }
  }

  /** Repeated find_frame calls, each on the buffer the one before left: the first whole frame, within n calls. */
  function FindWithin(s: seq<byte>, before: seq<byte>, n: nat): Found {
    if n == 0 then NotYet(s)
    else
      var r := FindFrame(s, before);
      if r.Whole? then r else FindWithin(r.rest, before, n - 1)
  }

  lemma Doubling(n: nat, part: nat)
    requires n > 0
    ensures Pow2(n) * part == 2 * (Pow2(n - 1) * part)
  {
  }

  /**
   Resynchronisation: n calls find the frame and lose none of its bytes as soon as 2^n times the part of the buffer from
   the frame on outweighs the whole (both counted without one byte). Every call halves the buffer, so some n always
   does.
   */
  lemma {:induction false} Resynchronises(g: seq<byte>, f: Frame, rest: seq<byte>, before: seq<byte>, n: nat)
    requires Garbage(g) && WellFormed(f) && |g + (Package(f) + rest)| - 1 < Pow2(n) * (|Package(f) + rest| - 1)
    ensures FindWithin(g + (Package(f) + rest), before, n) == Whole(Delivered(f, before), Package(f) + rest)
    decreases n
  {
    hide Package, Delivered, FindFrame, Garbage;
    var (s, t) := (g + (Package(f) + rest), Package(f) + rest);
    FindFrameInGarbage(g, f, rest, before);
    if n > 0 && |g| >= |s| / 2 {
      var k := SearchFrom(s, 0);
      Doubling(n, |t| - 1);
      Resynchronises(g[k..], f, rest, before, n - 1);
    }
  }

  lemma SomeNumberOfCallsIsEnough(length: nat, part: nat) returns (n: nat)
    requires part > 0
    ensures length < Pow2(n) * part
  {
    n := 0;
    while length >= Pow2(n) * part
      invariant n <= Pow2(n) * part
      decreases length - n
    {
      assert Pow2(n + 1) * part == 2 * (Pow2(n) * part);
      n := n + 1;
    }
  }

  /** After any garbage, however long, repeated find_frame calls reach the first whole frame. */
  lemma AlwaysResynchronises(g: seq<byte>, f: Frame, rest: seq<byte>, before: seq<byte>) returns (n: nat)
    requires Garbage(g) && WellFormed(f)
    ensures FindWithin(g + (Package(f) + rest), before, n) == Whole(Delivered(f, before), Package(f) + rest)
  {
    n := SomeNumberOfCallsIsEnough(|g + (Package(f) + rest)| - 1, |Package(f) + rest| - 1);
    Resynchronises(g, f, rest, before, n);
  }

  /** Some number of find_frame calls leaves the buffer exactly at the frame f behind g, and finds it. */
  ghost predicate FindsBehind(g: seq<byte>, f: Frame, rest: seq<byte>, before: seq<byte>) {
    exists n: nat :: FindWithin(g + (Package(f) + rest), before, n) == Whole(Delivered(f, before), Package(f) + rest)
  }

  lemma DroppedByFind(s: seq<byte>, before: seq<byte>) returns (k: nat)
    ensures k <= |s| && FindFrame(s, before).rest == s[k..] && Garbage(s[..k])
  {
    hide IsHeader, Unpackage, Of16;
    k := if |s| < HEAD_LENGTH then 0 else SearchFrom(s, 0);
    forall j | 0 <= j < k && j % 2 == 0 ensures j + 2 <= k && !IsHeader(Word(s[..k], j)) {
      assert s[..k][j..j + 2] == s[j..j + 2];
      assert !IsHeader(Word(s, j));
    }
  }

  lemma GarbageAt(g: seq<byte>, j: nat)
    requires Garbage(g) && j < |g| && j % 2 == 0
    ensures j + 2 <= |g| && !IsHeader(Word(g, j))
  {
  }

  lemma JoinedAt(g: seq<byte>, h: seq<byte>, j: nat)
    requires Garbage(g) && Garbage(h) && j < |g| + |h| && j % 2 == 0
    ensures j + 2 <= |g + h| && !IsHeader(Word(g + h, j))
  {
    assert |g| % 2 == 0;
    hide Garbage, IsHeader, Of16;
    if j < |g| {
      GarbageAt(g, j);
      assert (g + h)[j..j + 2] == g[j..j + 2];
    } else {
      var i := j - |g|;
      assert i % 2 == 0;
      GarbageAt(h, i);
      assert (g + h)[j..j + 2] == h[i..i + 2];
    }
  }

  lemma GarbageJoined(g: seq<byte>, h: seq<byte>)
    requires Garbage(g) && Garbage(h)
    ensures Garbage(g + h)
  {
    forall j | 0 <= j < |g + h| && j % 2 == 0 ensures j + 2 <= |g + h| && !IsHeader(Word(g + h, j)) {
      JoinedAt(g, h, j);
    }
    hide Word, IsHeader;
  }

  /** Whatever is in the buffer, repeated calls drop garbage and nothing else. */
  lemma {:induction false} DroppedIsGarbage(s: seq<byte>, before: seq<byte>, n: nat) returns (c: nat)
    ensures c <= |s| && FindWithin(s, before, n).rest == s[c..] && Garbage(s[..c])
    decreases n
  {
    hide FindFrame, Garbage;
    if n == 0 {
      c := 0;
      NoGarbage();
      assert s[..0] == [];
    } else {
      c := DroppedByFind(s, before);
      if !FindFrame(s, before).Whole? {
        var d := DroppedIsGarbage(s[c..], before, n - 1);
        GarbageJoined(s[..c], s[c..][..d]);
        assert s[..c] + s[c..][..d] == s[..c + d] && s[c..][d..] == s[c + d..];
        c := c + d;
      }
    }
  }

  lemma NoGarbage()
    ensures Garbage([])
  {
  }

  /**
   A frame behind other bytes is reached if and only if these are garbage: an even number of bytes, no header word at an
   even distance from the start.
   */
  lemma ResynchronisesExactly(g: seq<byte>, f: Frame, rest: seq<byte>, before: seq<byte>)
    requires WellFormed(f)
    ensures FindsBehind(g, f, rest, before) <==> Garbage(g)
  {
    hide Garbage, Package, Delivered, FindWithin;
    var t := Package(f) + rest;
    if FindsBehind(g, f, rest, before) {
      var n: nat :| FindWithin(g + t, before, n) == Whole(Delivered(f, before), t);
      var c := DroppedIsGarbage(g + t, before, n);
      assert |(g + t)[c..]| == |t| && (g + t)[..|g|] == g;
    }
    if Garbage(g) {
      var n := AlwaysResynchronises(g, f, rest, before);
    }
  }

  // ---------------------------------------------------------------- a stream cut into chunks

  function PackAll(fs: seq<Frame>): seq<byte>
    decreases |fs|
  {
    if fs == [] then [] else Package(fs[0]) + PackAll(fs[1..])
  }

  function DeliveredAll(fs: seq<Frame>, before: seq<byte>): (r: seq<Frame>)
    ensures |r| == |fs|
    decreases |fs|
  {
    if fs == [] then []
    else [Delivered(fs[0], before)] + DeliveredAll(fs[1..], Delivered(fs[0], before).data)
  }

  /** The receiver over many tries: the buffer, the data of the last frame and all frames taken so far. */
  datatype Session = Session(iodata: seq<byte>, data: seq<byte>, taken: seq<Frame>)

  function StepSession(s: Session, r: Read): Session {
    match TryRead(s.iodata, s.data, r)
    case Got(frame, rest) => Session(rest, frame.data, s.taken + [frame])
    case Nothing(rest) => s.(iodata := rest)
    case Disconnected => s.(iodata := [])
  }

  function RunSession(s: Session, inputs: seq<Read>): Session
    decreases |inputs|
  {
    if inputs == [] then s else RunSession(StepSession(s, inputs[0]), inputs[1..])
  }

  function Received(inputs: seq<Read>): seq<byte>
    decreases |inputs|
  {
    if inputs == [] then [] else inputs[0].bytes + Received(inputs[1..])
  }

  /** A frame that is still incomplete is left alone. */
  lemma PartialFrame(s: seq<byte>, f: Frame, more: seq<byte>, before: seq<byte>)
    requires WellFormed(f) && s <= Package(f) + more && |s| < |Package(f)|
    ensures FindFrame(s, before) == NotYet(s)
  {
    hide Package, Unpackage;
    var t := Package(f) + more;
    if |s| >= HEAD_LENGTH {
      HeaderFields(f, more);
      assert s[0..2] == t[0..2] && s[8..10] == t[8..10];
      assert SearchFrom(s, 0) == 0 && s[0..] == s;
    }
  }

  /** A whole frame on the boundary is found there. */
  lemma WholeFrame(f: Frame, more: seq<byte>, before: seq<byte>)
    requires WellFormed(f)
    ensures FindFrame(Package(f) + more, before) == Whole(Delivered(f, before), Package(f) + more)
  {
    assert [] + (Package(f) + more) == Package(f) + more;
    FindFrameInGarbage([], f, more, before);
  }

  /** One try on a stream that starts on a frame boundary: the next frame exactly when all of it has arrived. */
  lemma TryOnStream(s: Session, r: Read, fs: seq<Frame>, future: seq<byte>)
    requires (forall k :: 0 <= k < |fs| ==> WellFormed(fs[k])) && s.iodata + r.bytes + future == PackAll(fs)
    ensures var t := StepSession(s, r);
            var arrived := fs != [] && |s.iodata + r.bytes| >= |Package(fs[0])|;
            if arrived then
              && t.taken == s.taken + [Delivered(fs[0], s.data)] && t.data == Delivered(fs[0], s.data).data
              && s.iodata + r.bytes == Package(fs[0]) + t.iodata && t.iodata + future == PackAll(fs[1..])
            else t == s.(iodata := s.iodata + r.bytes)
  {
    hide FindFrame, Package, Delivered;
    var buffered := s.iodata + r.bytes;
    if fs == [] {
      assert buffered == [];
      assert FindFrame([], s.data) == NotYet([]) by {
        NothingInNothing(s.data);
      }
    } else if |buffered| < |Package(fs[0])| {
      assert buffered <= Package(fs[0]) + PackAll(fs[1..]);
      PartialFrame(buffered, fs[0], PackAll(fs[1..]), s.data);
    } else {
      var more := buffered[|Package(fs[0])|..];
      assert buffered == (buffered + future)[..|buffered|];
      assert Package(fs[0]) == PackAll(fs)[..|Package(fs[0])|];
      assert buffered == Package(fs[0]) + more;
      WholeFrame(fs[0], more, s.data);
      assert (buffered + future)[|Package(fs[0])|..] == more + future;
      assert PackAll(fs)[|Package(fs[0])|..] == PackAll(fs[1..]);
      LengthOfFrame(fs[0], s.data);
    }
  }

  lemma NothingInNothing(before: seq<byte>)
    ensures FindFrame([], before) == NotYet([])
  {
  }

  lemma LengthOfFrame(f: Frame, before: seq<byte>)
    requires WellFormed(f)
    ensures |Package(f)| == HEAD_LENGTH + Delivered(f, before).curLen
  {
  }

  /** The state of the receiver after n of the frames fs: bytes came in since s, and future is still to come. */
  predicate InOrder(s: Session, bytes: seq<byte>, future: seq<byte>, fs: seq<Frame>, n: nat, t: Session) {
    && n <= |fs| && t.taken == s.taken + DeliveredAll(fs[..n], s.data) && t.data == LastData(fs[..n], s.data)
    && s.iodata + bytes == PackAll(fs[..n]) + t.iodata && t.iodata + future == PackAll(fs[n..])
  }

  lemma InOrderAtOnce(s: Session, future: seq<byte>, fs: seq<Frame>)
    requires s.iodata + future == PackAll(fs)
    ensures InOrder(s, [], future, fs, 0, s)
  {
    hide Package, Delivered;
    assert fs[..0] == [] && fs[0..] == fs && s.iodata + [] == [] + s.iodata;
  }

  /** A frame taken from the first chunk comes before all that later chunks bring. */
  lemma InOrderAfterFrame(s: Session, chunk: seq<byte>, mid: Session, later: seq<byte>, future: seq<byte>,
                          fs: seq<Frame>, m: nat, t: Session)
    requires fs != [] && mid.taken == s.taken + [Delivered(fs[0], s.data)] && mid.data == Delivered(fs[0], s.data).data
    requires s.iodata + chunk == Package(fs[0]) + mid.iodata && InOrder(mid, later, future, fs[1..], m, t)
    ensures InOrder(s, chunk + later, future, fs, m + 1, t)
  {
    hide Package, Delivered, DeliveredAll, PackAll, LastData;
    FirstAndRest(fs, m, s.data);
    assert fs[1..][m..] == fs[m + 1..];
    calc {
      s.iodata + (chunk + later);
      (s.iodata + chunk) + later;
      Package(fs[0]) + (mid.iodata + later);
      Package(fs[0]) + (PackAll(fs[1..][..m]) + t.iodata);
      PackAll(fs[..m + 1]) + t.iodata;
    }
    calc {
      t.taken;
      s.taken + [Delivered(fs[0], s.data)] + DeliveredAll(fs[1..][..m], mid.data);
      s.taken + DeliveredAll(fs[..m + 1], s.data);
    }
  }

  lemma InOrderAfterChunk(s: Session, chunk: seq<byte>, later: seq<byte>, future: seq<byte>, fs: seq<Frame>, n: nat,
        t: Session)
    requires InOrder(s.(iodata := s.iodata + chunk), later, future, fs, n, t)
    ensures InOrder(s, chunk + later, future, fs, n, t)
  {
    hide Package, Delivered, DeliveredAll, PackAll, LastData;
    assert s.iodata + (chunk + later) == s.iodata + chunk + later;
  }

  /**
   However the stream is cut into chunks, the frames taken are the first ones sent, in order and with nothing lost:
   the bytes received are the bytes of the frames taken followed by the bytes still buffered.
   */
  lemma {:induction false} StreamInOrder(s: Session, inputs: seq<Read>, fs: seq<Frame>, future: seq<byte>)
    returns (n: nat)
    requires (forall k :: 0 <= k < |fs| ==> WellFormed(fs[k])) && s.iodata + Received(inputs) + future == PackAll(fs)
    ensures InOrder(s, Received(inputs), future, fs, n, RunSession(s, inputs))
    decreases |inputs|
  {
    hide Package, Delivered, StepSession, InOrder, PackAll;
    if inputs == [] {
      n := 0;
      assert s.iodata + [] == s.iodata;
      InOrderAtOnce(s, future, fs);
    } else {
      var (r, later) := (inputs[0], Received(inputs[1..]));
      assert s.iodata + r.bytes + (later + future) == s.iodata + Received(inputs) + future;
      TryOnStream(s, r, fs, later + future);
      var t := StepSession(s, r);
      assert t.iodata + later + future == t.iodata + (later + future);
      if fs != [] && |s.iodata + r.bytes| >= |Package(fs[0])| {
        var m := StreamInOrder(t, inputs[1..], fs[1..], future);
        n := m + 1;
        InOrderAfterFrame(s, r.bytes, t, later, future, fs, m, RunSession(s, inputs));
      } else {
        n := StreamInOrder(t, inputs[1..], fs, future);
        InOrderAfterChunk(s, r.bytes, later, future, fs, n, RunSession(s, inputs));
      }
    }
  }

  function LastData(fs: seq<Frame>, before: seq<byte>): seq<byte>
    decreases |fs|
  {
    if fs == [] then before else LastData(fs[1..], Delivered(fs[0], before).data)
  }

  lemma FirstAndRest(fs: seq<Frame>, m: nat, before: seq<byte>)
    requires m < |fs|
    ensures fs[..m + 1][0] == fs[0] && fs[..m + 1][1..] == fs[1..][..m]
    ensures PackAll(fs[..m + 1]) == Package(fs[0]) + PackAll(fs[1..][..m])
    ensures DeliveredAll(fs[..m + 1], before)
         == [Delivered(fs[0], before)] + DeliveredAll(fs[1..][..m], Delivered(fs[0], before).data)
    ensures LastData(fs[..m + 1], before) == LastData(fs[1..][..m], Delivered(fs[0], before).data)
  {
    assert fs[..m + 1][1..] == fs[1..][..m];
  }

  /**
   One call of readfromIO is a session that ends with its first frame: the frame of try n, the buffer and the data after
   it; or none in any try.
   */
  lemma {:induction false} CallIsSession(iodata: seq<byte>, before: seq<byte>, inputs: seq<Read>, i: nat)
    returns (n: nat)
    requires i <= |inputs| && forall k :: 0 <= k < |inputs| ==> inputs[k].ret >= 0
    ensures i <= n <= |inputs|
    ensures var r := ReadFromIo(iodata, before, inputs, i);
            var s := RunSession(Session(iodata, before, []), inputs[i..n]);
            && s.taken == []
            && if n == |inputs| then r == Nothing(s.iodata) && s.data == before
               else
                 && r.Got?
                 && StepSession(s, inputs[n]) == Session(r.iodata, r.frame.data, [r.frame])
    decreases |inputs| - i
  {
    hide TryRead;
    NotGivenUp(iodata, before, inputs, i);
    if i == |inputs| {
      n := i;
      assert inputs[i..n] == [];
    } else {
      var t := TryRead(iodata, before, inputs[i]);
      if t.Nothing? {
        n := CallIsSession(t.iodata, before, inputs, i + 1);
        assert inputs[i..n][0] == inputs[i] && inputs[i..n][1..] == inputs[i + 1..n];
      } else {
        n := i;
        assert inputs[i..n] == [];
        assert [] + [t.frame] == [t.frame];
      }
    }
  }

  lemma NotGivenUp(iodata: seq<byte>, before: seq<byte>, inputs: seq<Read>, i: nat)
    requires i < |inputs| ==> inputs[i].ret >= 0
    ensures i < |inputs| ==> !TryRead(iodata, before, inputs[i]).Disconnected?
  {
    if i < |inputs| {
      DisconnectsExactly(iodata, before, inputs[i]);
    }
  }

  /** Once everything has arrived, every further try takes one more frame until none is left. */
  lemma {:induction false} Drains(s: Session, tries: seq<Read>, fs: seq<Frame>)
    requires (forall k :: 0 <= k < |fs| ==> WellFormed(fs[k])) && s.iodata == PackAll(fs)
    requires |tries| >= |fs| && forall k :: 0 <= k < |tries| ==> tries[k].bytes == []
    ensures var t := RunSession(s, tries); t.taken == s.taken + DeliveredAll(fs, s.data) && t.iodata == []
    decreases |tries|
  {
    hide FindFrame, Package, Delivered, TryRead, StepSession;
    if tries == [] {
      assert s.taken + [] == s.taken;
    } else {
      assert s.iodata + tries[0].bytes + [] == PackAll(fs);
      TryOnStream(s, tries[0], fs, []);
      var t := StepSession(s, tries[0]);
      assert t.iodata + [] == t.iodata && s.iodata + tries[0].bytes == s.iodata;
      if fs == [] {
        Drains(t, tries[1..], fs);
      } else {
        assert |PackAll(fs)| >= |Package(fs[0])|;
        Drains(t, tries[1..], fs[1..]);
        assert s.taken + [Delivered(fs[0], s.data)] + DeliveredAll(fs[1..], t.data)
            == s.taken + DeliveredAll(fs, s.data);
      }
    }
  }

  // ---------------------------------------------------------------- garbage before a stream cut into chunks

  predicate AllWellFormed(fs: seq<Frame>) { forall k :: 0 <= k < |fs| ==> WellFormed(fs[k]) }

  lemma SameWord(b: seq<byte>, future: seq<byte>, g: seq<byte>, rest: seq<byte>, j: nat)
    requires b + future == g + rest && j + 2 <= |b|
    ensures j + 2 <= |g| ==> Word(b, j) == Word(g, j)
    ensures j == |g| ==> |rest| >= 2 && Word(b, j) == Word(rest, 0)
  {
    var whole := b + future;
    assert b[j..j + 2] == whole[j..j + 2];
    if j + 2 <= |g| {
      assert g[j..j + 2] == whole[j..j + 2];
    } else if j == |g| {
      assert rest[0..2] == whole[j..j + 2];
    }
  }

  lemma StreamStarts(fs: seq<Frame>)
    requires AllWellFormed(fs) && PackAll(fs) != []
    ensures fs != [] && PackAll(fs) == Package(fs[0]) + PackAll(fs[1..]) && |PackAll(fs)| >= HEAD_LENGTH
    ensures IsHeader(Word(PackAll(fs), 0)) && LengthField(PackAll(fs)) == fs[0].curLen == |fs[0].data|
  {
    HeaderFields(fs[0], PackAll(fs[1..]));
  }

  /** The search never passes the first frame, and stops on garbage only where it gives up. */
  lemma SearchOnStream(b: seq<byte>, future: seq<byte>, g: seq<byte>, fs: seq<Frame>)
    requires Garbage(g) && AllWellFormed(fs) && b + future == g + PackAll(fs) && |b| >= HEAD_LENGTH
    ensures SearchFrom(b, 0) <= |g|
    ensures |g| < |b| / 2 <==> SearchFrom(b, 0) < |b| / 2
    ensures |g| < |b| / 2 ==> SearchFrom(b, 0) == |g|
  {
    assert |g| % 2 == 0;
    hide *;
    var k := SearchStops(b);
    if |g| + 2 <= |b| {
      HeaderBehindGarbage(b, future, g, fs);
      assert !(|g| < k);
    }
    if k < |b| / 2 && k < |g| {
      NoHeaderInGarbage(b, future, g, PackAll(fs), k);
      assert false;
    }
  }

  lemma SearchStops(b: seq<byte>) returns (k: nat)
    requires |b| >= HEAD_LENGTH
    ensures k == SearchFrom(b, 0) && k % 2 == 0 && k <= |b| / 2 + 1
    ensures k < |b| / 2 ==> IsHeader(Word(b, k))
    ensures forall j :: 0 <= j < k && j % 2 == 0 ==> !IsHeader(Word(b, j))
  {
    k := SearchFrom(b, 0);
  }

  lemma NoHeaderInGarbage(b: seq<byte>, future: seq<byte>, g: seq<byte>, rest: seq<byte>, j: nat)
    requires Garbage(g) && b + future == g + rest && j < |g| && j % 2 == 0 && j + 2 <= |b|
    ensures !IsHeader(Word(b, j))
  {
    assert j + 2 <= |g|;
    SameWord(b, future, g, rest, j);
  }

  lemma HeaderBehindGarbage(b: seq<byte>, future: seq<byte>, g: seq<byte>, fs: seq<Frame>)
    requires AllWellFormed(fs) && b + future == g + PackAll(fs) && |g| + 2 <= |b|
    ensures IsHeader(Word(b, |g|))
  {
    hide Word, IsHeader, AllWellFormed;
    SameWord(b, future, g, PackAll(fs), |g|);
    StreamStarts(fs);
  }

  /** A frame stands on the boundary, perhaps with its end still to come. */
  lemma FrameOnBoundary(t: seq<byte>, future: seq<byte>, fs: seq<Frame>, before: seq<byte>)
    requires AllWellFormed(fs) && t + future == PackAll(fs) && |t| >= 10
    ensures fs != [] && LengthField(t) == |fs[0].data|
    ensures |t| >= |Package(fs[0])| ==>
      |t| >= HEAD_LENGTH + LengthField(t) && Unpackage(t, before) == Delivered(fs[0], before)
  {
    StreamStarts(fs);
    assert t[8..10] == PackAll(fs)[8..10];
    if |t| >= |Package(fs[0])| {
      var more := t[|Package(fs[0])|..];
      assert t == (t + future)[..|t|];
      assert t[..|Package(fs[0])|] == Package(fs[0]);
      assert t == Package(fs[0]) + more;
      UnpackagePackage(fs[0], more, before);
    }
  }

  /**
   find_frame on any part of a stream that has garbage before its frames: exactly k bytes are dropped, all of them
   garbage. The first frame is found exactly when all of it has arrived and the garbage is less than half the buffer;
   when it is whole but not found, half the buffer is dropped.
   */
  lemma FindOnStream(b: seq<byte>, future: seq<byte>, g: seq<byte>, fs: seq<Frame>, before: seq<byte>) returns (k: nat)
    requires Garbage(g) && AllWellFormed(fs) && b + future == g + PackAll(fs)
    ensures k <= |g| && k <= |b| && Garbage(g[k..]) && b[k..] + future == g[k..] + PackAll(fs)
    ensures var whole := fs != [] && |b| >= |g| + |Package(fs[0])|;
            if whole && |g| < |b| / 2 then k == |g| && FindFrame(b, before) == Whole(Delivered(fs[0], before), b[k..])
            else FindFrame(b, before) == NotYet(b[k..]) && (whole ==> k >= |b| / 2)
  {
    hide Garbage, SearchFrom, PackAll, Package, Unpackage, Delivered, LengthField, AllWellFormed;
    if |b| < HEAD_LENGTH {
      k := 0;
      assert b[0..] == b && g[0..] == g;
    } else {
      k := SearchFrom(b, 0);
      SearchOnStream(b, future, g, fs);
      GarbageSuffix(g, k);
      assert b[k..] + future == (b + future)[k..] == (g + PackAll(fs))[k..] == g[k..] + PackAll(fs);
      if k < |b| / 2 {
        assert g[k..] == [] && b[k..] + future == PackAll(fs);
        FrameOnBoundary(b[k..], future, fs, before);
      }
    }
  }

  lemma AfterFirst(rest: seq<byte>, future: seq<byte>, fs: seq<Frame>, before: seq<byte>)
    requires AllWellFormed(fs) && fs != [] && rest + future == PackAll(fs) && |rest| >= |Package(fs[0])|
    ensures HEAD_LENGTH + Delivered(fs[0], before).curLen == |Package(fs[0])|
    ensures var t := rest[|Package(fs[0])|..];
            rest == Package(fs[0]) + t && t + future == PackAll(fs[1..])
  {
    var n := |Package(fs[0])|;
    assert WellFormed(fs[0]);
    assert rest[..n] == (rest + future)[..n] == Package(fs[0]);
    assert rest[n..] + future == (rest + future)[n..] == PackAll(fs[1..]);
  }

  /**
   One try: it takes the first frame, which stands behind all the garbage, or it drops k bytes of garbage and nothing
   else.
   */
  predicate TakesOrDrops(s: Session, chunk: seq<byte>, future: seq<byte>, g: seq<byte>, fs: seq<Frame>, k: nat,
        t: Session)
  {
    && k <= |g| && Garbage(g[k..])
    && if t.taken == s.taken then
         && t.data == s.data && s.iodata + chunk == g[..k] + t.iodata && t.iodata + future == g[k..] + PackAll(fs)
       else
         && fs != [] && k == |g| && t.data == Delivered(fs[0], s.data).data
             && t.taken == s.taken + [Delivered(fs[0], s.data)]
         && s.iodata + chunk == g + Package(fs[0]) + t.iodata && t.iodata + future == PackAll(fs[1..])
  }

  lemma Drops(s: Session, chunk: seq<byte>, future: seq<byte>, g: seq<byte>, fs: seq<Frame>, k: nat)
    requires k <= |g| && k <= |s.iodata + chunk| && Garbage(g[k..]) && s.iodata + chunk + future == g + PackAll(fs)
    ensures TakesOrDrops(s, chunk, future, g, fs, k, s.(iodata := (s.iodata + chunk)[k..]))
  {
    hide Garbage, PackAll;
    var b := s.iodata + chunk;
    assert b[..k] == (b + future)[..k] == g[..k];
    assert b == b[..k] + b[k..];
    assert b[k..] + future == (b + future)[k..] == g[k..] + PackAll(fs);
  }

  lemma Takes(s: Session, chunk: seq<byte>, future: seq<byte>, g: seq<byte>, fs: seq<Frame>)
    requires AllWellFormed(fs) && Garbage(g) && fs != [] && s.iodata + chunk + future == g + PackAll(fs)
    requires |s.iodata + chunk| >= |g| + |Package(fs[0])|
    ensures var d := Delivered(fs[0], s.data);
            && HEAD_LENGTH + d.curLen == |Package(fs[0])|
            && var t := Session((s.iodata + chunk)[|g|..][|Package(fs[0])|..], d.data, s.taken + [d]);
            |t.taken| > |s.taken| && TakesOrDrops(s, chunk, future, g, fs, |g|, t)
  {
    hide PackAll, Package, AllWellFormed;
    var b := s.iodata + chunk;
    assert b[..|g|] == (b + future)[..|g|] == g;
    assert b[|g|..] + future == (b + future)[|g|..] == PackAll(fs);
    AfterFirst(b[|g|..], future, fs, s.data);
    var t := b[|g|..][|Package(fs[0])|..];
    assert b == b[..|g|] + b[|g|..];
    assert g + (Package(fs[0]) + t) == g + Package(fs[0]) + t;
    assert g[|g|..] == [];
  }

  lemma TryOnNoisyStream(s: Session, r: Read, future: seq<byte>, g: seq<byte>, fs: seq<Frame>) returns (k: nat)
    requires Garbage(g) && AllWellFormed(fs) && s.iodata + r.bytes + future == g + PackAll(fs)
    ensures TakesOrDrops(s, r.bytes, future, g, fs, k, StepSession(s, r))
    ensures var (b, t) := (s.iodata + r.bytes, StepSession(s, r));
            fs != [] && |b| >= |g| + |Package(fs[0])| && t.taken == s.taken ==> |t.iodata| <= |b| - |b| / 2
  {
    hide FindFrame, Garbage, PackAll, Package, Delivered, AllWellFormed, TakesOrDrops;
    var b := s.iodata + r.bytes;
    k := FindOnStream(b, future, g, fs, s.data);
    if FindFrame(b, s.data).Whole? {
      Takes(s, r.bytes, future, g, fs);
    } else if r.ret < 0 && b != [] {
      var j := FindOnStream(b[k..], future, g[k..], fs, s.data);
      assert g[k..][j..] == g[k + j..] && b[k..][j..] == b[k + j..];
      if FindFrame(b[k..], s.data).Whole? {
        Takes(s, r.bytes, future, g, fs);
        assert k + j == |g|;
      } else {
        Drops(s, r.bytes, future, g, fs, k + j);
      }
      k := k + j;
    } else {
      Drops(s, r.bytes, future, g, fs, k);
    }
  }

  /**
   The state of the receiver after k bytes of garbage and n frames of what came in since s; future is still to come.
   */
  predicate Resumed(s: Session, bytes: seq<byte>, future: seq<byte>, g: seq<byte>, fs: seq<Frame>, k: nat, n: nat,
        t: Session)
  {
    && k <= |g| && n <= |fs| && (n > 0 ==> k == |g|)
    && t.taken == s.taken + DeliveredAll(fs[..n], s.data) && t.data == LastData(fs[..n], s.data)
    && s.iodata + bytes == g[..k] + PackAll(fs[..n]) + t.iodata && t.iodata + future == g[k..] + PackAll(fs[n..])
  }

  lemma ResumedAtOnce(s: Session, future: seq<byte>, g: seq<byte>, fs: seq<Frame>)
    requires s.iodata + future == g + PackAll(fs)
    ensures Resumed(s, [], future, g, fs, 0, 0, s)
  {
    assert fs[..0] == [] && fs[0..] == fs && g[..0] == [] && g[0..] == g && s.iodata + [] == [] + [] + s.iodata;
  }

  lemma ResumedAfterDrop(s: Session, chunk: seq<byte>, mid: Session, later: seq<byte>, future: seq<byte>, g: seq<byte>,
        fs: seq<Frame>, j: nat, k: nat, n: nat, t: Session)
    requires TakesOrDrops(s, chunk, later + future, g, fs, j, mid) && mid.taken == s.taken
    requires Resumed(mid, later, future, g[j..], fs, k, n, t)
    ensures Resumed(s, chunk + later, future, g, fs, j + k, n, t)
  {
    hide PackAll, DeliveredAll, LastData, Garbage;
    assert g[j..][k..] == g[j + k..] && g[..j] + g[j..][..k] == g[..j + k];
    calc {
      s.iodata + (chunk + later);
      (s.iodata + chunk) + later;
      g[..j] + (mid.iodata + later);
      g[..j] + (g[j..][..k] + PackAll(fs[..n]) + t.iodata);
      (g[..j] + g[j..][..k]) + PackAll(fs[..n]) + t.iodata;
    }
  }

  /** After the first frame, the stream starts on a frame boundary. */
  lemma ResumedAfterFrame(s: Session, chunk: seq<byte>, mid: Session, later: seq<byte>, future: seq<byte>, g: seq<byte>,
        fs: seq<Frame>, m: nat, t: Session)
    requires TakesOrDrops(s, chunk, later + future, g, fs, |g|, mid) && mid.taken != s.taken
    requires InOrder(mid, later, future, fs[1..], m, t)
    ensures Resumed(s, chunk + later, future, g, fs, |g|, m + 1, t)
  {
    hide Package, Delivered, DeliveredAll, PackAll, LastData, Garbage;
    FirstAndRest(fs, m, s.data);
    assert fs[1..][m..] == fs[m + 1..] && g[..|g|] == g && g[|g|..] == [];
    calc {
      s.iodata + (chunk + later);
      (s.iodata + chunk) + later;
      g + Package(fs[0]) + (mid.iodata + later);
      g + Package(fs[0]) + (PackAll(fs[1..][..m]) + t.iodata);
      g + PackAll(fs[..m + 1]) + t.iodata;
    }
    calc {
      t.taken;
      s.taken + [Delivered(fs[0], s.data)] + DeliveredAll(fs[1..][..m], mid.data);
      s.taken + DeliveredAll(fs[..m + 1], s.data);
    }
  }

  /**
   Garbage and then frames, cut into chunks in any way: no byte of a frame is ever dropped, and the frames taken are the
   first ones sent, in order. What came in is k bytes of garbage, the frames taken, and what is still buffered.
   */
  lemma {:induction false} NoisyStreamInOrder(s: Session, inputs: seq<Read>, future: seq<byte>, g: seq<byte>,
        fs: seq<Frame>)
    returns (k: nat, n: nat)
    requires Garbage(g) && AllWellFormed(fs) && s.iodata + Received(inputs) + future == g + PackAll(fs)
    ensures Resumed(s, Received(inputs), future, g, fs, k, n, RunSession(s, inputs))
    decreases |inputs|
  {
    hide Package, Delivered, StepSession, InOrder, PackAll, Resumed, Garbage, DeliveredAll, LastData;
    if inputs == [] {
      k, n := 0, 0;
      assert s.iodata + [] == s.iodata;
      ResumedAtOnce(s, future, g, fs);
    } else {
      var (r, later) := (inputs[0], Received(inputs[1..]));
      assert s.iodata + r.bytes + (later + future) == s.iodata + Received(inputs) + future;
      var j := TryOnNoisyStream(s, r, later + future, g, fs);
      var t := StepSession(s, r);
      assert t.iodata + later + future == t.iodata + (later + future);
      if t.taken == s.taken {
        k, n := NoisyStreamInOrder(t, inputs[1..], future, g[j..], fs);
        ResumedAfterDrop(s, r.bytes, t, later, future, g, fs, j, k, n, RunSession(s, inputs));
        k := j + k;
      } else {
        var m := StreamInOrder(t, inputs[1..], fs[1..], future);
        ResumedAfterFrame(s, r.bytes, t, later, future, g, fs, m, RunSession(s, inputs));
        k, n := |g|, m + 1;
      }
    }
  }

  /**
   Once everything has arrived, every frame is taken within m tries for the garbage and one more for each frame, where
   2^m times the length of the frames outweighs the whole buffer (both counted without one byte).
   */
  lemma {:induction false} NoisyDrains(s: Session, tries: seq<Read>, g: seq<byte>, fs: seq<Frame>, m: nat)
    requires Garbage(g) && AllWellFormed(fs) && fs != [] && s.iodata == g + PackAll(fs)
    requires |s.iodata| - 1 < Pow2(m) * (|PackAll(fs)| - 1)
    requires |tries| >= m + |fs| && forall k :: 0 <= k < |tries| ==> tries[k].bytes == []
    ensures var t := RunSession(s, tries); t.taken == s.taken + DeliveredAll(fs, s.data) && t.iodata == []
    decreases |tries|
  {
    hide Package, Delivered, StepSession, PackAll, Garbage, LastData, AllWellFormed;
    var b, t := s.iodata + tries[0].bytes, StepSession(s, tries[0]);
    assert b == s.iodata && b + [] == g + PackAll(fs);
    var j := TryOnNoisyStream(s, tries[0], [], g, fs);
    assert t.iodata + [] == t.iodata;
    AtLeastFirst(fs);
    if t.taken == s.taken {
      assert m > 0;
      Doubling(m, |PackAll(fs)| - 1);
      NoisyDrains(t, tries[1..], g[j..], fs, m - 1);
    } else {
      DrainsLater(t, tries[1..], fs);
      assert s.taken + [Delivered(fs[0], s.data)] + DeliveredAll(fs[1..], t.data) == s.taken + DeliveredAll(fs, s.data);
    }
  }

  lemma AtLeastFirst(fs: seq<Frame>)
    requires fs != []
    ensures |PackAll(fs)| >= |Package(fs[0])| && |PackAll(fs)| >= HEAD_LENGTH
  {
  }

  lemma DrainsLater(t: Session, tries: seq<Read>, fs: seq<Frame>)
    requires AllWellFormed(fs) && fs != [] && t.iodata == PackAll(fs[1..])
    requires |tries| >= |fs| - 1 && forall k :: 0 <= k < |tries| ==> tries[k].bytes == []
    ensures var e := RunSession(t, tries); e.taken == t.taken + DeliveredAll(fs[1..], t.data) && e.iodata == []
  {
    hide DeliveredAll, RunSession, PackAll;
    Drains(t, tries, fs[1..]);
  }

  /** The data the receiver holds when frame k arrives, if all frames so far came through unchanged. */
  function DataBefore(fs: seq<Frame>, k: nat, before: seq<byte>): seq<byte>
    requires k < |fs|
  {
    if k == 0 then before else fs[k - 1].data
  }

  predicate NeverEmptyAfterData(fs: seq<Frame>, before: seq<byte>) {
    forall k :: 0 <= k < |fs| && fs[k].curLen == 0 ==> DataBefore(fs, k, before) == []
  }

  lemma NeverEmptyAfterDataStep(fs: seq<Frame>, before: seq<byte>)
    requires fs != []
    ensures NeverEmptyAfterData(fs, before) <==>
              (fs[0].curLen > 0 || before == []) && NeverEmptyAfterData(fs[1..], fs[0].data)
  {
    if NeverEmptyAfterData(fs, before) {
      assert DataBefore(fs, 0, before) == before;
      forall k | 0 <= k < |fs[1..]| && fs[1..][k].curLen == 0 ensures DataBefore(fs[1..], k, fs[0].data) == [] {
        assert fs[1..][k] == fs[k + 1] && DataBefore(fs, k + 1, before) == [];
      }
    }
    if (fs[0].curLen > 0 || before == []) && NeverEmptyAfterData(fs[1..], fs[0].data) {
      forall k | 0 <= k < |fs| && fs[k].curLen == 0 ensures DataBefore(fs, k, before) == [] {
        if k > 0 {
          assert fs[1..][k - 1] == fs[k] && DataBefore(fs[1..], k - 1, fs[0].data) == [];
        }
      }
    }
  }

  /** The frames are delivered unchanged exactly when none of them is empty after a frame with data. */
  lemma {:induction false} DeliveredUnchanged(fs: seq<Frame>, before: seq<byte>)
    requires forall k :: 0 <= k < |fs| ==> WellFormed(fs[k])
    ensures DeliveredAll(fs, before) == fs <==> NeverEmptyAfterData(fs, before)
    decreases |fs|
  {
    if fs != [] {
      var d := Delivered(fs[0], before);
      assert WellFormed(fs[0]);
      assert d == fs[0] <==> fs[0].curLen > 0 || before == [];
      NeverEmptyAfterDataStep(fs, before);
      assert forall k :: 0 <= k < |fs[1..]| ==> fs[1..][k] == fs[k + 1];
      DeliveredUnchanged(fs[1..], d.data);
      hide NeverEmptyAfterData, WellFormed, Delivered;
      FirstAndLater(DeliveredAll(fs, before), fs, d, DeliveredAll(fs[1..], d.data));
    }
  }

  lemma FirstAndLater(x: seq<Frame>, y: seq<Frame>, d: Frame, later: seq<Frame>)
    requires x == [d] + later && y != []
    ensures x == y <==> d == y[0] && later == y[1..]
  {
    assert y == [y[0]] + y[1..];
    assert x[0] == d && x[1..] == later;
  }
}
