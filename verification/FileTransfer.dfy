/**
 The file service of the IEC 60870-5-101/104 handler: cutting a file into checksummed segments
 (libdturuleskit/dtuhalasdu.cpp) and rebuilding one from segments (libdturuleskit/dturulehandle.cpp).
 */
module FileTransfer {
  import opened Bytes
  import opened Sequences

  const SEGMENT: nat := 220
  const F_OPT_RFILE_DATA: byte := 5
  const MAX_ASDU_LENGTH: nat := 235

  type content = s: seq<byte> | |s| < 0x1_0000_0000 witness []

  function Min(a: nat, b: nat): nat { if a < b then a else b }

  // ---------------------------------------------------------------- cutting

  function SegmentCount(file: content): nat { (|file| + SEGMENT - 1) / SEGMENT }

  function SegmentData(file: content, i: nat): (s: seq<byte>)
    requires i < SegmentCount(file)
    ensures 0 < |s| <= SEGMENT
  {
    file[SEGMENT * i..Min(SEGMENT * (i + 1), |file|)]
  }

  function SegmentHeader(id: uint32, offset: uint32, more: byte): (s: seq<byte>)
    ensures |s| == 14 && s[5..9] == Le32(id) && s[9..13] == Le32(offset) && s[13] == more
  {
    [0, 0, 0] + [2] + [F_OPT_RFILE_DATA] + Le32(id) + Le32(offset) + [more]
  }

  /** The payload of segment i: address, packet type, operation, file, offset, "more follows", data, checksum. */
  function Segment(id: uint32, file: content, i: nat): (s: seq<byte>)
    requires i < SegmentCount(file)
    ensures 15 < |s| <= MAX_ASDU_LENGTH
  {
    var data := SegmentData(file, i);
    SegmentHeader(id, SEGMENT * i, if i == SegmentCount(file) - 1 then 0 else 1) + data + [Sum8(data)]
  }

  function Segments(id: uint32, file: content): (s: seq<seq<byte>>)
    ensures |s| == SegmentCount(file) && forall i :: 0 <= i < |s| ==> s[i] == Segment(id, file, i)
  {
    seq(SegmentCount(file), i requires 0 <= i < SegmentCount(file) => Segment(id, file, i))
  }

  /** The payload of the data from any offset on. */
  function SegmentAt(id: uint32, file: content, offset: uint32): (s: seq<byte>)
    requires offset < |file|
    ensures 15 < |s| <= MAX_ASDU_LENGTH
  {
    var end := Min(offset + SEGMENT, |file|);
    SegmentHeader(id, offset, if end == |file| then 0 else 1) + file[offset..end] + [Sum8(file[offset..end])]
  }

  lemma SegmentStandsAt(id: uint32, file: content, i: nat)
    requires i < SegmentCount(file)
    ensures SEGMENT * i < |file| && Segment(id, file, i) == SegmentAt(id, file, SEGMENT * i)
  {
    hide SegmentHeader, Sum8;
  }

  /** create_Readfile_CON_ACK: the next frame and the offset after it. */
  method CreateReadfileConAck(id: uint32, file: content, offset: uint32)
    returns (frame: Option<seq<byte>>, next: uint32)
    ensures offset >= |file| ==> frame == None && next == offset
    ensures offset < |file| ==> frame == Some(SegmentAt(id, file, offset)) && next == Min(offset + SEGMENT, |file|)
  {
    if offset < |file| {
      var readsize := Min(SEGMENT, |file| - offset);
      var sendcontent := file[offset..offset + readsize];
      var payload: seq<byte> := [0, 0, 0];
      payload := payload + [2];
      payload := payload + [F_OPT_RFILE_DATA];
      payload := payload + Le32(id);
      payload := payload + Le32(offset);
      next := offset + readsize;
      var isEnd := 1;
      if next >= |file| {
        isEnd := 0;
      }
      payload := payload + [isEnd];
      assert payload == SegmentHeader(id, offset, isEnd);
      payload := payload + sendcontent;
      var mod := GetMod(sendcontent);
      payload := payload + [mod];
      return Some(payload), next;
    }
    return None, offset;
  }

  /** The loop of fileReqContent: frames are taken until none comes. */
  method FileReqContent(id: uint32, file: content) returns (frames: seq<seq<byte>>)
    ensures frames == Segments(id, file)
  {
    frames := [];
    var offset: uint32 := 0;
    while true
      invariant |frames| <= SegmentCount(file) && frames == Segments(id, file)[..|frames|]
      invariant offset == Min(SEGMENT * |frames|, |file|)
      decreases SegmentCount(file) - |frames|
    {
      var frame;
      frame, offset := CreateReadfileConAck(id, file, offset);
      if frame.None? {
        break;
      }
      SegmentStandsAt(id, file, |frames|);
      frames := frames + [frame.value];
    }
  }

  // ---------------------------------------------------------------- parsing

  datatype Written = Written(id: uint32, pos: uint32, more: byte, data: seq<byte>, mod: byte)

  /** ParseWritefileData on a payload without its first byte; the length left over is counted in 32 bits. */
  function ParseWritefileData(data: content): (r: Access<Written>)
    ensures r.Done? <==> |data| > 14
    ensures r.Overrun? <==> |data| == 13
    ensures r.Done? ==> |r.value.data| == |data| - 14
  {
    if |data| < 13 then Throws
    else
      var size: uint32 := (|data| - 13 - 1) % 0x1_0000_0000;
      match (Get(data, (13 + size) % 0x1_0000_0000, 1), Get(data, 13, (|data| - 13 - 1) % 0x1_0000_0000))
      case (Done(mod), Done(rest)) => Access.Done(Written(Of32(data[4..8]), Of32(data[8..12]), data[12], rest, mod[0]))
      case (Done(_), Overrun) => Overrun
      case _ => Throws
  }

  lemma ParseSegment(id: uint32, file: content, i: nat)
    requires i < SegmentCount(file)
    ensures var data := SegmentData(file, i);
            var more := if i == SegmentCount(file) - 1 then 0 else 1;
            ParseWritefileData(Segment(id, file, i)[1..])
                == Access.Done(Written(id, SEGMENT * i, more, data, Sum8(data)))
  {
    var data := SegmentData(file, i);
    var h := SegmentHeader(id, SEGMENT * i, if i == SegmentCount(file) - 1 then 0 else 1);
    Le32RoundTrip(id);
    Le32RoundTrip(SEGMENT * i);
    hide SegmentHeader, Le32, Of32, Sum8, SegmentData, ParseWritefileData;
    ParseLayout(h, data, Sum8(data));
  }

  lemma ParseLayout(h: seq<byte>, data: seq<byte>, mod: byte)
    requires |h| == 14 && 0 < |data| <= SEGMENT
    ensures ParseWritefileData((h + data + [mod])[1..])
         == Access.Done(Written(Of32(h[5..9]), Of32(h[9..13]), h[13], data, mod))
  {
    hide Of32;
    var s := (h + data + [mod])[1..];
    assert s == h[1..] + data + [mod];
    assert s[4..8] == h[5..9] && s[8..12] == h[9..13] && s[12] == h[13];
    assert s[13..|s| - 1] == data && s[|s| - 1..|s|] == [mod];
  }

  // ---------------------------------------------------------------- rebuilding

  datatype Entry = Entry(name: string, contents: seq<byte>)

  datatype Saved = Saved(id: uint32, name: string, contents: seq<byte>)

  /** The files being received and the save_file calls made so far. */
  datatype Store = Store(files: map<uint32, Entry>, saved: seq<Saved>)

  datatype Reply = NoReply | Complete(id: uint32, code: nat, pos: uint32)

  /** writeFileContent; disk is what save_file would return. */
  function WriteFileContent(st: Store, w: Written, disk: nat): Access<(Store, nat)> {
    if w.id !in st.files then Access.Done((st, 4))
    else if Sum8(w.data) != w.mod then Access.Done((st, 2))
    else
      var f := st.files[w.id];
      match Set(f.contents, w.pos, w.data)
      case Throws => Access.Done((st, 3))
      case Overrun => Overrun
      case Done(t) =>
        if w.more != 0 then Access.Done((st.(files := st.files[w.id := f.(contents := t)]), 0))
        else Access.Done((Store(st.files - {w.id}, st.saved + [Saved(w.id, f.name, t)]), disk))
  }

  /** FileRecvContent on a payload without its first byte. */
  function FileRecvContent(st: Store, data: content, disk: nat): Access<(Store, Reply)> {
    match ParseWritefileData(data)
    case Throws => Throws
    case Overrun => Overrun
    case Done(w) =>
      match WriteFileContent(st, w, disk)
      case Throws => Throws
      case Overrun => Overrun
      case Done((next, ret)) =>
        Access.Done((next, if ret != 0 || w.more == 0 then Complete(w.id, ret, w.pos) else NoReply))
  }

  lemma PutThenDrop(files: map<uint32, Entry>, id: uint32, e: Entry)
    ensures files[id := e] - {id} == files - {id}
  {
  }

  class RuleHandler {
    var files: map<uint32, Entry>
    var saved: seq<Saved>

    constructor ()
      ensures files == map[] && saved == []
    {
      files, saved := map[], [];
    }

    function State(): Store
      reads this
    {
      Store(files, saved)
    }

    method WriteFileActive(id: uint32, name: string, size: uint32)
      modifies this
      ensures State() == Store(old(files)[id := Entry(name, seq(size, _ => 0))], old(saved))
    {
      files := files[id := Entry(name, seq(size, _ => 0))];
    }

    method WriteFileContentStep(w: Written, disk: nat) returns (r: Access<nat>)
      modifies this
      ensures match WriteFileContent(old(State()), w, disk)
              case Done((next, ret)) => r == Access.Done(ret) && State() == next
              case Throws => r == Throws && State() == old(State())
              case Overrun => r == Overrun && State() == old(State())
    {
      if w.id !in files {
        return Access.Done(4);
      }
      var check := GetMod(w.data);
      if check != w.mod {
        return Access.Done(2);
      }
      hide Set, Sum8;
      var buffer := new Buffer(0);
      buffer.contents := files[w.id].contents;
      var done := buffer.Write(w.pos, w.data);
      if done.Throws? {
        return Access.Done(3);
      }
      if done.Overrun? {
        return Overrun;
      }
      var name := files[w.id].name;
      files := files[w.id := Entry(name, buffer.contents)];
      var ret := 0;
      if w.more == 0 {
        saved := saved + [Saved(w.id, name, buffer.contents)];
        ret := disk;
        PutThenDrop(old(files), w.id, Entry(name, buffer.contents));
        files := files - {w.id};
      }
      r := Access.Done(ret);
    }

    method FileRecvContentStep(data: content, disk: nat) returns (r: Access<Reply>)
      modifies this
      ensures match FileRecvContent(old(State()), data, disk)
              case Done((next, reply)) => r == Access.Done(reply) && State() == next
              case Throws => r == Throws && State() == old(State())
              case Overrun => r == Overrun && State() == old(State())
    {
      var parsed := ParseWritefileData(data);
      if parsed.Throws? {
        return Throws;
      }
      if parsed.Overrun? {
        return Overrun;
      }
      var w := parsed.value;
      var empty := Complete(w.id, 3, w.pos);
      if |w.data| > 0 {
        var written := WriteFileContentStep(w, disk);
        if written.Throws? {
          return Throws;
        }
        if written.Overrun? {
          return Overrun;
        }
        if written.value != 0 || w.more == 0 {
          r := Access.Done(Complete(w.id, written.value, w.pos));
        } else {
          r := Access.Done(NoReply);
        }
      } else {
        r := Access.Done(empty);
      }
    }
  }

  // ---------------------------------------------------------------- whole transfers

  /**
   What the handler gets: a payload without its first byte and what save_file would return if it ends a file, or the
   activation of a file.
   */
  datatype Arrival = Payload(data: content, disk: nat) | Activation(id: uint32, name: string, size: uint32)

  function Activated(st: Store, id: uint32, name: string, size: nat): Store {
    st.(files := st.files[id := Entry(name, seq(size, _ => 0))])
  }

  /** A payload that throws leaves the store as it was. */
  function Apply(st: Store, a: Arrival): (r: Access<Store>)
    ensures !r.Throws?
  {
    match a
    case Activation(id, name, size) => Access.Done(Activated(st, id, name, size))
    case Payload(data, disk) =>
      match FileRecvContent(st, data, disk)
      case Done((next, _)) => Access.Done(next)
      case Throws => Access.Done(st)
      case Overrun => Overrun
  }

  /** Arrivals one after the other. */
  function Run(st: Store, arrivals: seq<Arrival>): (r: Access<Store>)
    ensures !r.Throws?
    decreases |arrivals|
  {
    if arrivals == [] then Access.Done(st)
    else
      var r := Apply(st, arrivals[0]);
      if r.Done? then Run(r.value, arrivals[1..]) else Overrun
  }

  /** A payload that stores nothing into file id of the given size: it does not parse, has a wrong checksum, lies out of
      range, or belongs to another file. */
  predicate Harmless(id: uint32, size: nat, data: content) {
    var r := ParseWritefileData(data);
    r.Done? && r.value.id == id && Sum8(r.value.data) == r.value.mod ==> r.value.pos + |r.value.data| > size
  }

  /** A payload that can pass no range guard wrongly: it is not cut off before its data, and its end fits 32 bits. */
  predicate Tame(data: content) {
    var r := ParseWritefileData(data);
    !r.Overrun? && (r.Done? ==> r.value.pos + |r.value.data| < 0x1_0000_0000)
  }

  /**
   Exactly when a payload makes the handler reach past the end of a buffer: all of it but the data is there, or it is
   accepted for a file being received whose size the end of its data exceeds, but not once it has wrapped in 32 bits.
   */
  lemma OverrunsExactly(st: Store, data: content, disk: nat)
    ensures FileRecvContent(st, data, disk).Overrun? <==>
              || |data| == 13
              || (&& |data| > 14
                  && var w := ParseWritefileData(data).value;
                     && w.id in st.files && Sum8(w.data) == w.mod
                     && (w.pos + |w.data|) % 0x1_0000_0000 <= |st.files[w.id].contents| < w.pos + |w.data|)
  {
    hide Sum8;
    var r := ParseWritefileData(data);
    hide ParseWritefileData;
  }

  /** An arrival that leaves file id alone. */
  predicate Foreign(id: uint32, size: nat, a: Arrival) {
    if a.Payload? then Harmless(id, size, a.data) else a.id != id
  }

  predicate AllTame(arrivals: seq<Arrival>) {
    forall k :: 0 <= k < |arrivals| && arrivals[k].Payload? ==> Tame(arrivals[k].data)
  }

  datatype Delivery = Piece(index: nat) | Noise(arrival: Arrival)

  predicate Deliverable(id: uint32, file: content, ds: seq<Delivery>) {
    forall k :: 0 <= k < |ds| ==>
      match ds[k]
      case Piece(i) => i < SegmentCount(file) - 1
      case Noise(a) => Foreign(id, |file|, a)
  }

  function NoiseOf(ds: seq<Delivery>): seq<Arrival>
    decreases |ds|
  {
    if ds == [] then [] else (if ds[0].Noise? then [ds[0].arrival] else []) + NoiseOf(ds[1..])
  }

  function ArrivalOf(id: uint32, file: content, d: Delivery): Arrival
    requires d.Piece? ==> d.index < SegmentCount(file)
  {
    match d
    case Piece(i) => Payload(Segment(id, file, i)[1..], 0)
    case Noise(a) => a
  }

  function Arrivals(id: uint32, file: content, ds: seq<Delivery>): (s: seq<Arrival>)
    requires Deliverable(id, file, ds)
    ensures |s| == |ds|
  {
    seq(|ds|, k requires 0 <= k < |ds| => ArrivalOf(id, file, ds[k]))
  }

  function Pieces(ds: seq<Delivery>): set<nat> { set k | 0 <= k < |ds| && ds[k].Piece? :: ds[k].index }

  /** The file as far as the segments in got are concerned; the rest is as the buffer was created. */
  function Masked(file: content, got: set<nat>): (s: seq<byte>)
    ensures |s| == |file|
  {
    seq(|file|, k requires 0 <= k < |file| => if k / SEGMENT in got then file[k] else 0)
  }

  function SavesOf(saved: seq<Saved>, id: uint32): seq<Saved>
    decreases |saved|
  {
    if saved == [] then []
    else SavesOf(saved[..|saved| - 1], id) + if saved[|saved| - 1].id == id then [saved[|saved| - 1]] else []
  }

  /** File id is being received, has got these segments and was saved no more often than before. */
  predicate Receiving(st: Store, id: uint32, name: string, file: content, got: set<nat>, before: seq<Saved>) {
    id in st.files && st.files[id] == Entry(name, Masked(file, got)) && SavesOf(st.saved, id) == before
  }

  lemma MaskedStep(file: content, got: set<nat>, i: nat)
    requires i < SegmentCount(file)
    ensures Set(Masked(file, got), SEGMENT * i, SegmentData(file, i)) == Access.Done(Masked(file, got + {i}))
  {
    var (lo, hi) := (SEGMENT * i, Min(SEGMENT * (i + 1), |file|));
    var t := Masked(file, got)[..lo] + SegmentData(file, i) + Masked(file, got)[hi..];
    forall k | 0 <= k < |file| ensures t[k] == Masked(file, got + {i})[k] {
      assert k / SEGMENT == i <==> lo <= k < hi;
    }
    assert t == Masked(file, got + {i});
  }

  lemma ReceivePiece(st: Store, id: uint32, name: string, file: content, got: set<nat>, before: seq<Saved>, i: nat,
        disk: nat)
    requires Receiving(st, id, name, file, got, before) && i < SegmentCount(file)
    ensures var r := FileRecvContent(st, Segment(id, file, i)[1..], disk);
            && r.Done?
            && (i < SegmentCount(file) - 1 ==>
              Receiving(r.value.0, id, name, file, got + {i}, before) && r.value.1 == NoReply)
            && (i == SegmentCount(file) - 1 ==>
                  && id !in r.value.0.files && r.value.1 == Complete(id, disk, SEGMENT * i)
                  && SavesOf(r.value.0.saved, id) == before + [Saved(id, name, Masked(file, got + {i}))])
  {
    ParseSegment(id, file, i);
    MaskedStep(file, got, i);
    hide Segment, SegmentData, Masked, ParseWritefileData, Set, Sum8;
    var r := FileRecvContent(st, Segment(id, file, i)[1..], disk).value.0;
    assert i == SegmentCount(file) - 1 ==> r.saved[..|r.saved| - 1] == st.saved;
  }

  lemma ReceiveNoise(st: Store, id: uint32, name: string, file: content, got: set<nat>, before: seq<Saved>, a: Arrival)
    requires Receiving(st, id, name, file, got, before) && Foreign(id, |file|, a)
    ensures var r := Apply(st, a);
            (r.Overrun? ==> a.Payload? && !Tame(a.data))
                && (r.Done? ==> Receiving(r.value, id, name, file, got, before))
  {
    hide Masked, ParseWritefileData, Sum8;
    var r := Apply(st, a);
    if r.Done? && |r.value.saved| > |st.saved| {
      var t := r.value;
      assert t.saved[..|t.saved| - 1] == st.saved;
    }
  }

  lemma RunStep(st: Store, a: Arrival, later: seq<Arrival>)
    ensures var r := Apply(st, a); Run(st, [a] + later) == if r.Overrun? then Overrun else Run(r.value, later)
  {
    assert ([a] + later)[1..] == later;
  }

  lemma AllTameParts(x: seq<Arrival>, y: seq<Arrival>)
    requires AllTame(x + y)
    ensures AllTame(x) && AllTame(y)
  {
    hide Tame;
    assert forall k :: 0 <= k < |x| ==> (x + y)[k] == x[k];
    forall k | 0 <= k < |y| && y[k].Payload? ensures Tame(y[k].data) {
      assert (x + y)[|x| + k] == y[k];
    }
  }

  lemma AllTameStep(ds: seq<Delivery>)
    requires ds != [] && AllTame(NoiseOf(ds))
    ensures AllTame(NoiseOf(ds[1..]))
    ensures ds[0].Noise? && ds[0].arrival.Payload? ==> Tame(ds[0].arrival.data)
  {
    hide Tame;
    var first := if ds[0].Noise? then [ds[0].arrival] else [];
    AllTameParts(first, NoiseOf(ds[1..]));
    hide NoiseOf;
    assert first != [] ==> first[0] == ds[0].arrival;
  }

  lemma {:induction false} RunReceives(
      st: Store, id: uint32, name: string, file: content, got: set<nat>, before: seq<Saved>,
      ds: seq<Delivery>, later: seq<Arrival>)
    returns (next: Store)
    requires Receiving(st, id, name, file, got, before) && Deliverable(id, file, ds)
    ensures var r := Run(st, Arrivals(id, file, ds) + later);
            || (r.Overrun? && !AllTame(NoiseOf(ds)))
            || (r == Run(next, later) && Receiving(next, id, name, file, got + Pieces(ds), before))
    decreases |ds|
  {
    hide Receiving, Masked, FileRecvContent, Run, Foreign, Tame, SegmentCount, NoiseOf, AllTame;
    if ds == [] {
      next := st;
      assert Arrivals(id, file, ds) + later == later && got + Pieces(ds) == got;
    } else {
      var head := ArrivalOf(id, file, ds[0]);
      var more := if ds[0].Piece? then {ds[0].index} else {};
      assert Arrivals(id, file, ds) + later == [head] + (Arrivals(id, file, ds[1..]) + later);
      RunStep(st, head, Arrivals(id, file, ds[1..]) + later);
      if AllTame(NoiseOf(ds)) {
        AllTameStep(ds);
      }
      if ds[0].Piece? {
        ReceivePiece(st, id, name, file, got, before, ds[0].index, 0);
      } else {
        ReceiveNoise(st, id, name, file, got, before, head);
        assert got + more == got;
        if Apply(st, head).Overrun? {
          next := st;
          return;
        }
      }
      next := RunReceives(Apply(st, head).value, id, name, file, got + more, before, ds[1..], later);
      PiecesStep(ds);
      assert got + more + Pieces(ds[1..]) == got + Pieces(ds);
    }
  }

  lemma PiecesStep(ds: seq<Delivery>)
    requires ds != []
    ensures Pieces(ds) == Pieces(ds[1..]) + if ds[0].Piece? then {ds[0].index} else {}
  {
    forall i | i in Pieces(ds) ensures i in Pieces(ds[1..]) || (ds[0].Piece? && i == ds[0].index) {
      var k :| 0 <= k < |ds| && ds[k].Piece? && ds[k].index == i;
      assert k > 0 ==> ds[1..][k - 1] == ds[k];
    }
    forall i | i in Pieces(ds[1..]) ensures i in Pieces(ds) {
      var k :| 0 <= k < |ds[1..]| && ds[1..][k].Piece? && ds[1..][k].index == i;
      assert ds[k + 1] == ds[1..][k];
    }
  }

  predicate ZeroWhereMissing(file: content, got: set<nat>) {
    forall k :: 0 <= k < |file| && k / SEGMENT !in got ==> file[k] == 0
  }

  /** What is saved is the file exactly if every segment that never came holds nothing but zeros. */
  lemma MaskedIsFile(file: content, got: set<nat>)
    ensures Masked(file, got) == file <==> ZeroWhereMissing(file, got)
    ensures (forall i :: 0 <= i < SegmentCount(file) ==> i in got) ==> Masked(file, got) == file
  {
    if Masked(file, got) == file {
      forall k | 0 <= k < |file| && k / SEGMENT !in got ensures file[k] == 0 {
        assert Masked(file, got)[k] == 0;
      }
    }
    assert forall k :: 0 <= k < |file| ==> 0 <= k / SEGMENT < SegmentCount(file);
  }

  // ---------------------------------------------------------------- what a segment says, and damage to it

  /** The fields of a segment's payload at their places. */
  lemma SegmentFields(id: uint32, file: content, i: nat)
    requires i < SegmentCount(file)
    ensures var s := Segment(id, file, i);
            && s[..5] == [0, 0, 0, 2, 5] && Of32(s[5..9]) == id && Of32(s[9..13]) == 220 * i
            && s[13] == (if 220 * (i + 1) < |file| then 1 else 0)
            && s[14..|s| - 1] == file[220 * i..if 220 * (i + 1) < |file| then 220 * (i + 1) else |file|]
            && s[|s| - 1] == Total(s[14..|s| - 1]) % 0x100
  {
    var (data, more) := (SegmentData(file, i), if i == SegmentCount(file) - 1 then 0 else 1);
    var (h, s) := (SegmentHeader(id, SEGMENT * i, more), Segment(id, file, i));
    SumOfBytes(data);
    Le32RoundTrip(id);
    Le32RoundTrip(SEGMENT * i);
    assert s[..5] == h[..5] == [0, 0, 0, 2, 5];
    hide SegmentHeader, Le32, Of32, Sum8, Total;
    assert s == h + data + [Sum8(data)] && s[5..9] == h[5..9] && s[9..13] == h[9..13];
  }

  /** A segment with one data byte changed is refused with code 2, and nothing is stored. */
  lemma DamagedSegment(st: Store, id: uint32, file: content, i: nat, k: nat, b: byte, disk: nat)
    requires i < SegmentCount(file) && id in st.files && k < |SegmentData(file, i)| && b != SegmentData(file, i)[k]
    ensures FileRecvContent(st, Segment(id, file, i)[1..][13 + k := b], disk)
         == Access.Done((st, Complete(id, 2, SEGMENT * i)))
  {
    var (data, more) := (SegmentData(file, i), if i == SegmentCount(file) - 1 then 0 else 1);
    var (h, bad) := (SegmentHeader(id, SEGMENT * i, more), data[k := b]);
    Le32RoundTrip(id);
    Le32RoundTrip(SEGMENT * i);
    OneByteShows(data, k, b);
    hide SegmentHeader, Le32, Of32, Sum8, SegmentData, ParseWritefileData;
    assert (h + data + [Sum8(data)])[1..][13 + k := b] == (h + bad + [Sum8(data)])[1..];
    ParseLayout(h, bad, Sum8(data));
  }

  // ---------------------------------------------------------------- after the save

  /** A segment that comes late is answered with "no such file" and changes nothing. */
  lemma LatePiece(st: Store, id: uint32, file: content, i: nat, disk: nat)
    requires id !in st.files && i < SegmentCount(file)
    ensures FileRecvContent(st, Segment(id, file, i)[1..], disk) == Access.Done((st, Complete(id, 4, SEGMENT * i)))
  {
    ParseSegment(id, file, i);
    hide Segment, SegmentData, ParseWritefileData;
  }

  /** No activation of file id. */
  predicate NotReopened(id: uint32, later: seq<Arrival>) {
    forall k :: 0 <= k < |later| && later[k].Activation? ==> later[k].id != id
  }

  /** Nothing but an activation brings a file back. */
  lemma StepAfterSave(st: Store, id: uint32, a: Arrival)
    requires id !in st.files && (a.Activation? ==> a.id != id)
    ensures var r := Apply(st, a);
            && (r.Overrun? ==> a.Payload? && !Tame(a.data))
            && (r.Done? ==> id !in r.value.files && SavesOf(r.value.saved, id) == SavesOf(st.saved, id))
  {
    hide ParseWritefileData, Sum8;
    var r := Apply(st, a);
    if r.Done? && |r.value.saved| > |st.saved| {
      var t := r.value;
      assert t.saved[..|t.saved| - 1] == st.saved;
    }
  }

  lemma {:induction false} RunAfterSave(st: Store, id: uint32, later: seq<Arrival>)
    requires id !in st.files && NotReopened(id, later)
    ensures var r := Run(st, later);
            && (r.Overrun? ==> !AllTame(later))
            && (r.Done? ==> id !in r.value.files && SavesOf(r.value.saved, id) == SavesOf(st.saved, id))
    decreases |later|
  {
    hide Apply, SavesOf, Tame;
    if later != [] {
      StepAfterSave(st, id, later[0]);
      var r := Apply(st, later[0]);
      assert forall k :: 0 <= k < |later[1..]| ==> later[1..][k] == later[k + 1];
      if r.Done? {
        RunAfterSave(r.value, id, later[1..]);
      }
    }
  }

  // ---------------------------------------------------------------- main result

  /** The last segment. */
  function LastArrival(id: uint32, file: content, disk: nat): Arrival
    requires file != []
  {
    Payload(Segment(id, file, SegmentCount(file) - 1)[1..], disk)
  }

  /** writeFileActive, then the deliveries, then the last segment, then whatever else comes. */
  function Transfer(st: Store, id: uint32, name: string, file: content, ds: seq<Delivery>, disk: nat,
        later: seq<Arrival>): Access<Store>
    requires file != [] && Deliverable(id, file, ds)
  {
    Run(Activated(st, id, name, |file|), Arrivals(id, file, ds) + ([LastArrival(id, file, disk)] + later))
  }

  lemma ReceivingStarts(st: Store, id: uint32, name: string, file: content)
    ensures Receiving(Activated(st, id, name, |file|), id, name, file, {}, SavesOf(st.saved, id))
  {
    assert Masked(file, {}) == seq(|file|, _ => 0);
  }

  lemma LastSaves(st: Store, id: uint32, name: string, file: content, got: set<nat>, before: seq<Saved>, disk: nat)
    requires file != [] && Receiving(st, id, name, file, got, before)
    ensures var r := Apply(st, LastArrival(id, file, disk));
            && r.Done? && id !in r.value.files
            && SavesOf(r.value.saved, id) == before + [Saved(id, name, Masked(file, got + {SegmentCount(file) - 1}))]
  {
    hide Segment, Receiving, FileRecvContent, SavesOf, Masked;
    ReceivePiece(st, id, name, file, got, before, SegmentCount(file) - 1, disk);
  }

  /**
   Rebuilding: after writeFileActive, the segments of a file arrive in any order and any number of times among
   activations and payloads of other files, and then its last segment. The file is saved once, and never again unless it
   is activated anew, whatever else comes. What is saved is the file with the missing segments zero: the file itself
   exactly if those held only zeros, so always if all segments came. Unless, that is, one of the other payloads makes
   the handler reach past a buffer; no tame payload does.
   */
  lemma Rebuilds(st: Store, id: uint32, name: string, file: content, ds: seq<Delivery>, disk: nat, later: seq<Arrival>)
    requires file != [] && Deliverable(id, file, ds) && NotReopened(id, later)
    ensures var r := Transfer(st, id, name, file, ds, disk, later);
            var got := Pieces(ds) + {SegmentCount(file) - 1};
            r.Done? ==>
            && id !in r.value.files
            && SavesOf(r.value.saved, id) == SavesOf(st.saved, id) + [Saved(id, name, Masked(file, got))]
            && (Masked(file, got) == file <==> ZeroWhereMissing(file, got))
            && ((forall i :: 0 <= i < SegmentCount(file) ==> i in got) ==> Masked(file, got) == file)
    ensures !Transfer(st, id, name, file, ds, disk, later).Throws?
    ensures AllTame(NoiseOf(ds)) && AllTame(later) ==> Transfer(st, id, name, file, ds, disk, later).Done?
  {
    var before, last := SavesOf(st.saved, id), LastArrival(id, file, disk);
    MaskedIsFile(file, Pieces(ds) + {SegmentCount(file) - 1});
    ReceivingStarts(st, id, name, file);
    var next := RunReceives(Activated(st, id, name, |file|), id, name, file, {}, before, ds, [last] + later);
    assert {} + Pieces(ds) == Pieces(ds);
    hide Apply, Run, Masked, SavesOf, Receiving, Arrivals, NoiseOf, AllTame, LastArrival, Activated, SegmentCount,
        Pieces, NotReopened, Deliverable, ZeroWhereMissing;
    if !Transfer(st, id, name, file, ds, disk, later).Overrun? || AllTame(NoiseOf(ds)) {
      LastSaves(next, id, name, file, Pieces(ds), before, disk);
      RunStep(next, last, later);
      RunAfterSave(Apply(next, last).value, id, later);
    }
  }
}
