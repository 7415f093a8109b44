/**
 The reply to a directory request, paged into bounded frames (libdturuleskit/dtuhalasdu.cpp), and the directory
 entries in it (libdturuleskit/dturulehandle.cpp).
 */
module DirectoryPages {
  import opened Bytes
  import opened Sequences

  const MAX_ASDU_LENGTH: nat := 235
  const HEADER: nat := 12
  const ROOM: nat := MAX_ASDU_LENGTH - HEADER
  const F_OPT_DIR_ACK: byte := 2
  const MORE_AT: nat := 10
  const COUNT_AT: nat := 11

  // ---------------------------------------------------------------- frames

  function FrameHeader(dirID: uint32, more: byte, count: byte): (s: seq<byte>)
    ensures |s| == HEADER && s[MORE_AT] == more && s[COUNT_AT] == count
  {
    [0, 0, 0, 2, F_OPT_DIR_ACK, 0] + Le32(dirID) + [more, count]
  }

  /** How far the loop gets from entry i on, with a payload of this size. */
  function PageEnd(files: seq<seq<byte>>, i: nat, size: nat): (e: nat)
    requires i <= |files|
    ensures i <= e <= |files|
    decreases |files| - i
  {
    if i < |files| && size + |files[i]| <= MAX_ASDU_LENGTH then PageEnd(files, i + 1, size + |files[i]|) else i
  }

  function Frame(dirID: uint32, files: seq<seq<byte>>, from: nat, to: nat): seq<byte>
    requires from <= to <= |files|
  {
    FrameHeader(dirID, if to < |files| then 1 else 0, (to - from) % 0x100) + Concat(files[from..to])
  }

  /** The three bytes patched when a frame is finished: success, "more follows", number of entries. */
  method SetFlags(payload: seq<byte>, more: byte, fileNum: byte, ghost dirID: uint32, ghost rest: seq<byte>)
    returns (r: seq<byte>)
    requires payload == FrameHeader(dirID, 0, 0) + rest
    ensures r == FrameHeader(dirID, more, fileNum) + rest
  {
    r := payload[5 := 0];
    r := r[MORE_AT := more];
    r := r[COUNT_AT := fileNum];
  }

  /** The frame from currentIndex on as far as the entries fit, whether more follow, and where the next one starts. */
  predicate IsAck(dirID: uint32, files: seq<seq<byte>>, currentIndex: nat, payload: seq<byte>, more: bool, next: nat)
    requires files == [] || currentIndex < |files|
  {
    var start := if files == [] then 0 else currentIndex;
    var end := PageEnd(files, start, HEADER);
    && payload == Frame(dirID, files, start, end) && (more <==> end < |files|)
    && next == if more then end else currentIndex
  }

  lemma IsAckAt(dirID: uint32, files: seq<seq<byte>>, currentIndex: nat, end: nat, payload: seq<byte>)
    requires currentIndex < |files| && PageEnd(files, currentIndex, HEADER) == end
    requires payload == FrameHeader(dirID, if end < |files| then 1 else 0, (end - currentIndex) % 0x100)
             + Concat(files[currentIndex..end])
    ensures IsAck(dirID, files, currentIndex, payload, end < |files|, if end < |files| then end else currentIndex)
  {
    hide FrameHeader, Concat, PageEnd;
  }

  /** The frame under construction: entries currentIndex up to i, flags not yet set. */
  predicate Building(dirID: uint32, files: seq<seq<byte>>, currentIndex: nat, i: nat, payload: seq<byte>,
        fileNum: byte)
  {
    && currentIndex <= i <= |files| && fileNum == (i - currentIndex) % 0x100
    && payload == FrameHeader(dirID, 0, 0) + Concat(files[currentIndex..i])
    && PageEnd(files, currentIndex, HEADER) == PageEnd(files, i, |payload|)
  }

  /** One entry, if it fits. */
  method AddEntry(dirID: uint32, files: seq<seq<byte>>, currentIndex: nat, i: nat, payload: seq<byte>, fileNum: byte)
    returns (r: seq<byte>, num: byte)
    requires i < |files| && Building(dirID, files, currentIndex, i, payload, fileNum)
             && |payload| + |files[i]| <= MAX_ASDU_LENGTH
    ensures Building(dirID, files, currentIndex, i + 1, r, num)
  {
    hide FrameHeader, Concat, PageEnd;
    TakeEntry(dirID, files, currentIndex, i, payload);
    r := payload + files[i];
    num := (fileNum + 1) % 0x100;
  }

  /** The flags of a frame that ends before entry i. */
  method Finish(dirID: uint32, files: seq<seq<byte>>, currentIndex: nat, i: nat, payload: seq<byte>, fileNum: byte)
    returns (r: seq<byte>)
    requires Building(dirID, files, currentIndex, i, payload, fileNum) && currentIndex < |files|
    requires i == |files| || |payload| + |files[i]| > MAX_ASDU_LENGTH
    ensures IsAck(dirID, files, currentIndex, r, i < |files|, if i < |files| then i else currentIndex)
  {
    hide FrameHeader, Concat, Frame, IsAck;
    r := SetFlags(payload, if i < |files| then 1 else 0, fileNum, dirID, Concat(files[currentIndex..i]));
    IsAckAt(dirID, files, currentIndex, i, r);
  }

  /** create_Directory_ACK: the frame from currentIndex on; a full frame moves currentIndex behind it. */
  method CreateDirectoryAck(dirID: uint32, files: seq<seq<byte>>, currentIndex: nat)
    returns (payload: seq<byte>, more: bool, next: nat)
    requires files == [] || currentIndex < |files|
    ensures IsAck(dirID, files, currentIndex, payload, more, next)
  {
    next := currentIndex;
    var fileNum: byte := 0;
    payload := FrameHeader(dirID, 0, fileNum);
    if |files| == 0 {
      EmptyPage(files, 0);
      return payload, false, next;
    }
    EmptyPage(files, currentIndex);
    var i := currentIndex;
    assert Building(dirID, files, currentIndex, i, payload, fileNum);
    hide *;
    while true
      invariant currentIndex <= i < |files| && next == currentIndex
      invariant Building(dirID, files, currentIndex, i, payload, fileNum)
      decreases |files| - i
    {
      if i == |files| - 1 {
        if |payload| + |files[i]| > MAX_ASDU_LENGTH {
          payload := Finish(dirID, files, currentIndex, i, payload, fileNum);
          more, next := true, i;
        } else {
          payload, fileNum := AddEntry(dirID, files, currentIndex, i, payload, fileNum);
          payload := Finish(dirID, files, currentIndex, i + 1, payload, fileNum);
          more := false;
        }
        return;
      } else {
        if |payload| + |files[i]| > MAX_ASDU_LENGTH {
          payload := Finish(dirID, files, currentIndex, i, payload, fileNum);
          more, next := true, i;
          return;
        } else {
          payload, fileNum := AddEntry(dirID, files, currentIndex, i, payload, fileNum);
        }
      }
      i := i + 1;
    }
  }

  lemma ConcatMore(files: seq<seq<byte>>, from: nat, i: nat)
    requires from <= i < |files|
    ensures Concat(files[from..i + 1]) == Concat(files[from..i]) + files[i]
  {
    assert files[from..i + 1] == files[from..i] + [files[i]];
    ConcatAppend(files[from..i], files[i]);
  }

  lemma EmptyPage(files: seq<seq<byte>>, i: nat)
    requires i <= |files|
    ensures Concat(files[i..i]) == []
  {
    assert files[i..i] == [];
  }

  /** An entry that fits makes the payload longer; patching the flags makes it a frame. */
  lemma TakeEntry(dirID: uint32, files: seq<seq<byte>>, from: nat, i: nat, payload: seq<byte>)
    requires from <= i < |files| && payload == FrameHeader(dirID, 0, 0) + Concat(files[from..i])
    requires |payload| + |files[i]| <= MAX_ASDU_LENGTH
    ensures payload + files[i] == FrameHeader(dirID, 0, 0) + Concat(files[from..i + 1])
    ensures PageEnd(files, i, |payload|) == PageEnd(files, i + 1, |payload + files[i]|)
  {
    hide Concat, FrameHeader;
    ConcatMore(files, from, i);
  }

  // ---------------------------------------------------------------- the loop over frames

  predicate AllFit(files: seq<seq<byte>>) { forall k :: 0 <= k < |files| ==> |files[k]| <= ROOM }

  /** A frame takes no entry exactly if the next one does not fit an empty frame. */
  lemma PageProgress(files: seq<seq<byte>>, from: nat)
    requires from < |files|
    ensures PageEnd(files, from, HEADER) == from <==> |files[from]| > ROOM
  {
  }

  /** The frames from an entry on; where the next entry does not fit an empty frame, only the frames before it. */
  function PagesFrom(dirID: uint32, files: seq<seq<byte>>, from: nat): (frames: seq<seq<byte>>)
    requires from < |files| || (files == [] && from == 0)
    ensures frames == [] ==> from < |files| && |files[from]| > ROOM
    decreases |files| - from
  {
    var end := PageEnd(files, from, HEADER);
    if end >= |files| then [Frame(dirID, files, from, end)]
    else if end == from then []
    else [Frame(dirID, files, from, end)] + PagesFrom(dirID, files, end)
  }

  predicate FitBefore(files: seq<seq<byte>>, i: nat) { forall k :: 0 <= k < i && k < |files| ==> |files[k]| <= ROOM }

  lemma PagesStep(dirID: uint32, files: seq<seq<byte>>, from: nat, frame: seq<byte>, more: bool, next: nat)
    requires (from < |files| || (files == [] && from == 0)) && FitBefore(files, from)
    requires IsAck(dirID, files, from, frame, more, next)
    ensures more && next == from ==>
              && from < |files| && |files[from]| > ROOM && frame == Frame(dirID, files, from, from)
                  && PagesFrom(dirID, files, from) == []
    ensures more && next != from ==>
              && from < next < |files| && FitBefore(files, next)
              && PagesFrom(dirID, files, from) == [frame] + PagesFrom(dirID, files, next)
    ensures !more ==> FitBefore(files, |files|) && PagesFrom(dirID, files, from) == [frame]
  {
    if from < |files| {
      PageProgress(files, from);
      TakenFit(files, from, HEADER);
    }
    hide Frame;
  }

  /**
   The loop of fileReqDirectory. It ends exactly when every entry fits an empty frame; otherwise it sends the frames up
   to the first entry that does not, and from there on the same empty frame again and again, where the model leaves it.
   */
  method FileReqDirectory(dirID: uint32, files: seq<seq<byte>>) returns (frames: seq<seq<byte>>, ends: bool)
    ensures ends <==> AllFit(files)
    ensures frames == PagesFrom(dirID, files, 0)
  {
    frames := [];
    var current := 0;
    assert frames + PagesFrom(dirID, files, 0) == PagesFrom(dirID, files, 0);
    hide PagesFrom, IsAck, Frame, PageEnd;
    while true
      invariant (current < |files| || (files == [] && current == 0)) && FitBefore(files, current)
      invariant frames + PagesFrom(dirID, files, current) == PagesFrom(dirID, files, 0)
      decreases |files| - current
    {
      var frame, more, next := CreateDirectoryAck(dirID, files, current);
      PagesStep(dirID, files, current, frame, more, next);
      if !more {
        return frames + [frame], true;
      }
      if next == current {
        return frames, false;
      }
      assert frames + ([frame] + PagesFrom(dirID, files, next)) == frames + [frame] + PagesFrom(dirID, files, next);
      frames, current := frames + [frame], next;
    }
  }

  /** The loop is done after at most n frames from entry from on. */
  predicate DoneWithin(files: seq<seq<byte>>, from: nat, n: nat)
    requires from <= |files|
    decreases n
  {
    n > 0 && var end := PageEnd(files, from, HEADER); end == |files| || DoneWithin(files, end, n - 1)
  }

  lemma {:induction false} TakenFit(files: seq<seq<byte>>, i: nat, size: nat)
    requires i <= |files| && size >= HEADER
    ensures forall k :: i <= k < PageEnd(files, i, size) ==> |files[k]| <= ROOM
    decreases |files| - i
  {
    if i < |files| && size + |files[i]| <= MAX_ASDU_LENGTH {
      TakenFit(files, i + 1, size + |files[i]|);
    }
  }

  lemma {:induction false} DoneMeansFit(files: seq<seq<byte>>, from: nat, n: nat)
    requires from <= |files| && DoneWithin(files, from, n)
    ensures forall k :: from <= k < |files| ==> |files[k]| <= ROOM
    decreases n
  {
    var end := PageEnd(files, from, HEADER);
    TakenFit(files, from, HEADER);
    if end < |files| {
      DoneMeansFit(files, end, n - 1);
    }
  }

  lemma {:induction false} FitMeansDone(files: seq<seq<byte>>, from: nat)
    requires from <= |files| && AllFit(files)
    ensures DoneWithin(files, from, |files| - from + 1)
    decreases |files| - from
  {
    var end := PageEnd(files, from, HEADER);
    if end < |files| {
      PageProgress(files, from);
      FitMeansDone(files, end);
      DoneWithinMore(files, end, |files| - end + 1, |files| - from);
    }
  }

  lemma {:induction false} DoneWithinMore(files: seq<seq<byte>>, from: nat, n: nat, m: nat)
    requires from <= |files| && n <= m && DoneWithin(files, from, n)
    ensures DoneWithin(files, from, m)
    decreases n
  {
    var end := PageEnd(files, from, HEADER);
    if end < |files| {
      DoneWithinMore(files, end, n - 1, m - 1);
    }
  }

  /** The reply is finished after some number of frames. */
  ghost predicate Ends(files: seq<seq<byte>>) { exists n: nat :: DoneWithin(files, 0, n) }

  /** The reply is finished exactly if every entry fits an empty frame. */
  lemma EndsExactlyIfAllFit(files: seq<seq<byte>>)
    ensures Ends(files) <==> AllFit(files)
  {
    if Ends(files) {
      var n: nat :| DoneWithin(files, 0, n);
      DoneMeansFit(files, 0, n);
    }
    if AllFit(files) {
      hide DoneWithin;
      FitMeansDone(files, 0);
    }
  }

  // ---------------------------------------------------------------- entries

  type stamp = s: seq<byte> | |s| == 7 witness [0, 0, 0, 0, 0, 0, 0]

  /** What is known of a file; the time is already in its seven-byte form. */
  datatype FileInfo = FileInfo(name: seq<byte>, attr: byte, size: uint32, time: stamp)

  const FIXED_PART: nat := 13

  /** MakeFileinfoToBuffer; the length of the name is kept in one byte. */
  method MakeFileinfoToBuffer(sf: FileInfo) returns (result: seq<byte>)
    ensures result == EntryOf(sf)
  {
    result := [];
    var fileNameSize: byte := |sf.name| % 0x100;
    result := result + [fileNameSize];
    result := result + sf.name[..fileNameSize];
    result := result + [sf.attr];
    result := result + Le32(sf.size);
    result := result + sf.time;
  }

  function EntryOf(sf: FileInfo): (s: seq<byte>)
    ensures |s| == FIXED_PART + |sf.name| % 0x100
  {
    [|sf.name| % 0x100] + sf.name[..|sf.name| % 0x100] + [sf.attr] + Le32(sf.size) + sf.time
  }

  function EntriesOf(infos: seq<FileInfo>): (s: seq<seq<byte>>)
    ensures |s| == |infos| && forall k :: 0 <= k < |s| ==> s[k] == EntryOf(infos[k])
  {
    seq(|infos|, k requires 0 <= k < |infos| => EntryOf(infos[k]))
  }

  /** What an entry shows of the file: names of 256 bytes and more lose all but the length's remainder. */
  function Shown(sf: FileInfo): FileInfo { sf.(name := sf.name[..|sf.name| % 0x100]) }

  function AllShown(infos: seq<FileInfo>): (s: seq<FileInfo>)
    ensures |s| == |infos| && forall k :: 0 <= k < |s| ==> s[k] == Shown(infos[k])
  {
    seq(|infos|, k requires 0 <= k < |infos| => Shown(infos[k]))
  }

  // ---------------------------------------------------------------- reading the reply

  /** n entries and nothing else. */
  function ReadEntries(n: nat, s: seq<byte>): Option<seq<FileInfo>> {
    if n == 0 then if s == [] then Some([]) else None
    else if |s| < FIXED_PART || |s| < FIXED_PART + s[0] then None
    else
      var len := s[0] as nat;
      var info := FileInfo(s[1..1 + len], s[1 + len], Of32(s[2 + len..6 + len]), s[6 + len..13 + len]);
      var rest := ReadEntries(n - 1, s[FIXED_PART + len..]);
      if rest.Some? then Some([info] + rest.value) else None
  }

  /** A whole reply: "more follows" on every frame but the last, and in each frame as many entries as it counts. */
  function ReadPages(frames: seq<seq<byte>>): Option<seq<FileInfo>>
    decreases |frames|
  {
    if frames == [] || |frames[0]| < HEADER || |frames[0]| > MAX_ASDU_LENGTH then None
    else if frames[0][MORE_AT] != (if |frames| > 1 then 1 else 0) then None
    else
      var here := ReadEntries(frames[0][COUNT_AT], frames[0][HEADER..]);
      if here.None? || |frames| == 1 then here
      else
        var rest := ReadPages(frames[1..]);
        if rest.Some? then Some(here.value + rest.value) else None
  }

  lemma ReadEntry(sf: FileInfo, n: nat, rest: seq<byte>)
    ensures var r := ReadEntries(n, rest);
            ReadEntries(n + 1, EntryOf(sf) + rest) == if r.Some? then Some([Shown(sf)] + r.value) else None
  {
    var len := |sf.name| % 0x100;
    var s := EntryOf(sf) + rest;
    assert s[0] == len && s[1..1 + len] == sf.name[..len] && s[1 + len] == sf.attr;
    assert s[2 + len..6 + len] == Le32(sf.size) && s[6 + len..13 + len] == sf.time && s[13 + len..] == rest;
    Le32RoundTrip(sf.size);
  }

  lemma {:induction false} ReadAllEntries(infos: seq<FileInfo>)
    ensures ReadEntries(|infos|, Concat(EntriesOf(infos))) == Some(AllShown(infos))
    ensures |Concat(EntriesOf(infos))| >= FIXED_PART * |infos|
    decreases |infos|
  {
    if infos != [] {
      EntriesOfStep(infos);
      ReadAllEntries(infos[1..]);
      var later := Concat(EntriesOf(infos[1..]));
      ReadEntry(infos[0], |infos| - 1, later);
      hide *;
    }
  }

  lemma EntriesOfStep(infos: seq<FileInfo>)
    requires infos != []
    ensures Concat(EntriesOf(infos)) == EntryOf(infos[0]) + Concat(EntriesOf(infos[1..]))
    ensures AllShown(infos) == [Shown(infos[0])] + AllShown(infos[1..])
  {
    hide EntryOf, Shown;
    assert EntriesOf(infos)[1..] == EntriesOf(infos[1..]);
  }

  lemma {:induction false} PageSize(files: seq<seq<byte>>, from: nat, i: nat)
    requires from <= i <= |files| && HEADER + |Concat(files[from..i])| <= MAX_ASDU_LENGTH
    ensures HEADER + |Concat(files[from..PageEnd(files, i, HEADER + |Concat(files[from..i])|)])| <= MAX_ASDU_LENGTH
    decreases |files| - i
  {
    var size := HEADER + |Concat(files[from..i])|;
    if i < |files| && size + |files[i]| <= MAX_ASDU_LENGTH {
      ConcatMore(files, from, i);
      PageSize(files, from, i + 1);
    }
  }

  /** One frame: at most 235 bytes, and it reads as the entries it was cut for. */
  lemma ReadFrame(dirID: uint32, infos: seq<FileInfo>, from: nat)
    requires from <= |infos|
    ensures var files := EntriesOf(infos);
            var end := PageEnd(files, from, HEADER);
            var f := Frame(dirID, files, from, end);
            && HEADER <= |f| <= MAX_ASDU_LENGTH && f[MORE_AT] == (if end < |infos| then 1 else 0)
                && f[COUNT_AT] == end - from
            && ReadEntries(f[COUNT_AT], f[HEADER..]) == Some(AllShown(infos[from..end]))
  {
    var files := EntriesOf(infos);
    EmptyPage(files, from);
    PageSize(files, from, from);
    var end := PageEnd(files, from, HEADER);
    hide *;
    ReadSlice(infos, from, end);
    FrameReads(dirID, files, from, end, AllShown(infos[from..end]));
  }

  lemma FrameReads(dirID: uint32, files: seq<seq<byte>>, from: nat, end: nat, shown: seq<FileInfo>)
    requires from <= end <= |files| && FIXED_PART * (end - from) <= |Concat(files[from..end])| <= ROOM
    requires ReadEntries(end - from, Concat(files[from..end])) == Some(shown)
    ensures var f := Frame(dirID, files, from, end);
            && HEADER <= |f| <= MAX_ASDU_LENGTH && f[MORE_AT] == (if end < |files| then 1 else 0)
                && f[COUNT_AT] == end - from
            && ReadEntries(f[COUNT_AT], f[HEADER..]) == Some(shown)
  {
    hide Frame, Concat, ReadEntries;
    FrameFields(dirID, files, from, end);
  }

  /** Every frame of a reply names the directory and the operation, and reports success. */
  lemma {:induction false} FramesNameDirectory(dirID: uint32, files: seq<seq<byte>>, from: nat)
    requires from < |files| || (files == [] && from == 0)
    ensures forall k :: 0 <= k < |PagesFrom(dirID, files, from)| ==>
              var f := PagesFrom(dirID, files, from)[k];
              |f| >= 12 && f[..6] == [0, 0, 0, 2, 2, 0] && Of32(f[6..10]) == dirID
    decreases |files| - from
  {
    var end := PageEnd(files, from, HEADER);
    FrameNames(dirID, files, from, end);
    hide Frame, PageEnd;
    if end < |files| && end != from {
      FramesNameDirectory(dirID, files, end);
    }
  }

  lemma FrameNames(dirID: uint32, files: seq<seq<byte>>, from: nat, to: nat)
    requires from <= to <= |files|
    ensures var f := Frame(dirID, files, from, to);
            |f| >= 12 && f[..6] == [0, 0, 0, 2, 2, 0] && Of32(f[6..10]) == dirID
  {
    var f := Frame(dirID, files, from, to);
    Le32RoundTrip(dirID);
    hide Le32, Of32, Concat;
    assert f[6..10] == Le32(dirID);
  }

  lemma FrameFields(dirID: uint32, files: seq<seq<byte>>, from: nat, to: nat)
    requires from <= to <= |files|
    ensures var f := Frame(dirID, files, from, to);
            && |f| == HEADER + |Concat(files[from..to])| && f[HEADER..] == Concat(files[from..to])
            && f[MORE_AT] == (if to < |files| then 1 else 0) && f[COUNT_AT] == (to - from) % 0x100
  {
    hide FrameHeader, Concat;
  }

  lemma ReadSlice(infos: seq<FileInfo>, from: nat, end: nat)
    requires from <= end <= |infos|
    ensures var s := Concat(EntriesOf(infos)[from..end]);
            |s| >= FIXED_PART * (end - from) && ReadEntries(end - from, s) == Some(AllShown(infos[from..end]))
  {
    hide ReadEntries, Concat, EntryOf, AllShown;
    ReadAllEntries(infos[from..end]);
    assert EntriesOf(infos)[from..end] == EntriesOf(infos[from..end]);
  }

  lemma {:induction false} PagesReadBack(dirID: uint32, infos: seq<FileInfo>, from: nat)
    requires AllFit(EntriesOf(infos)) && (from < |infos| || (infos == [] && from == 0))
    ensures ReadPages(PagesFrom(dirID, EntriesOf(infos), from)) == Some(AllShown(infos[from..]))
    decreases |infos| - from
  {
    hide ReadEntries, Frame, Shown, PageEnd, EntryOf;
    var files := EntriesOf(infos);
    var end := PageEnd(files, from, HEADER);
    ReadFrame(dirID, infos, from);
    var pages := PagesFrom(dirID, files, from);
    if end == |infos| {
      assert infos[from..end] == infos[from..];
    } else {
      PageProgress(files, from);
      PagesReadBack(dirID, infos, end);
      assert pages[1..] == PagesFrom(dirID, files, end);
      assert AllShown(infos[from..]) == AllShown(infos[from..end]) + AllShown(infos[end..]);
    }
  }

  /**
   Directory paging: if every entry fits, the frames are read back as the whole directory in order, each frame within
   235 bytes, with the right count and the right "more follows". Names survive exactly if none has 256 bytes or more.
   */
  lemma DirectoryRoundTrip(dirID: uint32, infos: seq<FileInfo>)
    ensures AllFit(EntriesOf(infos)) <==> forall k :: 0 <= k < |infos| ==> |infos[k].name| % 0x100 <= ROOM - FIXED_PART
    ensures AllFit(EntriesOf(infos)) ==>
              && ReadPages(PagesFrom(dirID, EntriesOf(infos), 0)) == Some(AllShown(infos))
              && (AllShown(infos) == infos <==> forall k :: 0 <= k < |infos| ==> |infos[k].name| < 0x100)
  {
    forall k | 0 <= k < |infos| ensures |EntriesOf(infos)[k]| == FIXED_PART + |infos[k].name| % 0x100 {
      assert EntriesOf(infos)[k] == EntryOf(infos[k]);
    }
    assert forall k :: 0 <= k < |infos| ==> (Shown(infos[k]) == infos[k] <==> |infos[k].name| < 0x100);
    if AllFit(EntriesOf(infos)) {
      PagesReadBack(dirID, infos, 0);
      assert infos[0..] == infos;
    }
  }
}
