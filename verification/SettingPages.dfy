/**
 The reply to a read of settings, paged into frames (readParam in libdturuleskit/dtuhalasdu.cpp).
 */
module SettingPages {
  import opened Bytes
  import opened Sequences
  import Settings

  const MAX_ASDU_LENGTH: nat := 235
  const EMPTY_FRAME: nat := 12

  /** A frame: its element count and its payload of group, tag and items. */
  datatype Frame = Frame(elements: nat, payload: seq<byte>)

  /** How far a frame of this counted size gets from item i on. */
  function PageEnd(items: seq<seq<byte>>, i: nat, size: nat): (e: nat)
    requires i <= |items|
    ensures i <= e <= |items|
    decreases |items| - i
  {
    if i < |items| && size + |items[i]| < MAX_ASDU_LENGTH then PageEnd(items, i + 1, size + |items[i]|) else i
  }

  /** The tag with its lowest bit, "more follows", set or cleared. */
  function WithFollow(tag: byte, follow: bool): byte { tag - tag % 2 + if follow then 1 else 0 }

  /** The frame of items from..to; a frame that holds all items but one is marked as if it were the last. */
  function PageFrame(group: uint16, tag: byte, items: seq<seq<byte>>, from: nat, to: nat): Frame
    requires from <= to <= |items|
  {
    var follow := to < |items| && to - from != |items| - 1;
    Frame((to - from) % 0x80, Le16(group) + [WithFollow(tag, follow)] + Concat(items[from..to]))
  }

  /**
   The frames after one that starts at item from and ends before item to; each later one takes its first item unasked.
   */
  function Frames(group: uint16, tag: byte, items: seq<seq<byte>>, from: nat, to: nat): (fs: seq<Frame>)
    requires from <= to <= |items|
    ensures fs != []
    decreases |items| - to
  {
    [PageFrame(group, tag, items, from, to)]
    + if to == |items| then [] else Frames(group, tag, items, to, PageEnd(items, to + 1, EMPTY_FRAME + |items[to]|))
  }

  function Reply(group: uint16, tag: byte, items: seq<seq<byte>>): seq<Frame> {
    if items == [] then [] else Frames(group, tag, items, 0, PageEnd(items, 0, EMPTY_FRAME))
  }

  lemma SetBitIsWithFollow(tag: byte, follow: bool, r: byte)
    requires Settings.Bits(r, 8) == Settings.Bits(tag, 8)[0 := follow]
    ensures r == WithFollow(tag, follow)
  {
    Settings.BitsRoundTrip(r, 8);
    Settings.ChangeBit(tag, 8, 0, follow);
  }

  method SetFollow(tag: byte, follow: bool) returns (r: byte)
    ensures r == WithFollow(tag, follow)
    ensures WithFollow(r, true) == WithFollow(tag, true) && WithFollow(r, false) == WithFollow(tag, false)
  {
    hide Settings.Bits;
    r := Settings.SetBit(tag, 1, follow);
    SetBitIsWithFollow(tag, follow, r);
  }

  /** The ASDU under construction, and what has been handed over so far. */
  predicate Building(group: uint16, tag: byte, items: seq<seq<byte>>, done: seq<Frame>, payload: seq<byte>, from: nat,
        i: nat, size: nat)
  {
    && from <= i <= |items| && size == EMPTY_FRAME + |Concat(items[from..i])|
    && |payload| >= 3 && payload[..2] == Le16(group) && payload[3..] == Concat(items[from..i])
    && done + Frames(group, tag, items, from, PageEnd(items, i, size)) == Reply(group, tag, items)
  }

  predicate IsFinished(f: Frame, payload: seq<byte>, tag: byte, nCount: nat) {
    |payload| >= 3 && f == Frame(nCount % 0x80, payload[2 := tag])
  }

  /** The follow flag and the element count of a finished frame. */
  method Finish(payload: seq<byte>, tag: byte, nCount: nat) returns (f: Frame)
    requires |payload| >= 3
    ensures IsFinished(f, payload, tag, nCount)
  {
    f := Frame(nCount % 0x80, payload[2 := tag]);
  }

  /** The variables of the loop of readParam. */
  datatype Pending = Pending(newAsdu: Option<seq<byte>>, tag: byte, nCount: nat, nCountsize: nat,
      functionResult: seq<Frame>)

  /** Before item i: only the tag's other bits matter, and the frame under construction holds the last nCount items. */
  predicate Ready(group: uint16, tag0: byte, items: seq<seq<byte>>, i: nat, st: Pending) {
    && WithFollow(st.tag, true) == WithFollow(tag0, true) && WithFollow(st.tag, false) == WithFollow(tag0, false)
    && st.nCount <= i
    && (if i == 0 then st.newAsdu.None? && st.nCountsize == EMPTY_FRAME && st.functionResult == []
        else && st.newAsdu.Some?
             && Building(group, tag0, items, st.functionResult, st.newAsdu.value, i - st.nCount, i, st.nCountsize))
  }

  /** The ASDU that item i goes to, begun here when none is under construction. */
  method Open(group: uint16, ghost tag0: byte, items: seq<seq<byte>>, i: nat, st: Pending) returns (newAsdu: seq<byte>)
    requires i < |items| && Ready(group, tag0, items, i, st)
    ensures Building(group, tag0, items, st.functionResult, newAsdu, i - st.nCount, i, st.nCountsize)
  {
    hide Building, WithFollow;
    if st.newAsdu.None? {
      newAsdu := Le16(group) + [st.tag];
      Start(group, tag0, items, st.tag);
    } else {
      newAsdu := st.newAsdu.value;
    }
  }

  /** The ASDU is full: it becomes a frame, and the item opens the next one. */
  method CloseAndOpen(group: uint16, ghost tag0: byte, items: seq<seq<byte>>, i: nat, st: Pending, newAsdu: seq<byte>)
    returns (next: Pending)
    requires i < |items| && Ready(group, tag0, items, i, st)
    requires Building(group, tag0, items, st.functionResult, newAsdu, i - st.nCount, i, st.nCountsize)
    requires st.nCountsize + |items[i]| >= MAX_ASDU_LENGTH
    ensures Ready(group, tag0, items, i + 1, next)
  {
    hide Building, WithFollow, Between, IsFinished;
    ghost var from := i - st.nCount;
    var tag := SetFollow(st.tag, st.nCount != |items| - 1);
    BuildingPayload(group, tag0, items, st.functionResult, newAsdu, from, i, st.nCountsize);
    var frame := Finish(newAsdu, tag, st.nCount);
    CloseFrame(group, tag0, items, st.functionResult, newAsdu, from, i, st.nCountsize, tag, frame);
    tag := SetFollow(tag, false);
    FirstItem(group, tag0, items, st.functionResult + [frame], i, tag);
    next := Pending(Some(Le16(group) + [tag] + items[i]), tag, 1, EMPTY_FRAME + |items[i]|,
        st.functionResult + [frame]);
  }

  /** The body of the loop. */
  method AddItem(group: uint16, ghost tag0: byte, items: seq<seq<byte>>, i: nat, st: Pending) returns (next: Pending)
    requires i < |items| && Ready(group, tag0, items, i, st)
    ensures Ready(group, tag0, items, i + 1, next)
  {
    hide Building, WithFollow;
    var newAsdu := Open(group, tag0, items, i, st);
    if st.nCountsize + |items[i]| >= MAX_ASDU_LENGTH {
      next := CloseAndOpen(group, tag0, items, i, st, newAsdu);
    } else {
      TakeItem(group, tag0, items, st.functionResult, newAsdu, i - st.nCount, i, st.nCountsize);
      next := Pending(Some(newAsdu + items[i]), st.tag, st.nCount + 1, st.nCountsize + |items[i]|, st.functionResult);
    }
  }

  /** readParam: the frames of the items read. */
  method ReadParam(group: uint16, tag: byte, items: seq<seq<byte>>) returns (functionResult: seq<Frame>)
    ensures functionResult == Reply(group, tag, items)
  {
    var st := Pending(None, tag, 0, EMPTY_FRAME, []);
    for i := 0 to |items|
      invariant Ready(group, tag, items, i, st)
    {
      hide *;
      st := AddItem(group, tag, items, i, st);
    }
    functionResult := st.functionResult;
    if st.newAsdu.Some? {
      var frame := FinishLast(group, tag, items, st);
      functionResult := functionResult + [frame];
    }
  }

  /** The frame left when all items are done. */
  method FinishLast(group: uint16, ghost tag: byte, items: seq<seq<byte>>, st: Pending) returns (frame: Frame)
    requires items != [] && Ready(group, tag, items, |items|, st)
    ensures st.functionResult + [frame] == Reply(group, tag, items)
  {
    hide Building, WithFollow, Reply, Frames, PageEnd;
    var last := SetFollow(st.tag, false);
    BuildingPayload(group, tag, items, st.functionResult, st.newAsdu.value, |items| - st.nCount, |items|,
        st.nCountsize);
    frame := Finish(st.newAsdu.value, last, st.nCount);
    LastFrame(group, tag, items, st.functionResult, st.newAsdu.value, |items| - st.nCount, st.nCountsize, last, frame);
  }

  lemma BuildingPayload(group: uint16, tag: byte, items: seq<seq<byte>>, done: seq<Frame>, payload: seq<byte>,
        from: nat, i: nat, size: nat)
    requires Building(group, tag, items, done, payload, from, i, size)
    ensures |payload| >= 3
  {
  }

  lemma Start(group: uint16, tag0: byte, items: seq<seq<byte>>, tag: byte)
    requires items != []
    ensures Building(group, tag0, items, [], Le16(group) + [tag], 0, 0, EMPTY_FRAME)
  {
    hide Frames, PageEnd;
    assert items[0..0] == [];
    assert [] + Reply(group, tag0, items) == Reply(group, tag0, items);
  }

  lemma TakeItem(group: uint16, tag: byte, items: seq<seq<byte>>, done: seq<Frame>, payload: seq<byte>, from: nat,
        i: nat, size: nat)
    requires Building(group, tag, items, done, payload, from, i, size) && i < |items|
             && size + |items[i]| < MAX_ASDU_LENGTH
    ensures Building(group, tag, items, done, payload + items[i], from, i + 1, size + |items[i]|)
  {
    hide Frames, Reply, Concat;
    assert items[from..i + 1] == items[from..i] + [items[i]];
    ConcatAppend(items[from..i], items[i]);
  }

  lemma FrameIs(group: uint16, tag: byte, items: seq<seq<byte>>, payload: seq<byte>, from: nat, i: nat, now: byte,
        f: Frame)
    requires from <= i <= |items| && |payload| >= 3 && payload[..2] == Le16(group)
             && payload[3..] == Concat(items[from..i])
    requires now == WithFollow(tag, i < |items| && i - from != |items| - 1) && IsFinished(f, payload, now, i - from)
    ensures f == PageFrame(group, tag, items, from, i)
  {
    hide Concat, WithFollow;
    assert payload[2 := now] == payload[..2] + [now] + payload[3..];
  }

  /** A frame has been handed over, and the next one is about to take its first item. */
  predicate Between(group: uint16, tag: byte, items: seq<seq<byte>>, done: seq<Frame>, i: nat) {
    i < |items| && done + Frames(group, tag, items, i, PageEnd(items, i + 1, EMPTY_FRAME + |items[i]|))
        == Reply(group, tag, items)
  }

  lemma FramesStep(group: uint16, tag: byte, items: seq<seq<byte>>, from: nat, i: nat)
    requires from <= i <= |items|
    ensures var later := if i == |items| then []
            else Frames(group, tag, items, i, PageEnd(items, i + 1, EMPTY_FRAME + |items[i]|));
            Frames(group, tag, items, from, i) == [PageFrame(group, tag, items, from, i)] + later
  {
    hide PageFrame;
  }

  lemma CloseFrame(group: uint16, tag: byte, items: seq<seq<byte>>, done: seq<Frame>, payload: seq<byte>, from: nat,
        i: nat, size: nat, now: byte, f: Frame)
    requires Building(group, tag, items, done, payload, from, i, size) && i < |items|
             && size + |items[i]| >= MAX_ASDU_LENGTH
    requires now == WithFollow(tag, i - from != |items| - 1) && IsFinished(f, payload, now, i - from)
    ensures Between(group, tag, items, done + [f], i)
  {
    assert PageEnd(items, i, size) == i;
    hide Frames, PageEnd, PageFrame, WithFollow, Reply, IsFinished, Concat;
    FrameIs(group, tag, items, payload, from, i, now, f);
    FramesStep(group, tag, items, from, i);
    var later := Frames(group, tag, items, i, PageEnd(items, i + 1, EMPTY_FRAME + |items[i]|));
    assert done + ([f] + later) == done + [f] + later;
  }

  lemma FirstItem(group: uint16, tag: byte, items: seq<seq<byte>>, done: seq<Frame>, i: nat, now: byte)
    requires Between(group, tag, items, done, i)
    ensures Building(group, tag, items, done, Le16(group) + [now] + items[i], i, i + 1, EMPTY_FRAME + |items[i]|)
  {
    hide Frames, PageEnd, Reply;
    var single := [items[i]];
    assert items[i..i + 1] == single && single[1..] == [];
    assert Concat(single) == items[i] + [] == items[i];
  }

  lemma LastFrame(group: uint16, tag: byte, items: seq<seq<byte>>, done: seq<Frame>, payload: seq<byte>, from: nat,
        size: nat, now: byte, f: Frame)
    requires Building(group, tag, items, done, payload, from, |items|, size) && now == WithFollow(tag, false)
    requires IsFinished(f, payload, now, |items| - from)
    ensures done + [f] == Reply(group, tag, items)
  {
    assert PageEnd(items, |items|, size) == |items|;
    hide Frames, PageEnd, PageFrame, WithFollow, Reply, IsFinished, Concat;
    FrameIs(group, tag, items, payload, from, |items|, now, f);
    FramesStep(group, tag, items, from, |items|);
  }

  // ---------------------------------------------------------------- nothing is lost, repeated or reordered

  function RawOf(items: seq<Settings.Item>): (s: seq<seq<byte>>)
    requires Settings.AllFit(items)
    ensures |s| == |items| && forall k :: 0 <= k < |s| ==> s[k] == Settings.ItemBytes(items[k])
  {
    seq(|items|, k requires 0 <= k < |items| => Settings.ItemBytes(items[k]))
  }

  /** The items of a reply: in each frame as many as it counts, read by the parser of setting messages. */
  function ReadReply(fs: seq<Frame>): Option<seq<Settings.Item>>
    decreases |fs|
  {
    if fs == [] then Some([])
    else if |fs[0].payload| < 3 then None
    else
      var (here, later) := (Settings.ParseItems(fs[0].payload[3..]), ReadReply(fs[1..]));
      if here.Items? && |here.items| == fs[0].elements && later.Some? then Some(here.items + later.value) else None
  }

  lemma {:induction false} ConcatIsMakeAll(items: seq<Settings.Item>)
    requires Settings.AllFit(items)
    ensures Concat(RawOf(items)) == Settings.MakeAll(items)
            && |Settings.MakeAll(items)| >= Settings.HEAD_LENGTH * |items|
    decreases |items|
  {
    if items != [] {
      hide Settings.ItemBytes;
      assert RawOf(items)[1..] == RawOf(items[1..]);
      ConcatIsMakeAll(items[1..]);
    }
  }

  lemma ReadSlice(items: seq<Settings.Item>, from: nat, to: nat)
    requires Settings.AllFit(items) && from <= to <= |items|
    ensures var s := Concat(RawOf(items)[from..to]);
            |s| >= Settings.HEAD_LENGTH * (to - from) && Settings.ParseItems(s) == Settings.Items(items[from..to])
  {
    var slice := items[from..to];
    hide Settings.ItemBytes, Settings.ParseItems, Settings.MakeAll;
    assert RawOf(items)[from..to] == RawOf(slice);
    ConcatIsMakeAll(slice);
    Settings.ParseAfterItems(slice, []);
    assert Settings.MakeAll(slice) + [] == Settings.MakeAll(slice);
    assert slice + [] == slice;
    EmptyParse();
  }

  lemma EmptyParse()
    ensures Settings.ParseItems([]) == Settings.Items([])
  {
  }

  /** A frame holds at most 222 bytes of items, unless it holds nothing but one item it took unasked. */
  lemma {:induction false} PageSize(items: seq<seq<byte>>, from: nat, i: nat)
    requires from <= i <= |items|
    ensures var end := PageEnd(items, i, EMPTY_FRAME + |Concat(items[from..i])|);
            end == i || EMPTY_FRAME + |Concat(items[from..end])| < MAX_ASDU_LENGTH
    decreases |items| - i
  {
    var size := EMPTY_FRAME + |Concat(items[from..i])|;
    if i < |items| && size + |items[i]| < MAX_ASDU_LENGTH {
      assert items[from..i + 1] == items[from..i] + [items[i]];
      ConcatAppend(items[from..i], items[i]);
      PageSize(items, from, i + 1);
    }
  }

  lemma ConcatOne(items: seq<seq<byte>>, i: nat)
    requires i < |items|
    ensures Concat(items[i..i + 1]) == items[i] && Concat(items[i..i]) == []
  {
    var single := [items[i]];
    assert items[i..i + 1] == single && single[1..] == [] && items[i..i] == [];
    assert Concat(single) == items[i] + [];
  }

  /** The bounds of a frame that starts at item from. */
  predicate IsPage(items: seq<seq<byte>>, from: nat, to: nat) {
    from <= to <= |items| && (to <= from + 1 || EMPTY_FRAME + |Concat(items[from..to])| < MAX_ASDU_LENGTH)
  }

  lemma NextIsPage(items: seq<seq<byte>>, to: nat)
    requires to < |items|
    ensures IsPage(items, to, PageEnd(items, to + 1, EMPTY_FRAME + |items[to]|))
    ensures IsPage(items, 0, PageEnd(items, 0, EMPTY_FRAME))
  {
    hide PageEnd, Concat;
    ConcatOne(items, to);
    ConcatOne(items, 0);
    PageSize(items, to, to + 1);
    PageSize(items, 0, 0);
  }

  lemma PageElements(items: seq<Settings.Item>, from: nat, to: nat)
    requires Settings.AllFit(items) && IsPage(RawOf(items), from, to)
    ensures to - from < 0x80
  {
    hide Settings.ItemBytes, Settings.ParseItems, Concat, RawOf;
    ReadSlice(items, from, to);
  }

  lemma {:induction false} FramesReadBack(group: uint16, tag: byte, items: seq<Settings.Item>, from: nat, to: nat)
    requires Settings.AllFit(items) && IsPage(RawOf(items), from, to)
    ensures ReadReply(Frames(group, tag, RawOf(items), from, to)) == Some(items[from..])
    decreases |items| - to
  {
    hide *;
    var raw := RawOf(items);
    PageBounds(raw, from, to);
    FramesStep(group, tag, raw, from, to);
    ReadPage(group, tag, items, from, to);
    var f := PageFrame(group, tag, raw, from, to);
    if to < |items| {
      NextIsPage(raw, to);
      var end := PageEnd(raw, to + 1, EMPTY_FRAME + |raw[to]|);
      FramesReadBack(group, tag, items, to, end);
      ReadFirst(f, Frames(group, tag, raw, to, end), items[from..to]);
      assert items[from..to] + items[to..] == items[from..];
    } else {
      ReadFirst(f, [], items[from..to]);
      assert items[from..to] + [] == items[from..];
    }
  }

  lemma ReadPage(group: uint16, tag: byte, items: seq<Settings.Item>, from: nat, to: nat)
    requires Settings.AllFit(items) && IsPage(RawOf(items), from, to)
    ensures var f := PageFrame(group, tag, RawOf(items), from, to);
            && |f.payload| >= 3 && f.elements == to - from
            && Settings.ParseItems(f.payload[3..]) == Settings.Items(items[from..to])
  {
    hide Settings.ItemBytes, Settings.ParseItems, Concat, RawOf, WithFollow, Settings.AllFit;
    PageElements(items, from, to);
    ReadSlice(items, from, to);
    var f := PageFrame(group, tag, RawOf(items), from, to);
    assert f.payload[3..] == Concat(RawOf(items)[from..to]);
  }

  lemma ReadFirst(f: Frame, later: seq<Frame>, here: seq<Settings.Item>)
    requires |f.payload| >= 3 && f.elements == |here| && Settings.ParseItems(f.payload[3..]) == Settings.Items(here)
    ensures ReadReply([f]) == Some(here + []) && [f] + [] == [f]
    ensures ReadReply(later).Some? ==> ReadReply([f] + later) == Some(here + ReadReply(later).value)
  {
    hide Settings.ParseItems;
    assert ([f] + later)[1..] == later;
  }

  lemma PageBounds(items: seq<seq<byte>>, from: nat, to: nat)
    requires IsPage(items, from, to)
    ensures from <= to <= |items|
  {
  }

  /** The settings come back as they were read, in order, and every frame counts its own. */
  lemma ReplyReadBack(group: uint16, tag: byte, items: seq<Settings.Item>)
    requires Settings.AllFit(items)
    ensures ReadReply(Reply(group, tag, RawOf(items))) == Some(items)
  {
    if items != [] {
      NextIsPage(RawOf(items), 0);
      hide Settings.ParseItems, Settings.ItemBytes, PageEnd, Frames, IsPage, RawOf, Settings.AllFit;
      FramesReadBack(group, tag, items, 0, PageEnd(RawOf(items), 0, EMPTY_FRAME));
      assert items[0..] == items;
    }
  }

  // ---------------------------------------------------------------- how long the frames are

  lemma {:induction false} FramesAreShort(group: uint16, tag: byte, items: seq<seq<byte>>, from: nat, to: nat)
    requires IsPage(items, from, to)
    ensures (forall f :: f in Frames(group, tag, items, from, to) ==> |f.payload| <= 225) <==>
              |Concat(items[from..to])| <= 222 && forall k :: to <= k < |items| ==> |items[k]| <= 222
    decreases |items| - to
  {
    hide PageEnd, Concat, IsPage, WithFollow;
    PageBounds(items, from, to);
    FramesStep(group, tag, items, from, to);
    var fs := Frames(group, tag, items, from, to);
    assert |fs[0].payload| == 3 + |Concat(items[from..to])|;
    if to < |items| {
      NextIsPage(items, to);
      var end := PageEnd(items, to + 1, EMPTY_FRAME + |items[to]|);
      var later := Frames(group, tag, items, to, end);
      FramesAreShort(group, tag, items, to, end);
      PageHolds(items, to, end);
      assert forall f :: f in fs <==> f == fs[0] || f in later;
      assert (forall f :: f in fs ==> |f.payload| <= 225) <==>
               |fs[0].payload| <= 225 && forall f :: f in later ==> |f.payload| <= 225;
    } else {
      assert fs == [fs[0]];
    }
  }

  /** A frame is as long as its items: short if they are, and never shorter than one of them. */
  lemma PageHolds(items: seq<seq<byte>>, from: nat, to: nat)
    requires IsPage(items, from, to) && from < to
    ensures |Concat(items[from..to])| <= 222 <==> forall k :: from <= k < to ==> |items[k]| <= 222
  {
    ConcatOne(items, from);
    if |Concat(items[from..to])| <= 222 {
      forall k | from <= k < to ensures |items[k]| <= 222 {
        assert items[from..to][k - from] == items[k];
        ConcatHolds(items[from..to], k - from);
      }
    } else {
      assert to == from + 1;
      assert |items[from]| > 222;
    }
  }

  lemma {:induction false} ConcatHolds(entries: seq<seq<byte>>, k: nat)
    requires k < |entries|
    ensures |entries[k]| <= |Concat(entries)|
    decreases |entries|
  {
    if k > 0 {
      ConcatHolds(entries[1..], k - 1);
    }
  }

  /** Payloads stay within 225 bytes exactly if no item has more than 222. */
  lemma PayloadsAreShort(group: uint16, tag: byte, items: seq<seq<byte>>)
    ensures (forall f :: f in Reply(group, tag, items) ==> |f.payload| <= 225) <==>
              forall k :: 0 <= k < |items| ==> |items[k]| <= 222
  {
    if items != [] {
      NextIsPage(items, 0);
      var end := PageEnd(items, 0, EMPTY_FRAME);
      ConcatOne(items, 0);
      FramesAreShort(group, tag, items, 0, end);
      if end > 0 {
        PageHolds(items, 0, end);
      }
    }
  }

  // ---------------------------------------------------------------- the "more follows" bit

  predicate FollowBit(f: Frame) { |f.payload| >= 3 && f.payload[2] % 2 == 1 }

  /** Set on every frame but the last. */
  predicate FollowRight(fs: seq<Frame>) { forall k :: 0 <= k < |fs| ==> (FollowBit(fs[k]) <==> k < |fs| - 1) }

  lemma FollowRightStep(f: Frame, later: seq<Frame>)
    ensures FollowRight([f] + later) <==> (FollowBit(f) <==> later != []) && FollowRight(later)
  {
    var fs := [f] + later;
    assert fs[0] == f;
    if FollowRight(fs) {
      forall k | 0 <= k < |later| ensures FollowBit(later[k]) <==> k < |later| - 1 {
        assert later[k] == fs[k + 1];
      }
    }
    assert forall k :: 1 <= k < |fs| ==> fs[k] == later[k - 1];
  }

  lemma PageFollowBit(group: uint16, tag: byte, items: seq<seq<byte>>, from: nat, to: nat)
    requires from <= to <= |items|
    ensures FollowBit(PageFrame(group, tag, items, from, to)) <==> to < |items| && to - from != |items| - 1
  {
    hide Concat;
  }

  lemma {:induction false} FollowFrom(group: uint16, tag: byte, items: seq<seq<byte>>, from: nat, to: nat)
    requires from <= to <= |items| && from > 0 && (from < to || to < |items|)
    ensures FollowRight(Frames(group, tag, items, from, to))
    decreases |items| - to
  {
    hide *;
    FramesStep(group, tag, items, from, to);
    PageFollowBit(group, tag, items, from, to);
    var f := PageFrame(group, tag, items, from, to);
    if to == |items| {
      NothingFollows();
      FollowRightStep(f, []);
    } else {
      var end := PageEnd(items, to + 1, EMPTY_FRAME + |items[to]|);
      FollowFrom(group, tag, items, to, end);
      FollowRightStep(f, Frames(group, tag, items, to, end));
    }
  }

  lemma NothingFollows()
    ensures FollowRight([])
  {
  }

  /** The second frame after an empty first one. */
  lemma FollowSecond(group: uint16, tag: byte, items: seq<seq<byte>>)
    requires |items| >= 2
    ensures FollowRight(Frames(group, tag, items, 0, 1)) <==> |items| != 2
  {
    hide *;
    FramesStep(group, tag, items, 0, 1);
    PageFollowBit(group, tag, items, 0, 1);
    var third := PageEnd(items, 2, EMPTY_FRAME + |items[1]|);
    FollowFrom(group, tag, items, 1, third);
    FollowRightStep(PageFrame(group, tag, items, 0, 1), Frames(group, tag, items, 1, third));
  }

  /** The bit is wrong exactly where one frame takes all items but the last: the first, or the second of two items. */
  lemma FollowBits(group: uint16, tag: byte, items: seq<seq<byte>>)
    requires items != []
    ensures var first := PageEnd(items, 0, EMPTY_FRAME);
            FollowRight(Reply(group, tag, items)) <==> first != |items| - 1 && !(first == 0 && |items| == 2)
  {
    var first := PageEnd(items, 0, EMPTY_FRAME);
    assert Reply(group, tag, items) == Frames(group, tag, items, 0, first);
    var second := if first < |items| then PageEnd(items, first + 1, EMPTY_FRAME + |items[first]|) else 0;
    if first == 0 && |items| >= 2 {
      assert second == 1;
    }
    hide *;
    FramesStep(group, tag, items, 0, first);
    PageFollowBit(group, tag, items, 0, first);
    NothingFollows();
    if first == |items| {
      FollowRightStep(PageFrame(group, tag, items, 0, first), []);
    } else {
      FollowRightStep(PageFrame(group, tag, items, 0, first), Frames(group, tag, items, first, second));
      if first > 0 {
        FollowFrom(group, tag, items, first, second);
      } else if |items| >= 2 {
        FollowSecond(group, tag, items);
      }
    }
  }

  lemma {:induction false} LastFollowBitOf(group: uint16, tag: byte, items: seq<seq<byte>>, from: nat, to: nat)
    requires from <= to <= |items|
    ensures var fs := Frames(group, tag, items, from, to); !FollowBit(fs[|fs| - 1])
    decreases |items| - to
  {
    hide PageFrame, FollowBit, PageEnd;
    FramesStep(group, tag, items, from, to);
    if to == |items| {
      PageFollowBit(group, tag, items, from, to);
    } else {
      LastFollowBitOf(group, tag, items, to, PageEnd(items, to + 1, EMPTY_FRAME + |items[to]|));
    }
  }

  /** However the others are marked, the last frame of a reply says that nothing follows. */
  lemma LastFollowBitClear(group: uint16, tag: byte, items: seq<seq<byte>>)
    requires items != []
    ensures var fs := Reply(group, tag, items); fs != [] && !FollowBit(fs[|fs| - 1])
  {
    hide Frames, FollowBit;
    LastFollowBitOf(group, tag, items, 0, PageEnd(items, 0, EMPTY_FRAME));
  }

  /** Where the first frame ends, by the sizes alone. */
  lemma {:induction false} PageEndBySize(items: seq<seq<byte>>, i: nat, k: nat)
    requires i <= k < |items|
    ensures PageEnd(items, i, EMPTY_FRAME + |Concat(items[..i])|) > k <==>
            EMPTY_FRAME + |Concat(items[..k + 1])| < MAX_ASDU_LENGTH
    decreases k - i
  {
    assert items[..i + 1] == items[..i] + [items[i]];
    ConcatAppend(items[..i], items[i]);
    if i < k {
      PageEndBySize(items, i + 1, k);
      ConcatGrows(items, i + 1, k + 1);
    }
  }

  lemma {:induction false} ConcatGrows(items: seq<seq<byte>>, i: nat, k: nat)
    requires i <= k <= |items|
    ensures |Concat(items[..i])| <= |Concat(items[..k])|
    decreases k - i
  {
    if i < k {
      assert items[..i + 1] == items[..i] + [items[i]];
      ConcatAppend(items[..i], items[i]);
      ConcatGrows(items, i + 1, k);
    }
  }

  /**
   When no item is too long for a frame of its own, the bit is right on every frame exactly if the items either all fit
   one frame or, without the last, still do not.
   */
  lemma FollowBitsBySize(group: uint16, tag: byte, items: seq<seq<byte>>)
    requires items != [] && forall k :: 0 <= k < |items| ==> |items[k]| <= 222
    ensures FollowRight(Reply(group, tag, items)) <==>
              || EMPTY_FRAME + |Concat(items)| < MAX_ASDU_LENGTH
              || EMPTY_FRAME + |Concat(items[..|items| - 1])| >= MAX_ASDU_LENGTH
  {
    hide FollowRight, Reply, Concat;
    var n := |items|;
    FollowBits(group, tag, items);
    ConcatOne(items, 0);
    assert items[..0] == items[0..0] && items[..n] == items && items[..1] == items[0..1];
    PageEndBySize(items, 0, n - 1);
    PageEndBySize(items, 0, 0);
    if n > 1 {
      PageEndBySize(items, 0, n - 2);
    }
  }
}
