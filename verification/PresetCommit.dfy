/**
 Settings are preset first and committed later: the flags between the two (libdtustorage/dtustorage.cpp,
 operateParam in libdturuleskit/dtuhalasdu.cpp, the disconnect in libdturuleskit/dtu104server.cpp).
 */
module PresetCommit {
  import opened Bytes
  import Settings

  type uint64 = v: int | 0 <= v < 0x1_0000_0000_0000_0000

  const READ_ONLY: int := 0x5019
  const LIMIT: int := 60000

  /** One setting to preset: when it is looked at, whether its address is mapped and whether its value is taken. */
  datatype Item = Item(addr: int, now: uint64, mapped: bool, taken: bool)

  predicate Good(item: Item) { item.addr != READ_ONLY && item.mapped && item.taken }

  /**
   One savePreset call: the setting of the flag it relies on, how many settings there were at the last commit, cancel or
   disconnect before it, the time the setting recorded, and the time of the call.
   */
  datatype Save = Save(source: nat, since: nat, recorded: uint64, now: uint64)

  /**
   The flags of the store, with three histories: the time recorded by each setting of the flag (the first entry is the
   default the program starts with), how many settings there were at the last commit, cancel or disconnect, and the
   savePreset calls.
   */
  datatype State = State(flag: bool, firstFlag: bool, curTime: uint64, times: seq<uint64>, cleared: nat,
      saves: seq<Save>)

  const INIT := State(true, false, 0, [0], 0, [])

  /** A request to commit or cancel is sized if its payload is announced with at least three bytes. */
  datatype Event = Preset(items: seq<Item>) | Operate(tag: byte, sized: bool, now: uint64) | Disconnect

  /** The loop of preset_setting_data. */
  function PresetItems(s: State, items: seq<Item>): State
    decreases |items|
  {
    if items == [] then s
    else if items[0].addr == READ_ONLY then s.(flag := false)
    else
      var marked := s.(flag := true, curTime := items[0].now, times := s.times + [items[0].now]);
      if Good(items[0]) then PresetItems(marked, items[1..]) else marked.(flag := false)
  }

  /** The 64-bit difference of two times. */
  function Elapsed(now: uint64, since: uint64): uint64 { (now - since) % 0x1_0000_0000_0000_0000 }

  predicate IsCancel(tag: byte) { tag / 0x40 % 2 == 1 }

  predicate IsCommit(tag: byte) { tag / 0x40 % 2 == 0 && tag / 0x80 % 2 == 0 }

  /** A cancel has bit 6 of the tag set, a commit neither bit 6 nor bit 7. */
  lemma TagBits(tag: byte)
    ensures IsCancel(tag) <==> Settings.Bits(tag, 8)[6]
    ensures IsCommit(tag) <==> !Settings.Bits(tag, 8)[6] && !Settings.Bits(tag, 8)[7]
  {
    var (b1, b2, b3) := (tag / 2, tag / 4, tag / 8);
    var (b4, b5, b6) := (tag / 0x10, tag / 0x20, tag / 0x40);
    NextBits(tag, 7, b1);
    NextBits(b1, 6, b2);
    NextBits(b2, 5, b3);
    NextBits(b3, 4, b4);
    NextBits(b4, 3, b5);
    NextBits(b5, 2, b6);
    NextBits(b6, 1, tag / 0x80);
    NextBits(tag / 0x80, 0, 0);
  }

  lemma NextBits(b: byte, n: nat, half: byte)
    requires n > 0 ==> half == b / 2
    ensures Settings.Bits(b, n + 1)[0] == (b % 2 == 1)
    ensures n > 0 ==> Settings.Bits(b, n + 1)[1..] == Settings.Bits(half, n)
  {
  }

  /** Every request of this kind, commit, cancel or unknown, clears both flags in the end. */
  function Cleared(s: State): State { s.(flag := false, firstFlag := false, cleared := |s.times|) }

  function Step(s: State, e: Event): State {
    match e
    case Preset(items) => if s.firstFlag then s else PresetItems(s.(firstFlag := true), items)
    case Operate(tag, sized, now) =>
      if sized && IsCommit(tag) && s.flag && Elapsed(now, s.curTime) < LIMIT && s.times != []
      then Cleared(s.(saves := s.saves + [Save(|s.times| - 1, s.cleared, s.curTime, now)]))
      else Cleared(s)
    case Disconnect => Cleared(s)
  }

  function Run(s: State, events: seq<Event>): State
    decreases |events|
  {
    if events == [] then s else Run(Step(s, events[0]), events[1..])
  }

  /** The cause of transmission of an answer. */
  datatype Cause = ActivationCon | DeactivationCon | ActivationTermination

  class Store {
    var preSettingFlag: bool
    var preSettingFirstFlag: bool
    var curTime: uint64
    ghost var times: seq<uint64>
    ghost var cleared: nat
    ghost var saves: seq<Save>

    constructor ()
      ensures AsState() == INIT
    {
      preSettingFlag, preSettingFirstFlag, curTime, times, cleared, saves := true, false, 0, [0], 0, [];
    }

    ghost function AsState(): State
      reads this
    {
      State(preSettingFlag, preSettingFirstFlag, curTime, times, cleared, saves)
    }

    method PresetSettingData(items: seq<Item>) returns (ok: bool)
      modifies this
      ensures AsState() == Step(old(AsState()), Preset(items))
      ensures ok <==> old(preSettingFirstFlag) || forall k :: 0 <= k < |items| ==> Good(items[k])
    {
      if preSettingFirstFlag {
        return true;
      } else {
        preSettingFirstFlag := true;
      }
      ghost var start := AsState();
      for i := 0 to |items|
        invariant PresetItems(AsState(), items[i..]) == PresetItems(start, items)
        invariant forall k :: 0 <= k < i ==> Good(items[k])
      {
        var item := items[i];
        assert items[i..][0] == item && items[i..][1..] == items[i + 1..];
        if item.addr == READ_ONLY {
          preSettingFlag := false;
          return false;
        } else {
          preSettingFlag := true;
          curTime := item.now;
          times := times + [item.now];
        }
        if !item.mapped {
          preSettingFlag := false;
          return false;
        }
        if !item.taken {
          preSettingFlag := false;
          return false;
        }
      }
      ok := true;
    }

    /** operateParam; saved and reverted say whether savePreset and revertPreset were called. */
    method OperateParam(data: seq<byte>, payloadSize: nat, timetemp: uint64, revertWorks: bool, saveWorks: bool)
      returns (answer: Access<Cause>, saved: bool, reverted: bool)
      requires times != []
      modifies this
      ensures |data| < 3 ==> answer == Throws && AsState() == old(AsState()) && !saved && !reverted
      ensures |data| >= 3 ==>
                var (tag, sized) := (data[2], payloadSize >= 3);
                && AsState() == Step(old(AsState()), Operate(tag, sized, timetemp))
                && saved == (sized && IsCommit(tag) && old(preSettingFlag) && Elapsed(timetemp, old(curTime)) < LIMIT)
                && reverted == (sized && (IsCancel(tag) || (IsCommit(tag) && old(preSettingFlag) && !saved)))
                && answer == Access.Done(if sized && IsCancel(tag) && revertWorks then DeactivationCon
                                         else if saved && saveWorks then ActivationCon else ActivationTermination)
    {
      saved, reverted := false, false;
      var (group, field) := (Get(data, 0, 2), Get(data, 2, 1));
      if !group.Done? || !field.Done? {
        return Throws, false, false;
      }
      var tag := field.value[0];
      var cause := ActivationTermination;
      if payloadSize >= 3 {
        if tag / 0x40 % 2 == 1 {
          reverted := true;
          if revertWorks {
            cause := DeactivationCon;
          }
        } else if tag / 0x80 % 2 == 0 {
          if preSettingFlag {
            if (timetemp - curTime) % 0x1_0000_0000_0000_0000 >= 60000 {
              reverted := true;
            } else {
              saved := true;
              saves := saves + [Save(|times| - 1, cleared, curTime, timetemp)];
              if saveWorks {
                cause := ActivationCon;
              }
            }
          }
        }
      }
      preSettingFirstFlag := false;
      preSettingFlag := false;
      cleared := |times|;
      answer := Access.Done(cause);
    }

    method ConnectionClosed()
      modifies this
      ensures AsState() == Step(old(AsState()), Disconnect)
    {
      preSettingFlag := false;
      preSettingFirstFlag := false;
      cleared := |times|;
    }
  }

  // ---------------------------------------------------------------- no preset commits twice

  /** Every savePreset call relies on a setting of its own, within the limit of the time that setting recorded. */
  predicate Orderly(s: State) {
    && s.times != [] && s.curTime == s.times[|s.times| - 1] && s.cleared <= |s.times|
        && (s.flag ==> s.cleared < |s.times|)
    && (forall k :: 0 <= k < |s.saves| ==>
          && s.saves[k].since <= s.saves[k].source < s.cleared && s.saves[k].recorded == s.times[s.saves[k].source]
          && Elapsed(s.saves[k].now, s.saves[k].recorded) < LIMIT)
    && forall i, k :: 0 <= i < k < |s.saves| ==> s.saves[i].source < s.saves[k].since
  }

  lemma {:induction false} PresetOrderly(s: State, items: seq<Item>)
    requires Orderly(s)
    ensures Orderly(PresetItems(s, items))
    decreases |items|
  {
    if items != [] && items[0].addr != READ_ONLY {
      var marked := s.(flag := true, curTime := items[0].now, times := s.times + [items[0].now]);
      assert Orderly(marked);
      if Good(items[0]) {
        PresetOrderly(marked, items[1..]);
      }
    }
  }

  lemma OperateOrderly(s: State, tag: byte, sized: bool, now: uint64)
    requires Orderly(s)
    ensures Orderly(Step(s, Operate(tag, sized, now)))
  {
  }

  /**
   In every run of presets, commits, cancels and disconnects each savePreset call has its own setting of the flag, made
   after the last commit, cancel or disconnect, and comes within 60000 ms of the time that setting recorded.
   */
  lemma {:induction false} NoPresetCommitsTwice(s: State, events: seq<Event>)
    requires Orderly(s)
    ensures Orderly(Run(s, events))
    decreases |events|
  {
    hide Orderly, Step;
    if events != [] {
      StepOrderly(s, events[0]);
      NoPresetCommitsTwice(Step(s, events[0]), events[1..]);
    }
  }

  lemma StepOrderly(s: State, e: Event)
    requires Orderly(s)
    ensures Orderly(Step(s, e))
  {
    match e
    case Preset(items) => PresetOrderly(s.(firstFlag := true), items);
    case Operate(tag, sized, now) => OperateOrderly(s, tag, sized, now);
    case Disconnect =>
  }

  /** In real time: the difference stays below the limit from the recorded time on, or when it wraps around 64 bits. */
  lemma WithinLimit(now: uint64, since: uint64)
    ensures Elapsed(now, since) < LIMIT <==>
      since <= now < since + LIMIT || now + 0x1_0000_0000_0000_0000 < since + LIMIT
  {
    if now < since {
      assert (now - since) % 0x1_0000_0000_0000_0000 == now - since + 0x1_0000_0000_0000_0000;
    }
  }

  // ---------------------------------------------------------------- the flag a program starts with

  /** Some savePreset call relies on the default and not on a preset. */
  predicate Defaulted(s: State) { exists k :: 0 <= k < |s.saves| && s.saves[k].source == 0 }

  /** The default is still in force. */
  predicate Pristine(s: State) { s.flag && |s.times| == 1 }

  /**
   The first commit, cancel or disconnect is a commit in the first minute of the epoch, and no preset that does anything
   comes before it: one of no items, or one that is answered without a look since another is pending.
   */
  predicate UsesDefault(events: seq<Event>, blocked: bool)
    decreases |events|
  {
    events != [] &&
      match events[0]
      case Preset(items) => (blocked || items == []) && UsesDefault(events[1..], true)
      case Operate(tag, sized, now) => sized && IsCommit(tag) && now < LIMIT
      case Disconnect => false
  }

  lemma {:induction false} PresetKeeps(s: State, items: seq<Item>)
    requires s.times != []
    ensures var t := PresetItems(s, items);
            t.times != [] && t.times[0] == s.times[0] && t.saves == s.saves && t.cleared == s.cleared
                && t.firstFlag == s.firstFlag
    decreases |items|
  {
    if items != [] && Good(items[0]) {
      PresetKeeps(s.(flag := true, curTime := items[0].now, times := s.times + [items[0].now]), items[1..]);
    }
  }

  lemma {:induction false} PresetEndsDefault(s: State, items: seq<Item>)
    requires s.times != [] && !Pristine(s)
    ensures !Pristine(PresetItems(s, items))
    decreases |items|
  {
    if items != [] && Good(items[0]) {
      PresetEndsDefault(s.(flag := true, curTime := items[0].now, times := s.times + [items[0].now]), items[1..]);
    }
  }

  /** One event: whether it saves on the default, and whether the default is still in force after it. */
  lemma StepDefault(s: State, e: Event)
    requires Orderly(s) && s.times[0] == 0
    ensures var t := Step(s, e);
            && Orderly(t) && t.times[0] == 0
            && (Defaulted(t) <==> Defaulted(s) || (Pristine(s) && e.Operate? && UsesDefault([e], s.firstFlag)))
            && (Pristine(t) <==> Pristine(s) && e.Preset? && (s.firstFlag || e.items == []))
            && (e.Preset? ==> t.firstFlag)
  {
    StepOrderly(s, e);
    match e
    case Preset(items) =>
      var marked := s.(firstFlag := true);
      PresetKeeps(marked, items);
      if !Pristine(s) {
        PresetEndsDefault(marked, items);
      } else if items != [] && Good(items[0]) {
        var first := marked.(flag := true, curTime := items[0].now, times := s.times + [items[0].now]);
        PresetEndsDefault(first, items[1..]);
      }
    case Operate(tag, sized, now) =>
      WithinLimit(now, s.curTime);
      SaveDefault(s, tag, sized, now);
    case Disconnect =>
  }

  lemma SaveDefault(s: State, tag: byte, sized: bool, now: uint64)
    requires Orderly(s) && s.times[0] == 0
    ensures Defaulted(Step(s, Operate(tag, sized, now))) <==>
              Defaulted(s) || (Pristine(s) && sized && IsCommit(tag) && now < LIMIT)
  {
    WithinLimit(now, s.curTime);
    var t := Step(s, Operate(tag, sized, now));
    hide IsCommit, Elapsed;
    assert t.saves != s.saves ==> t.saves[|s.saves|].source == |s.times| - 1;
    assert forall k :: 0 <= k < |s.saves| ==> t.saves[k] == s.saves[k];
  }

  /** Exactly when a run saves on the default: for every run of events, from any state a program can be in. */
  lemma {:induction false} SavesOnDefaultExactly(s: State, events: seq<Event>)
    requires Orderly(s) && s.times[0] == 0
    ensures Defaulted(Run(s, events)) <==> Defaulted(s) || (Pristine(s) && UsesDefault(events, s.firstFlag))
    decreases |events|
  {
    if events != [] {
      var e := events[0];
      StepDefault(s, e);
      assert [e][0] == e;
      SavesOnDefaultExactly(Step(s, e), events[1..]);
      hide Step, Orderly, Defaulted, Pristine, Run;
    }
  }

  /** In runs from the start of the program: exactly when some savePreset call relies on no preset. */
  lemma DefaultFlagCommits(events: seq<Event>)
    ensures Defaulted(Run(INIT, events)) <==> UsesDefault(events, false)
  {
    SavesOnDefaultExactly(INIT, events);
  }

  /** So a commit without any preset goes through exactly in the first minute of the epoch. */
  lemma CommitWithoutPreset(tag: byte, now: uint64)
    requires IsCommit(tag)
    ensures Run(INIT, [Operate(tag, true, now)]).saves != [] <==> now < LIMIT
  {
    var only := [Operate(tag, true, now)];
    DefaultFlagCommits(only);
    assert only[1..] == [];
  }

  predicate ClockIsSet(events: seq<Event>) {
    forall k :: 0 <= k < |events| ==> match events[k] case Operate(_, _, now) => now >= LIMIT case _ => true
  }

  lemma {:induction false} ClockRulesOutDefault(events: seq<Event>, blocked: bool)
    requires ClockIsSet(events)
    ensures !UsesDefault(events, blocked)
    decreases |events|
  {
    if events != [] {
      assert forall k :: 0 <= k < |events[1..]| ==> events[1..][k] == events[k + 1];
      ClockRulesOutDefault(events[1..], true);
    }
  }

  /** While the default is the only setting so far, nothing has been saved. */
  predicate Unused(s: State) { Orderly(s) && forall k :: 0 <= k < |s.saves| ==> s.saves[k].source > 0 }

  /** With a clock past the first minute, every savePreset call relies on a real preset. */
  lemma EverySaveWasPreset(s: State, events: seq<Event>)
    requires Unused(s) && s.times[0] == 0 && ClockIsSet(events)
    ensures Unused(Run(s, events))
  {
    NoPresetCommitsTwice(s, events);
    SavesOnDefaultExactly(s, events);
    ClockRulesOutDefault(events, s.firstFlag);
    hide Run, UsesDefault, ClockIsSet;
  }

  lemma StartsUnused()
    ensures Orderly(INIT) && Unused(INIT)
  {
  }

  /** In every run from the start of the program both hold, the second if the clock is past the first minute. */
  lemma EveryRunFromStart(events: seq<Event>)
    ensures Orderly(Run(INIT, events)) && (ClockIsSet(events) ==> Unused(Run(INIT, events)))
  {
    hide Orderly, Unused, Run, ClockIsSet;
    StartsUnused();
    NoPresetCommitsTwice(INIT, events);
    if ClockIsSet(events) {
      EverySaveWasPreset(INIT, events);
    }
  }

  // ---------------------------------------------------------------- a preset and the commit that follows it

  lemma {:induction false} PresetOutcome(s: State, items: seq<Item>)
    requires items != []
    ensures var t := PresetItems(s, items);
            && (t.flag <==> forall k :: 0 <= k < |items| ==> Good(items[k]))
            && (t.flag ==> t.curTime == items[|items| - 1].now && |t.times| > |s.times|)
    decreases |items|
  {
    if Good(items[0]) {
      var marked := s.(flag := true, curTime := items[0].now, times := s.times + [items[0].now]);
      if |items| == 1 {
        assert items[1..] == [];
      } else {
        PresetOutcome(marked, items[1..]);
        assert forall k :: 1 <= k < |items| ==> items[k] == items[1..][k - 1];
        assert forall k :: 0 <= k < |items[1..]| ==> items[1..][k] == items[k + 1];
      }
    }
  }

  /** A commit right after a preset saves exactly if every item was good and the last one is less than a minute old. */
  lemma PresetThenCommit(s: State, items: seq<Item>, tag: byte, sized: bool, now: uint64)
    requires Orderly(s) && !s.firstFlag && items != [] && IsCommit(tag)
    ensures var t := Step(Step(s, Preset(items)), Operate(tag, sized, now));
            |t.saves| == |s.saves| + 1 <==>
              sized && (forall k :: 0 <= k < |items| ==> Good(items[k])) && Elapsed(now, items[|items| - 1].now) < LIMIT
  {
    PresetOutcome(s.(firstFlag := true), items);
    PresetKeeps(s.(firstFlag := true), items);
    hide PresetItems, Good;
  }

  function Times(items: seq<Item>): (r: seq<uint64>)
    ensures |r| == |items| && forall k :: 0 <= k < |r| ==> r[k] == items[k].now
  {
    seq(|items|, k requires 0 <= k < |items| => items[k].now)
  }

  /** The first item that is not good stops a preset; its time still counts, unless its address is the read-only one. */
  lemma {:induction false} BadItemStops(s: State, good: seq<Item>, bad: Item, rest: seq<Item>)
    requires !Good(bad) && forall k :: 0 <= k < |good| ==> Good(good[k])
    ensures var seen := Times(good) + if bad.addr == 0x5019 then [] else [bad.now];
            PresetItems(s, good + [bad] + rest)
            == s.(flag := false, times := s.times + seen,
                  curTime := if seen == [] then s.curTime else seen[|seen| - 1])
    decreases |good|
  {
    var items := good + [bad] + rest;
    if good == [] {
      assert items[0] == bad && s.times + [] == s.times;
      assert Times(good) + [] == [] && Times(good) + [bad.now] == [bad.now];
    } else {
      var first := good[0];
      var marked := s.(flag := true, curTime := first.now, times := s.times + [first.now]);
      assert items[0] == first && items[1..] == good[1..] + [bad] + rest;
      BadItemStops(marked, good[1..], bad, rest);
      hide Good;
      assert Times(good) == [first.now] + Times(good[1..]);
      var tail := if bad.addr == 0x5019 then [] else [bad.now];
      assert s.times + [first.now] + (Times(good[1..]) + tail) == s.times + (Times(good) + tail);
    }
  }

  /** Whatever a state was, a commit, cancel or disconnect makes the next preset count again, and all its items. */
  lemma OperationUnblocks(s: State, e: Event, items: seq<Item>, tag: byte, sized: bool, now: uint64)
    requires Orderly(s) && !e.Preset? && items != [] && IsCommit(tag)
    ensures var before := Step(s, e);
            var t := Step(Step(before, Preset(items)), Operate(tag, sized, now));
            |t.saves| == |before.saves| + 1 <==>
              sized && (forall k :: 0 <= k < |items| ==> Good(items[k])) && Elapsed(now, items[|items| - 1].now) < LIMIT
  {
    StepOrderly(s, e);
    PresetThenCommit(Step(s, e), items, tag, sized, now);
  }

  /** What a good item is: not the address 0x5019, mapped, and with a value that is taken. The limit is a minute. */
  lemma Constants(item: Item)
    ensures Good(item) <==> item.addr != 0x5019 && item.mapped && item.taken
    ensures LIMIT == 60000
  {
  }

  /** After a preset that failed, further presets are answered as done but change nothing: only an operation helps. */
  lemma {:induction false} FailedPresetBlocks(s: State, presets: seq<Event>)
    requires s.firstFlag && !s.flag && forall k :: 0 <= k < |presets| ==> presets[k].Preset?
    ensures Run(s, presets) == s
    decreases |presets|
  {
    if presets != [] {
      FailedPresetBlocks(s, presets[1..]);
    }
  }
}
