/**
 Supervision of GOOSE peers (libdtugoose/dtugoosesubscriber.cpp): when each was heard, and the alarm sent to the DSP.
 */
module GooseLink {

  /** A 32-bit int. */
  newtype AppId = x: int | -0x8000_0000 <= x < 0x8000_0000

  const THRESHOLD: nat := 20000

  /** PC_W_GOOSE_COMM_RST and PC_W_GOOSE_COMM_YC. */
  datatype Command = Restored | Lost

  datatype Link = Link(heard: map<AppId, nat>, states: map<AppId, bool>, sent: seq<Command>)

  const INIT := Link(map[], map[], [])

  predicate AllUp(states: map<AppId, bool>) { forall k :: k in states ==> states[k] }

  /** Heard no longer than the threshold ago; a peer heard after the sweep took its time counts the same way. */
  predicate Fresh(now: nat, time: nat) { time - THRESHOLD <= now <= time + THRESHOLD }

  function AbsTime(time1: nat, time2: nat): nat { if time1 > time2 then time1 - time2 else time2 - time1 }

  /** updateGooseLinkState: a command goes out when the peer is new or its state changes. */
  function SetState(l: Link, appid: AppId, up: bool): Link {
    if appid in l.states && l.states[appid] == up then l
    else
      var states := l.states[appid := up];
      l.(states := states, sent := l.sent + [if AllUp(states) then Restored else Lost])
  }

  /** A sweep over these peers, in this order. */
  function SweepOver(l: Link, now: nat, order: seq<AppId>): Link
    requires forall a :: a in order ==> a in l.heard
    decreases |order|
  {
    if order == [] then l
    else SweepOver(SetState(l, order[0], Fresh(now, l.heard[order[0]])), now, order[1..])
  }

  /** Every key once, in whatever order the map is walked. */
  predicate Lists(order: seq<AppId>, heard: map<AppId, nat>) {
    (forall a :: a in order ==> a in heard) && (forall a :: a in heard ==> a in order)
        && forall i, j :: 0 <= i < j < |order| ==> order[i] != order[j]
  }

  /** A frame of a peer arrives, or the monitor makes a whole sweep; both hold the same lock. */
  datatype Event = Heard(appid: AppId, now: nat) | Sweep(now: nat, order: seq<AppId>)

  function Step(l: Link, e: Event): Link {
    match e
    case Heard(appid, now) => l.(heard := l.heard[appid := now])
    case Sweep(now, order) => if Lists(order, l.heard) then SweepOver(l, now, order) else l
  }

  function Run(l: Link, events: seq<Event>): Link
    decreases |events|
  {
    if events == [] then l else Run(Step(l, events[0]), events[1..])
  }

  class GooseSubscriber {
    var gooseLinkMap: map<AppId, nat>
    var gooseLinkStateMap: map<AppId, bool>
    /** The keys of gooseLinkStateMap in the order in which a loop over it meets them. */
    var stateKeys: seq<AppId>
    var commands: seq<Command>

    constructor ()
      ensures Valid() && AsLink() == INIT
    {
      gooseLinkMap, gooseLinkStateMap, stateKeys, commands := map[], map[], [], [];
    }

    predicate Valid()
      reads this
    {
      && (forall k :: 0 <= k < |stateKeys| ==> stateKeys[k] in gooseLinkStateMap)
      && forall a :: a in gooseLinkStateMap ==> a in stateKeys
    }

    function AsLink(): Link
      reads this
    {
      Link(gooseLinkMap, gooseLinkStateMap, commands)
    }

    method UpdateGooseTime(appid: AppId, now: nat)
      requires Valid()
      modifies this
      ensures Valid() && AsLink() == Step(old(AsLink()), Heard(appid, now))
    {
      gooseLinkMap := gooseLinkMap[appid := now];
    }

    /** The loop over all recorded states. */
    method CurrentState() returns (curState: bool)
      requires Valid()
      ensures curState == AllUp(gooseLinkStateMap)
    {
      curState := true;
      for i := 0 to |stateKeys|
        invariant curState <==> forall k :: 0 <= k < i ==> gooseLinkStateMap[stateKeys[k]]
      {
        curState := curState && gooseLinkStateMap[stateKeys[i]];
      }
      forall a | a in gooseLinkStateMap ensures curState ==> gooseLinkStateMap[a] {
        var i :| 0 <= i < |stateKeys| && stateKeys[i] == a;
      }
    }

    method UpdateGooseLinkState(appid: AppId, state: bool)
      requires Valid()
      modifies `gooseLinkStateMap, `stateKeys, `commands
      ensures Valid() && AsLink() == SetState(old(AsLink()), appid, state)
    {
      if appid in gooseLinkStateMap {
        if gooseLinkStateMap[appid] != state {
          gooseLinkStateMap := gooseLinkStateMap[appid := state];
          var curState := CurrentState();
          if curState {
            commands := commands + [Restored];
          } else {
            commands := commands + [Lost];
          }
        }
      } else {
        gooseLinkStateMap := gooseLinkStateMap[appid := state];
        stateKeys := stateKeys + [appid];
        var curState := CurrentState();
        if curState {
          commands := commands + [Restored];
        } else {
          commands := commands + [Lost];
        }
      }
    }

    /** One sweep of the monitor thread; order is the order in which the map of times is walked. */
    method SweepStep(currTime: nat, order: seq<AppId>)
      requires Valid() && Lists(order, gooseLinkMap)
      modifies `gooseLinkStateMap, `stateKeys, `commands
      ensures Valid() && AsLink() == Step(old(AsLink()), Sweep(currTime, order))
    {
      for i := 0 to |order|
        invariant Valid() && SweepOver(AsLink(), currTime, order[i..]) == SweepOver(old(AsLink()), currTime, order)
      {
        hide SetState;
        ghost var left := order[i..];
        assert left[0] == order[i] && left[1..] == order[i + 1..];
        if AbsTime(currTime, gooseLinkMap[order[i]]) > THRESHOLD {
          UpdateGooseLinkState(order[i], false);
        } else {
          UpdateGooseLinkState(order[i], true);
        }
      }
    }
  }

  // ---------------------------------------------------------------- the alarm tells the truth

  /** The last command sent agrees with the recorded states; a command was sent as soon as a peer is recorded. */
  predicate Truthful(l: Link) {
    && (l.states == map[] <==> l.sent == [])
    && (l.sent != [] ==> (l.sent[|l.sent| - 1] == Restored <==> AllUp(l.states)))
  }

  lemma SetStateTruthful(l: Link, appid: AppId, up: bool)
    requires Truthful(l)
    ensures Truthful(SetState(l, appid, up)) && SetState(l, appid, up).heard == l.heard
  {
    assert appid in l.states[appid := up];
  }

  lemma {:induction false} SweepTruthful(l: Link, now: nat, order: seq<AppId>)
    requires Truthful(l) && forall a :: a in order ==> a in l.heard
    ensures Truthful(SweepOver(l, now, order))
    decreases |order|
  {
    hide Truthful;
    if order != [] {
      var up := Fresh(now, l.heard[order[0]]);
      SetStateTruthful(l, order[0], up);
      SweepTruthful(SetState(l, order[0], up), now, order[1..]);
    }
  }

  /** In every run, the last alarm command sent is "restored" exactly if all recorded link states are up. */
  lemma {:induction false} AlarmFollowsStates(l: Link, events: seq<Event>)
    requires Truthful(l)
    ensures Truthful(Run(l, events))
    decreases |events|
  {
    if events != [] {
      match events[0] {
        case Heard(_, _) =>
        case Sweep(now, order) =>
          if Lists(order, l.heard) {
            SweepTruthful(l, now, order);
          }
      }
      AlarmFollowsStates(Step(l, events[0]), events[1..]);
    }
  }

  /**
   What a sweep leaves: every swept peer is up exactly if it was heard within the threshold; the rest is as before.
   */
  lemma {:induction false} SweepSets(l: Link, now: nat, order: seq<AppId>)
    requires forall a :: a in order ==> a in l.heard
    ensures var t := SweepOver(l, now, order);
            && t.heard == l.heard && (forall a :: a in t.states <==> a in l.states || a in order)
            && forall a :: a in t.states ==>
                (t.states[a] <==> if a in order then Fresh(now, l.heard[a]) else l.states[a])
    decreases |order|
  {
    if order != [] {
      var next := SetState(l, order[0], Fresh(now, l.heard[order[0]]));
      SweepSets(next, now, order[1..]);
      assert forall a :: a in order <==> a == order[0] || a in order[1..];
      assert forall a :: a in next.states <==> a in l.states || a == order[0];
    }
  }

  /** Only peers that were heard are ever recorded. */
  lemma {:induction false} RecordedWereHeard(l: Link, events: seq<Event>)
    requires forall a :: a in l.states ==> a in l.heard
    ensures forall a :: a in Run(l, events).states ==> a in Run(l, events).heard
    decreases |events|
  {
    if events != [] {
      match events[0] {
        case Heard(_, _) =>
        case Sweep(now, order) =>
          if Lists(order, l.heard) {
            SweepSets(l, now, order);
          }
      }
      RecordedWereHeard(Step(l, events[0]), events[1..]);
    }
  }

  lemma {:induction false} RunJoin(l: Link, a: seq<Event>, b: seq<Event>)
    ensures Run(l, a + b) == Run(Run(l, a), b)
    decreases |a|
  {
    if a == [] {
      assert a + b == b;
    } else {
      assert (a + b)[1..] == a[1..] + b;
      RunJoin(Step(l, a[0]), a[1..], b);
    }
  }

  /**
   After a complete sweep at the end of any run in which some peer was heard, the last command is "restored" exactly if
   every peer ever heard was last heard within 20000 ms of the sweep.
   */
  lemma AlarmAfterSweep(events: seq<Event>, now: nat, order: seq<AppId>)
    requires order != [] && Lists(order, Run(INIT, events).heard)
    ensures var t := Run(INIT, events + [Sweep(now, order)]);
            && t.heard == Run(INIT, events).heard && t.sent != []
            && (t.sent[|t.sent| - 1] == Restored <==> forall a :: a in t.heard ==> Fresh(now, t.heard[a]))
  {
    var l := Run(INIT, events);
    var t := Run(INIT, events + [Sweep(now, order)]);
    RunJoin(INIT, events, [Sweep(now, order)]);
    assert t == SweepOver(l, now, order) by {
      assert [Sweep(now, order)][1..] == [];
    }
    AlarmFollowsStates(INIT, events + [Sweep(now, order)]);
    RecordedWereHeard(INIT, events);
    SweepSets(l, now, order);
    assert order[0] in t.states;
    assert forall a :: a in t.states <==> a in t.heard;
  }

  // ---------------------------------------------------------------- the alarm, told by the events

  /** The last frame of peer a among the events is event k. */
  predicate LastHeard(events: seq<Event>, a: AppId, k: nat) {
    && k < |events| && events[k].Heard? && events[k].appid == a
    && forall i :: k < i < |events| && events[i].Heard? ==> events[i].appid != a
  }

  predicate EverHeard(events: seq<Event>, a: AppId) {
    exists k :: 0 <= k < |events| && events[k].Heard? && events[k].appid == a
  }

  lemma RunLast(l: Link, events: seq<Event>)
    requires events != []
    ensures var n := |events| - 1; Run(l, events) == Step(Run(l, events[..n]), events[n])
  {
    var n := |events| - 1;
    var last := [events[n]];
    assert events == events[..n] + last && last[1..] == [];
    RunJoin(l, events[..n], last);
  }

  lemma StepHears(l: Link, e: Event)
    ensures Step(l, e).heard == if e.Heard? then l.heard[e.appid := e.now] else l.heard
  {
    if e.Sweep? && Lists(e.order, l.heard) {
      SweepSets(l, e.now, e.order);
    }
  }

  /** In every run a peer is known exactly if it was heard, with the time of its last frame. */
  lemma {:induction false} KnownAreHeard(events: seq<Event>, a: AppId)
    ensures a in Run(INIT, events).heard <==> EverHeard(events, a)
    ensures forall k: nat :: LastHeard(events, a, k) ==>
              a in Run(INIT, events).heard && Run(INIT, events).heard[a] == events[k].now
    decreases |events|
  {
    hide Step, Run;
    if events == [] {
      RunNothing();
    } else {
      var n := |events| - 1;
      var e, before := events[n], events[..n];
      RunLast(INIT, events);
      StepHears(Run(INIT, before), e);
      KnownAreHeard(before, a);
      assert EverHeard(before, a) ==> EverHeard(events, a);
      assert e.Heard? && e.appid == a ==> EverHeard(events, a);
      if EverHeard(events, a) && !(e.Heard? && e.appid == a) {
        var k :| 0 <= k < |events| && events[k].Heard? && events[k].appid == a;
        assert before[k] == events[k];
      }
      forall k: nat | LastHeard(events, a, k)
        ensures a in Run(INIT, events).heard && Run(INIT, events).heard[a] == events[k].now
      {
        if k < n {
          assert before[k] == events[k] && LastHeard(before, a, k);
          assert events[n].Heard? ==> events[n].appid != a;
        }
      }
    }
  }

  lemma RunNothing()
    ensures Run(INIT, []) == INIT
  {
  }

  /** A peer that was heard has a last frame. */
  lemma {:induction false} SomeLast(events: seq<Event>, a: AppId) returns (k: nat)
    requires EverHeard(events, a)
    ensures LastHeard(events, a, k)
    decreases |events|
  {
    var n := |events| - 1;
    if events[n].Heard? && events[n].appid == a {
      k := n;
    } else {
      var i :| 0 <= i < |events| && events[i].Heard? && events[i].appid == a;
      assert events[..n][i] == events[i];
      k := SomeLast(events[..n], a);
      assert events[..n][k] == events[k];
    }
  }

  /** Every peer among the events once, in whatever order. */
  predicate ListsPeers(order: seq<AppId>, events: seq<Event>) {
    && (forall k :: 0 <= k < |events| && events[k].Heard? ==> events[k].appid in order)
    && (forall i :: 0 <= i < |order| ==> EverHeard(events, order[i]))
    && forall i, j :: 0 <= i < j < |order| ==> order[i] != order[j]
  }

  predicate Recent(now: nat, time: nat) { -20000 <= now - time <= 20000 }

  /** Every peer's last frame came at most 20000 ms before the sweep, or after it took its time. */
  ghost predicate AllRecent(events: seq<Event>, now: nat) {
    forall a: AppId, k: nat :: LastHeard(events, a, k) ==> Recent(now, events[k].now)
  }

  lemma ListedPeers(events: seq<Event>, order: seq<AppId>)
    requires ListsPeers(order, events)
    ensures Lists(order, Run(INIT, events).heard)
  {
    hide Run;
    var heard := Run(INIT, events).heard;
    forall a | a in order ensures a in heard {
      KnownAreHeard(events, a);
    }
    forall a | a in heard ensures a in order {
      KnownAreHeard(events, a);
    }
  }

  lemma RecentIsFresh(events: seq<Event>, now: nat)
    ensures var heard := Run(INIT, events).heard;
            AllRecent(events, now) <==> forall a :: a in heard ==> Fresh(now, heard[a])
  {
    hide Run, EverHeard, Recent, Fresh;
    var heard := Run(INIT, events).heard;
    if AllRecent(events, now) {
      forall a | a in heard ensures Fresh(now, heard[a]) {
        KnownAreHeard(events, a);
        var k := SomeLast(events, a);
        assert Recent(now, events[k].now);
        SameLimit(now, heard[a]);
      }
    } else {
      var a: AppId, k: nat :| k < |events| && LastHeard(events, a, k) && !Recent(now, events[k].now);
      KnownAreHeard(events, a);
      SameLimit(now, heard[a]);
      assert !Fresh(now, heard[a]);
    }
  }

  lemma SameLimit(now: nat, time: nat)
    ensures Recent(now, time) <==> Fresh(now, time)
  {
  }

  /**
   After any run and a complete sweep, the last command is "restored" exactly if the last frame of every peer came
   within 20000 ms of the sweep. Before the first frame nothing is sent.
   */
  lemma AlarmTellsEvents(events: seq<Event>, now: nat, order: seq<AppId>)
    requires ListsPeers(order, events)
    ensures var sent := Run(INIT, events + [Sweep(now, order)]).sent;
            && (sent == [] <==> order == [])
            && (sent != [] ==> (sent[|sent| - 1] == Restored <==> AllRecent(events, now)))
  {
    hide Run, Lists, ListsPeers, AllRecent, Fresh;
    ListedPeers(events, order);
    if order != [] {
      AlarmAfterSweep(events, now, order);
      RecentIsFresh(events, now);
    } else {
      SilentBefore(events, now);
    }
  }

  lemma SilentBefore(events: seq<Event>, now: nat)
    requires Lists([], Run(INIT, events).heard)
    ensures Run(INIT, events + [Sweep(now, [])]).sent == []
  {
    var (l, last) := (Run(INIT, events), [Sweep(now, [])]);
    AlarmFollowsStates(INIT, events);
    RecordedWereHeard(INIT, events);
    RunJoin(INIT, events, last);
    assert last[1..] == [];
    assert l.states == map[];
  }

  /** A sweep that finds every link as recorded sends nothing. */
  lemma {:induction false} QuietSweep(l: Link, now: nat, order: seq<AppId>)
    requires forall a :: a in order ==> a in l.heard
    ensures SweepOver(l, now, order).sent == l.sent <==>
              forall k :: 0 <= k < |order| ==>
                order[k] in l.states && (l.states[order[k]] <==> Fresh(now, l.heard[order[k]]))
    ensures |SweepOver(l, now, order).sent| >= |l.sent|
    decreases |order|
  {
    if order != [] {
      var next := SetState(l, order[0], Fresh(now, l.heard[order[0]]));
      QuietSweep(next, now, order[1..]);
      if next == l {
        assert forall k :: 1 <= k < |order| ==> order[k] == order[1..][k - 1];
        assert forall k :: 0 <= k < |order[1..]| ==> order[1..][k] == order[k + 1];
      }
    }
  }
}
