/**
 The GOOSE publisher and its thread as interleaved steps (libdtugoose/dtugoosepublisher.cpp), with one producer.
 */
module GoosePublisher {
  import opened Sequences

  /** The four signals of a frame. */
  datatype Output = Output(fault: bool, check: bool, isolate: bool, current: bool)

  const ALL_FALSE := Output(false, false, false, false)
  const COPIES: nat := 5

  datatype Wire = IncreaseStNum | Published(output: Output)

  /** Where the thread stands: waiting on the condition variable, about to send a heartbeat, about to dequeue, sending
      copies of a value, or about to remember it after isPing was set. */
  datatype Place = Waiting | Beating | Draining | Sending(output: Output, copies: nat) | Storing(output: Output)

  /** All that both threads share; calling says that publish has enqueued its value but not yet cleared isPing. */
  datatype State = State(
    queue: seq<Output>, isPing: bool, lastFrame: Output, place: Place, calling: bool, published: seq<Output>,
        wire: seq<Wire>)

  const INIT := State([], true, ALL_FALSE, Waiting, false, [], [])

  /** One step of one thread; a step that thread cannot take now changes nothing. */
  datatype Action = Enqueue(output: Output) | ClearPing | Thread

  function Step(s: State, a: Action): State {
    match a
    case Enqueue(v) =>
      if s.calling then s else s.(queue := s.queue + [v], published := s.published + [v], calling := true)
    case ClearPing => if s.calling then s.(isPing := false, calling := false) else s
    case Thread => ThreadStep(s)
  }

  function ThreadStep(s: State): State {
    match s.place
    case Waiting => s.(place := if s.isPing then Beating else Draining)
    case Beating => s.(place := Waiting, wire := s.wire + [Published(s.lastFrame)])
    case Draining =>
      if s.queue == [] then s.(place := Waiting)
      else s.(place := Sending(s.queue[0], 0), queue := s.queue[1..], wire := s.wire + [IncreaseStNum])
    case Sending(v, n) =>
      if n < COPIES then s.(place := Sending(v, n + 1), wire := s.wire + [Published(v)])
      else s.(place := Storing(v), isPing := true)
    case Storing(v) => s.(place := Draining, lastFrame := v)
  }

  function Run(s: State, schedule: seq<Action>): State
    decreases |schedule|
  {
    if schedule == [] then s else Run(Step(s, schedule[0]), schedule[1..])
  }

  /** The publisher object; each method is one atomic step of the original. */
  class Publisher {
    var queue: seq<Output>
    var isPing: bool
    var lastFrame: Output
    var place: Place
    ghost var calling: bool
    ghost var published: seq<Output>
    var wire: seq<Wire>

    constructor ()
      ensures AsState() == INIT
    {
      queue, isPing, lastFrame, place, calling, published, wire := [], true, ALL_FALSE, Waiting, false, [], [];
    }

    ghost function AsState(): State
      reads this
    {
      State(queue, isPing, lastFrame, place, calling, published, wire)
    }

    method EnqueueStep(data: Output)
      requires !calling
      modifies this
      ensures AsState() == Step(old(AsState()), Enqueue(data))
    {
      queue := queue + [data];
      published := published + [data];
      calling := true;
    }

    method ClearPingStep()
      requires calling
      modifies this
      ensures AsState() == Step(old(AsState()), ClearPing)
    {
      isPing := false;
      calling := false;
    }

    /** publish, undisturbed. */
    method Publish(data: Output)
      requires !calling
      modifies this
      ensures AsState() == Step(Step(old(AsState()), Enqueue(data)), ClearPing)
    {
      EnqueueStep(data);
      ClearPingStep();
    }

    method Wake()
      requires place.Waiting?
      modifies this
      ensures AsState() == Step(old(AsState()), Thread)
    {
      if !isPing {
        place := Draining;
      } else {
        place := Beating;
      }
    }

    method Heartbeat()
      requires place.Beating?
      modifies this
      ensures AsState() == Step(old(AsState()), Thread)
    {
      wire := wire + [Published(lastFrame)];
      place := Waiting;
    }

    method TryDequeue() returns (dequeued: bool)
      requires place.Draining?
      modifies this
      ensures AsState() == Step(old(AsState()), Thread) && dequeued == (old(queue) != [])
    {
      dequeued := |queue| > 0;
      if dequeued {
        var output := queue[0];
        queue := queue[1..];
        wire := wire + [IncreaseStNum];
        place := Sending(output, 0);
      } else {
        place := Waiting;
      }
    }

    method SendCopy()
      requires place.Sending? && place.copies < COPIES
      modifies this
      ensures AsState() == Step(old(AsState()), Thread)
    {
      wire := wire + [Published(place.output)];
      place := Sending(place.output, place.copies + 1);
    }

    method SetPing()
      requires place.Sending? && place.copies == COPIES
      modifies this
      ensures AsState() == Step(old(AsState()), Thread)
    {
      isPing := true;
      place := Storing(place.output);
    }

    method StoreLastFrame()
      requires place.Storing?
      modifies this
      ensures AsState() == Step(old(AsState()), Thread)
    {
      lastFrame := place.output;
      place := Draining;
    }

    /** One round of the drain loop when no producer interferes. */
    method SendNext()
      requires place.Draining? && queue != []
      modifies this
      ensures AsState() == old(AsState()).(queue := old(queue)[1..], isPing := true, lastFrame := old(queue)[0],
                                           wire := old(wire) + RoundWire(Value(old(queue)[0]), old(lastFrame)))
    {
      ghost var (before, v) := (AsState(), queue[0]);
      var dequeued := TryDequeue();
      assert before.wire + [IncreaseStNum] == before.wire + ([IncreaseStNum] + Repeat(Published(v), 0));
      for i := 0 to COPIES
        invariant AsState() == before.(place := Sending(v, i), queue := before.queue[1..],
                                       wire := before.wire + ([IncreaseStNum] + Repeat(Published(v), i)))
      {
        assert before.wire + ([IncreaseStNum] + Repeat(Published(v), i)) + [Published(v)]
            == before.wire + ([IncreaseStNum] + Repeat(Published(v), i + 1));
        SendCopy();
      }
      SetPing();
      StoreLastFrame();
    }

    /** The whole drain loop when no producer interferes: every queued value goes out, in order. */
    method Drain()
      requires place.Draining?
      modifies this
      ensures AsState() == Drained(old(AsState()), old(queue), []).(place := Waiting)
    {
      ghost var (before, sent) := (AsState(), []);
      DrainStart(before);
      while |queue| > 0
        invariant sent + queue == before.queue && AsState() == Drained(before, sent, queue) && place.Draining?
      {
        hide Drained, WireOf, RoundWire, Values, LastValue;
        ghost var left := queue;
        DrainedOne(before, sent, left);
        SendNext();
        MoveOver(sent, left);
        sent := sent + [left[0]];
      }
      MovedAll(sent, queue);
      hide Drained, Step;
      DrainEnd(before);
      var dequeued := TryDequeue();
    }
  }

  // ---------------------------------------------------------------- what may stand on the wire

  /** A value sent with its own state number, or a heartbeat. */
  datatype Round = Value(output: Output) | Beat

  function LastValue(rounds: seq<Round>, first: Output): Output
    decreases |rounds|
  {
    if rounds == [] then first
    else
      var r := rounds[|rounds| - 1];
      if r.Value? then r.output else LastValue(rounds[..|rounds| - 1], first)
  }

  /** One increment and five copies for a value; the last value again, or the first frame, for a heartbeat. */
  function RoundWire(r: Round, last: Output): seq<Wire> {
    if r.Value? then [IncreaseStNum] + Repeat(Published(r.output), COPIES) else [Published(last)]
  }

  function WireOf(rounds: seq<Round>, first: Output): seq<Wire>
    decreases |rounds|
  {
    if rounds == [] then []
    else
      var init := rounds[..|rounds| - 1];
      WireOf(init, first) + RoundWire(rounds[|rounds| - 1], LastValue(init, first))
  }

  function ValuesIn(rounds: seq<Round>): seq<Output>
    decreases |rounds|
  {
    if rounds == [] then []
    else
      var r := rounds[|rounds| - 1];
      ValuesIn(rounds[..|rounds| - 1]) + if r.Value? then [r.output] else []
  }

  function Values(outputs: seq<Output>): (s: seq<Round>)
    ensures |s| == |outputs| && forall k :: 0 <= k < |s| ==> s[k] == Value(outputs[k])
  {
    seq(|outputs|, k requires 0 <= k < |outputs| => Value(outputs[k]))
  }

  lemma AddRound(rounds: seq<Round>, r: Round, first: Output)
    ensures WireOf(rounds + [r], first) == WireOf(rounds, first) + RoundWire(r, LastValue(rounds, first))
    ensures ValuesIn(rounds + [r]) == ValuesIn(rounds) + if r.Value? then [r.output] else []
    ensures LastValue(rounds + [r], first) == if r.Value? then r.output else LastValue(rounds, first)
  {
    assert (rounds + [r])[..|rounds|] == rounds;
  }

  /** The state before a drain, after these values have been sent and with those left. */
  function Drained(before: State, sent: seq<Output>, left: seq<Output>): State {
    before.(
      queue := left,
      isPing := sent != [] || before.isPing,
      lastFrame := LastValue(Values(sent), before.lastFrame),
      wire := before.wire + WireOf(Values(sent), before.lastFrame))
  }

  lemma DrainStart(before: State)
    ensures Drained(before, [], before.queue) == before
  {
    assert before.wire + [] == before.wire;
  }

  lemma DrainEnd(before: State)
    requires before.place.Draining?
    ensures Step(Drained(before, before.queue, []), Thread) == Drained(before, before.queue, []).(place := Waiting)
  {
  }

  lemma MoveOver(sent: seq<Output>, left: seq<Output>)
    requires left != []
    ensures sent + left == sent + [left[0]] + left[1..]
  {
  }

  lemma MovedAll(sent: seq<Output>, left: seq<Output>)
    requires |left| == 0
    ensures sent + left == sent && left == []
  {
  }

  lemma DrainedOne(before: State, sent: seq<Output>, left: seq<Output>)
    requires left != []
    ensures var (d, v) := (Drained(before, sent, left), left[0]);
            var wire := d.wire + RoundWire(Value(v), d.lastFrame);
            Drained(before, sent + [v], left[1..])
                == d.(queue := left[1..], isPing := true, lastFrame := v, wire := wire)
  {
    var v := left[0];
    assert Values(sent + [v]) == Values(sent) + [Value(v)];
    AddRound(Values(sent), Value(v), before.lastFrame);
    hide WireOf, LastValue;
    var w := WireOf(Values(sent), before.lastFrame);
    assert before.wire + (w + RoundWire(Value(v), LastValue(Values(sent), before.lastFrame)))
        == before.wire + w + RoundWire(Value(v), LastValue(Values(sent), before.lastFrame));
  }

  // ---------------------------------------------------------------- every interleaving

  /** The part of a value's round that is already on the wire. */
  function Partial(p: Place): seq<Wire> {
    if p.Sending? then [IncreaseStNum] + Repeat(Published(p.output), p.copies) else []
  }

  function InFlight(p: Place): seq<Output> { if p.Sending? then [p.output] else [] }

  /**
   The rounds account for the state: the wire is theirs plus a begun one, the values in them, in flight and in the queue
   are those published, in order, and heartbeats repeat the last value of the rounds.
   */
  predicate Explains(rounds: seq<Round>, s: State) {
    && s.wire == WireOf(rounds, ALL_FALSE) + Partial(s.place)
    && ValuesIn(rounds) + InFlight(s.place) + s.queue == s.published
    && (s.place.Sending? ==> s.place.copies <= COPIES)
    && (if s.place.Storing? then LastValue(rounds, ALL_FALSE) == s.place.output
        else s.lastFrame == LastValue(rounds, ALL_FALSE))
  }

  lemma StepExplained(s: State, a: Action, rounds: seq<Round>) returns (more: seq<Round>)
    requires Explains(rounds, s)
    ensures Explains(more, Step(s, a))
  {
    more := rounds;
    var t := Step(s, a);
    match a
    case Enqueue(v) =>
      assert ValuesIn(rounds) + InFlight(s.place) + (s.queue + [v]) == s.published + [v] by {
        assert ValuesIn(rounds) + InFlight(s.place) + (s.queue + [v])
            == ValuesIn(rounds) + InFlight(s.place) + s.queue + [v];
      }
    case ClearPing =>
    case Thread => more := ThreadExplained(s, rounds);
  }

  lemma ThreadExplained(s: State, rounds: seq<Round>) returns (more: seq<Round>)
    requires Explains(rounds, s)
    ensures Explains(more, ThreadStep(s))
  {
    more := rounds;
    hide WireOf, ValuesIn, LastValue;
    match s.place
    case Waiting =>
    case Beating => more := BeatExplained(s, rounds);
    case Draining =>
      if s.queue != [] {
        var (wire, values) := (WireOf(rounds, ALL_FALSE), ValuesIn(rounds));
        assert wire + [] + [IncreaseStNum] == wire + ([IncreaseStNum] + Repeat(Published(s.queue[0]), 0));
        assert values + [] + s.queue == values + [s.queue[0]] + s.queue[1..];
      }
    case Sending(v, n) => more := SendingExplained(s, v, n, rounds);
    case Storing(v) =>
  }

  lemma BeatExplained(s: State, rounds: seq<Round>) returns (more: seq<Round>)
    requires Explains(rounds, s) && s.place.Beating?
    ensures Explains(more, ThreadStep(s))
  {
    more := rounds + [Beat];
    AddRound(rounds, Beat, ALL_FALSE);
    hide WireOf, ValuesIn, LastValue;
    var (wire, values) := (WireOf(rounds, ALL_FALSE), ValuesIn(rounds));
    assert wire + [] + [Published(s.lastFrame)] == wire + [Published(s.lastFrame)] + [];
    assert values + [] == values;
  }

  lemma SendingExplained(s: State, v: Output, n: nat, rounds: seq<Round>) returns (more: seq<Round>)
    requires Explains(rounds, s) && s.place == Sending(v, n)
    ensures Explains(more, ThreadStep(s))
  {
    more := rounds;
    AddRound(rounds, Value(v), ALL_FALSE);
    hide WireOf, ValuesIn, LastValue;
    var (wire, values) := (WireOf(rounds, ALL_FALSE), ValuesIn(rounds));
    if n < COPIES {
      assert wire + ([IncreaseStNum] + Repeat(Published(v), n)) + [Published(v)]
          == wire + ([IncreaseStNum] + Repeat(Published(v), n + 1));
    } else {
      more := rounds + [Value(v)];
      var whole := wire + ([IncreaseStNum] + Repeat(Published(v), COPIES));
      assert whole == whole + [];
      assert values + [v] + s.queue == values + [v] + [] + s.queue;
    }
  }

  lemma {:induction false} RunExplainedFrom(s: State, schedule: seq<Action>, rounds: seq<Round>)
    returns (more: seq<Round>)
    requires Explains(rounds, s)
    ensures Explains(more, Run(s, schedule))
    decreases |schedule|
  {
    hide Explains, Step;
    more := rounds;
    if schedule != [] {
      more := StepExplained(s, schedule[0], rounds);
      more := RunExplainedFrom(Step(s, schedule[0]), schedule[1..], more);
    }
  }

  /** Whatever the interleaving of publish and the thread, the wire is made of whole rounds and at most one begun. */
  lemma EveryRunIsExplained(schedule: seq<Action>) returns (rounds: seq<Round>)
    ensures Explains(rounds, Run(INIT, schedule))
  {
    rounds := RunExplainedFrom(INIT, schedule, []);
  }

  // ---------------------------------------------------------------- state numbers

  /** The state number after these events. */
  function StNum(wire: seq<Wire>): nat
    decreases |wire|
  {
    if wire == [] then 0 else StNum(wire[..|wire| - 1]) + if wire[|wire| - 1].IncreaseStNum? then 1 else 0
  }

  /** The value a state number stands for. */
  function Named(published: seq<Output>, stNum: nat): Output
    requires stNum <= |published|
  {
    if stNum == 0 then ALL_FALSE else published[stNum - 1]
  }

  /** Every frame carries the value its state number stands for. */
  predicate Consistent(wire: seq<Wire>, published: seq<Output>) {
    forall i :: 0 <= i < |wire| && wire[i].Published? ==>
      StNum(wire[..i]) <= |published| && wire[i].output == Named(published, StNum(wire[..i]))
  }

  lemma {:induction false} StNumJoin(w: seq<Wire>, v: seq<Wire>)
    ensures StNum(w + v) == StNum(w) + StNum(v)
    decreases |v|
  {
    if v == [] {
      assert w + v == w;
    } else {
      assert (w + v)[..|w + v| - 1] == w + v[..|v| - 1];
      StNumJoin(w, v[..|v| - 1]);
    }
  }

  lemma ConsistentMore(wire: seq<Wire>, published: seq<Output>, w: Wire, later: seq<Output>)
    requires Consistent(wire, published)
    requires w.Published? ==> StNum(wire) <= |published + later| && w.output == Named(published + later, StNum(wire))
    ensures Consistent(wire + [w], published + later)
  {
    forall i | 0 <= i < |wire + [w]| && (wire + [w])[i].Published?
      ensures StNum((wire + [w])[..i]) <= |published + later|
              && (wire + [w])[i].output == Named(published + later, StNum((wire + [w])[..i]))
    {
      assert (wire + [w])[..i] == wire[..i];
      if i == |wire| {
        assert wire[..i] == wire;
      }
    }
  }

  lemma {:induction false} CopiesConsistent(wire: seq<Wire>, published: seq<Output>, v: Output, n: nat)
    requires Consistent(wire, published) && 0 < StNum(wire) <= |published| && published[StNum(wire) - 1] == v
    ensures Consistent(wire + Repeat(Published(v), n), published)
            && StNum(wire + Repeat(Published(v), n)) == StNum(wire)
    decreases n
  {
    hide Consistent;
    if n == 0 {
      assert wire + Repeat(Published(v), n) == wire;
    } else {
      var w := wire + Repeat(Published(v), n - 1);
      CopiesConsistent(wire, published, v, n - 1);
      assert wire + Repeat(Published(v), n) == w + [Published(v)];
      assert published + [] == published;
      ConsistentMore(w, published, Published(v), []);
      StNumJoin(w, [Published(v)]);
      StNumOne();
    }
  }

  lemma StNumOne()
    ensures StNum([IncreaseStNum]) == 1 && forall v :: StNum([Published(v)]) == 0
  {
    assert StNum([]) == 0;
  }

  lemma BegunConsistent(wire: seq<Wire>, published: seq<Output>, v: Output, n: nat)
    requires Consistent(wire, published) && StNum(wire) == |published|
    ensures var w := wire + ([IncreaseStNum] + Repeat(Published(v), n));
            Consistent(w, published + [v]) && StNum(w) == |published| + 1
  {
    hide Consistent;
    ConsistentMore(wire, published, IncreaseStNum, [v]);
    StNumJoin(wire, [IncreaseStNum]);
    StNumOne();
    CopiesConsistent(wire + [IncreaseStNum], published + [v], v, n);
    assert wire + ([IncreaseStNum] + Repeat(Published(v), n)) == wire + [IncreaseStNum] + Repeat(Published(v), n);
  }

  lemma {:induction false} RoundsConsistent(rounds: seq<Round>)
    ensures var (w, vs) := (WireOf(rounds, ALL_FALSE), ValuesIn(rounds));
            Consistent(w, vs) && StNum(w) == |vs| && LastValue(rounds, ALL_FALSE) == Named(vs, |vs|)
    decreases |rounds|
  {
    if rounds != [] {
      var (init, r) := (rounds[..|rounds| - 1], rounds[|rounds| - 1]);
      var (w, vs) := (WireOf(init, ALL_FALSE), ValuesIn(init));
      RoundsConsistent(init);
      hide Consistent, StNum;
      if r.Value? {
        BegunConsistent(w, vs, r.output, COPIES);
      } else {
        assert vs + [] == vs;
        ConsistentMore(w, vs, Published(LastValue(init, ALL_FALSE)), []);
        StNumJoin(w, [Published(LastValue(init, ALL_FALSE))]);
        StNumOne();
      }
    }
  }

  /**
   In every interleaving each frame on the wire, first copy, repetition or heartbeat, carries the value its state number
   stands for: number k the k-th value published, number 0 the all-false frame.
   */
  lemma StateNumberNamesValue(schedule: seq<Action>)
    ensures var s := Run(INIT, schedule); Consistent(s.wire, s.published)
  {
    var s := Run(INIT, schedule);
    var rounds := EveryRunIsExplained(schedule);
    RoundsConsistent(rounds);
    var (w, vs) := (WireOf(rounds, ALL_FALSE), ValuesIn(rounds));
    var sofar := vs + InFlight(s.place);
    hide Run, WireOf, ValuesIn, StNum;
    if s.place.Sending? {
      BegunConsistent(w, vs, s.place.output, s.place.copies);
    } else {
      assert w + [] == w && vs + [] == vs;
    }
    LaterPublished(s.wire, sofar, s.queue);
  }

  lemma LaterPublished(wire: seq<Wire>, published: seq<Output>, later: seq<Output>)
    requires Consistent(wire, published)
    ensures Consistent(wire, published + later)
  {
  }

  // ---------------------------------------------------------------- nothing is forgotten, but heartbeats may stop

  /** While no publish is half done, a thread that has values queued will not settle for heartbeats. */
  predicate Remembers(s: State) {
    (s.place.Waiting? || s.place.Beating?) && !s.calling && s.queue != [] ==> !s.isPing
  }

  lemma {:induction false} NoValueForgotten(s: State, schedule: seq<Action>)
    requires Remembers(s)
    ensures Remembers(Run(s, schedule))
    decreases |schedule|
  {
    if schedule != [] {
      NoValueForgotten(Step(s, schedule[0]), schedule[1..]);
    }
  }

  /** In every run from the start of the program. */
  lemma EveryRunRemembers(schedule: seq<Action>)
    ensures Remembers(Run(INIT, schedule))
  {
    NoValueForgotten(INIT, schedule);
  }

  /** The thread idles without heartbeats: isPing is false and there is nothing to send. */
  predicate Silenced(s: State) { !s.isPing && s.queue == [] && !s.calling && (s.place.Waiting? || s.place.Draining?) }

  /** From there on the thread sends nothing at all until the next publish. */
  lemma {:induction false} SilenceLasts(s: State, n: nat)
    requires Silenced(s)
    ensures var t := Run(s, Repeat(Thread, n)); Silenced(t) && t.wire == s.wire
    decreases n
  {
    if n > 0 {
      assert Repeat(Thread, n)[1..] == Repeat(Thread, n - 1);
      SilenceLasts(Step(s, Thread), n - 1);
    }
  }

  lemma {:induction false} RunJoin(s: State, a: seq<Action>, b: seq<Action>)
    ensures Run(s, a + b) == Run(Run(s, a), b)
    decreases |a|
  {
    if a == [] {
      assert a + b == b;
    } else {
      assert (a + b)[1..] == a[1..] + b;
      RunJoin(Step(s, a[0]), a[1..], b);
    }
  }

  lemma RunOne(s: State, a: Action)
    ensures Run(s, [a]) == Step(s, a)
  {
    assert [a][1..] == [];
  }

  /** A schedule that leads to s, and one more step. */
  lemma Then(schedule: seq<Action>, s: State, a: Action) returns (longer: seq<Action>)
    requires Run(INIT, schedule) == s
    ensures Run(INIT, longer) == Step(s, a)
  {
    longer := schedule + [a];
    RunJoin(INIT, schedule, [a]);
    RunOne(s, a);
  }

  /** The rest of a value's round: five copies, isPing, lastFrame. */
  lemma {:induction false} SendRest(schedule: seq<Action>, s: State) returns (longer: seq<Action>, t: State)
    requires Run(INIT, schedule) == s && s.place.Sending? && s.place.copies <= COPIES
    ensures Run(INIT, longer) == t && t.place.Draining?
    ensures t.queue == s.queue && t.calling == s.calling && t.published == s.published
    decreases COPIES - s.place.copies
  {
    hide Run;
    longer := Then(schedule, s, Thread);
    var n := Step(s, Thread);
    if s.place.copies < COPIES {
      longer, t := SendRest(longer, n);
    } else {
      longer := Then(longer, n, Thread);
      t := Step(n, Thread);
    }
  }

  lemma {:induction false} RepeatSplits(s: State, m: nat, n: nat)
    ensures Run(s, Repeat(Thread, m + n)) == Run(Run(s, Repeat(Thread, m)), Repeat(Thread, n))
  {
    assert Repeat(Thread, m + n) == Repeat(Thread, m) + Repeat(Thread, n);
    RunJoin(s, Repeat(Thread, m), Repeat(Thread, n));
  }

  /** The thread has a value to send or a reason to send heartbeats. */
  predicate Busy(s: State) { !s.calling && (s.queue != [] || s.place.Sending? || s.isPing) }

  lemma {:induction false} StaysBusy(s: State, n: nat)
    requires Busy(s)
    ensures Busy(Run(s, Repeat(Thread, n)))
    decreases n
  {
    if n > 0 {
      assert Repeat(Thread, n)[1..] == Repeat(Thread, n - 1);
      StaysBusy(Step(s, Thread), n - 1);
    }
  }

  /** How far a place is from the next heartbeat, while the queue stays as it is. */
  function Distance(s: State): nat {
    match s.place
    case Beating => 0
    case Waiting => if s.isPing then 1 else 4
    case Draining => 2
    case Storing(_) => 3
    case Sending(_, n) => 5 + if n < COPIES then COPIES - n else 0
  }

  /** A busy thread comes to its next heartbeat. */
  lemma {:induction false} HeartbeatComes(s: State) returns (n: nat)
    requires Busy(s)
    ensures Run(s, Repeat(Thread, n)).place.Beating?
    decreases |s.queue|, Distance(s)
  {
    if s.place.Beating? {
      n := 0;
    } else {
      n := HeartbeatComes(Step(s, Thread));
      RepeatSplits(s, 1, n);
      assert Repeat(Thread, 1) == [Thread];
      RunOne(s, Thread);
      n := n + 1;
    }
  }

  /** The thread falls silent on its own. */
  ghost predicate FallsSilent(s: State) { exists n: nat :: Silenced(Run(s, Repeat(Thread, n))) }

  /** After n steps of its own the thread is about to send a heartbeat. */
  predicate BeatsAt(s: State, n: nat) { Run(s, Repeat(Thread, n)).place.Beating? }

  ghost predicate BeatsAfter(s: State, m: nat) { exists n: nat :: n >= m && BeatsAt(s, n) }

  /** However long the thread runs on its own, another heartbeat comes. */
  ghost predicate KeepsBeating(s: State) { forall m: nat :: BeatsAfter(s, m) }

  lemma BusyKeepsBeating(s: State)
    requires Busy(s)
    ensures KeepsBeating(s) && !FallsSilent(s)
  {
    forall m: nat ensures BeatsAfter(s, m) {
      StaysBusy(s, m);
      var n := HeartbeatComes(Run(s, Repeat(Thread, m)));
      RepeatSplits(s, m, n);
      assert BeatsAt(s, m + n);
    }
    forall n: nat ensures !Silenced(Run(s, Repeat(Thread, n))) {
      StaysBusy(s, n);
    }
  }

  lemma SilentStopsBeating(s: State, m: nat)
    requires Silenced(Run(s, Repeat(Thread, m)))
    ensures !KeepsBeating(s)
  {
    forall n: nat | n >= m ensures !BeatsAt(s, n) {
      RepeatSplits(s, m, n - m);
      SilenceLasts(Run(s, Repeat(Thread, m)), n - m);
    }
    assert !BeatsAfter(s, m);
  }

  /**
   The flag cleared too late: when a publish is about to clear isPing, the thread then falls silent exactly if the queue
   is empty and no value is being sent, that is, if the value has already gone through; else heartbeats keep coming.
   */
  lemma SilencedExactly(s: State)
    requires s.calling
    ensures var t := Step(s, ClearPing);
            && (FallsSilent(t) <==> s.queue == [] && !s.place.Sending?)
            && (KeepsBeating(t) <==> !FallsSilent(t))
  {
    var t := Step(s, ClearPing);
    if s.queue == [] && !s.place.Sending? {
      assert Run(t, []) == t && Run(t, [Thread]) == Step(t, Thread) by {
        RunOne(t, Thread);
      }
      assert Repeat(Thread, 0) == [] && Repeat(Thread, 1) == [Thread];
      var m := if t.place.Waiting? || t.place.Draining? then 0 else 1;
      assert Silenced(Run(t, Repeat(Thread, m)));
      SilentStopsBeating(t, m);
    } else {
      BusyKeepsBeating(t);
    }
  }

  /** And a publish whose value the thread takes before isPing is cleared leads there. */
  lemma SilenceIsReachable(v: Output) returns (schedule: seq<Action>)
    ensures Silenced(Run(INIT, schedule)) && Run(INIT, schedule).published == [v, v]
  {
    var s := INIT;
    assert Run(INIT, []) == INIT;
    hide Run;
    schedule := Then([], INIT, Enqueue(v));
    schedule := Then(schedule, Step(INIT, Enqueue(v)), ClearPing);
    var a := Step(Step(INIT, Enqueue(v)), ClearPing);
    schedule := Then(schedule, a, Thread);
    schedule := Then(schedule, Step(a, Thread), Thread);
    var b;
    schedule, b := SendRest(schedule, Step(Step(a, Thread), Thread));
    schedule := Then(schedule, b, Enqueue(v));
    var c := Step(b, Enqueue(v));
    schedule := Then(schedule, c, Thread);
    var d;
    schedule, d := SendRest(schedule, Step(c, Thread));
    schedule := Then(schedule, d, ClearPing);
  }
}
