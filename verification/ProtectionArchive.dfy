/**
 Protection action reports: sessions from a start action to the whole-group reset, and the archive made of each
 (libdtustorage/dtuarchivesproact.cpp; field offsets in include/dtureporthelper.h).
 */
module ProtectionArchive {
  import opened Bytes

  const SUMMARY_LENGTH: nat := 118
  const PROTACT_BEGIN: uint16 := 1
  const PROTACT_RESETWHOLE: uint16 := 3
  const LAST_FIELD_END: nat := 84

  /** A report that holds all fields read here. */
  type report = s: seq<byte> | |s| >= LAST_FIELD_END witness seq(LAST_FIELD_END, _ => 0)

  function TypeOf(s: report): uint16 { Of16(s[2..4]) }

  newtype uint64 = v: int | 0 <= v < 0x1_0000_0000_0000_0000

  /** Seconds and microseconds as one number; 64 bits hold every sum. */
  function TimeOf(s: report): uint64 { (Of32(s[12..16]) * 1000000 + Of32(s[16..20])) as uint64 }

  // ---------------------------------------------------------------- the summary of a session

  /** Ia Ib Ic I0 Ua Ub Uc U0 Ux Fm Fx */
  const SIMPLE_REPORT: seq<nat> := [26, 28, 30, 32, 46, 48, 50, 54, 52, 80, 82]

  function Fields(s: report, offsets: seq<nat>): (r: seq<byte>)
    requires forall k :: 0 <= k < |offsets| ==> offsets[k] + 2 <= LAST_FIELD_END
    ensures |r| == 2 * |offsets|
    decreases |offsets|
  {
    if offsets == [] then []
    else Fields(s, offsets[..|offsets| - 1]) + s[offsets[|offsets| - 1]..offsets[|offsets| - 1] + 2]
  }

  /** Time offset, then type and attribute. */
  function Slit(s: report): (r: seq<byte>)
    ensures |r| == 8
  {
    s[20..24] + s[2..6]
  }

  function Slits(data: seq<report>): (r: seq<byte>)
    ensures |r| == 8 * |data|
    decreases |data|
  {
    if data == [] then [] else Slits(data[..|data| - 1]) + Slit(data[|data| - 1])
  }

  /** The first report of a start action, or the first report. */
  function FirstAct(data: seq<report>, i: nat): report
    requires 0 < |data| && i <= |data|
    decreases |data| - i
  {
    if i == |data| then data[0] else if TypeOf(data[i]) == PROTACT_BEGIN then data[i] else FirstAct(data, i + 1)
  }

  function Values(r: report): (w: seq<byte>)
    ensures |w| == 22
  {
    Fields(r, SIMPLE_REPORT)
  }

  /** What follows the values: two zeros, the number of reports, when the first one began. */
  function Trailer(data: seq<report>): (w: seq<byte>)
    requires 0 < |data|
    ensures |w| == 16
  {
    [0, 0] + Le32(|data| % 0x1_0000_0000) + data[0][12..16] + data[0][16..20] + data[0][24..26]
  }

  function Head(data: seq<report>): (r: seq<byte>)
    requires 0 < |data|
    ensures |r| == 38
  {
    Values(FirstAct(data, 0)) + Trailer(data)
  }

  function Padded(w: seq<byte>): (s: seq<byte>)
    requires |w| <= SUMMARY_LENGTH
    ensures |s| == SUMMARY_LENGTH
  {
    w + seq(SUMMARY_LENGTH - |w|, _ => 0)
  }

  /** The summary, or the exception of a write past its 118 bytes. */
  function Summary(data: seq<report>): (r: Access<seq<byte>>)
    requires 0 < |data|
    ensures r.Done? <==> |data| <= 10
    ensures !r.Overrun?
  {
    if 38 + 8 * |data| <= SUMMARY_LENGTH then Access.Done(Padded(Head(data) + Slits(data))) else Throws
  }

  lemma SetPadded(w: seq<byte>, x: seq<byte>)
    requires |w| <= SUMMARY_LENGTH && |x| <= 4
    ensures Set(Padded(w), |w|, x)
         == if |w| + |x| <= SUMMARY_LENGTH then Access.Done(Padded(w + x)) else Throws
  {
    if |w| + |x| <= SUMMARY_LENGTH {
      assert Padded(w)[..|w|] == w;
      assert Padded(w)[|w| + |x|..] == seq(SUMMARY_LENGTH - |w| - |x|, _ => 0);
    }
  }

  /** The part of the summary already written; the offset is its length. */
  class SummaryWriter {
    var data: seq<byte>
    var offset: uint32

    predicate Holds(w: seq<byte>)
      reads this
    {
      |w| <= SUMMARY_LENGTH && data == Padded(w) && offset == |w|
    }

    constructor ()
      ensures Holds([])
    {
      data, offset := seq(SUMMARY_LENGTH, _ => 0), 0;
      assert Padded([]) == seq(SUMMARY_LENGTH, _ => 0);
    }

    method Put(ghost w: seq<byte>, x: seq<byte>) returns (ok: bool)
      requires Holds(w) && |x| <= 4
      modifies this
      ensures ok <==> |w| + |x| <= SUMMARY_LENGTH
      ensures ok ==> Holds(w + x)
    {
      SetPadded(w, x);
      var r := Set(data, offset, x);
      if !r.Done? {
        return false;
      }
      data := r.value;
      offset := offset + |x|;
      ok := true;
    }

    /** The loops of form_archives_file that fill the fixed part. */
    method PutHead(reports: seq<report>)
      requires 0 < |reports| && Holds([])
      modifies this
      ensures Holds(Head(reports))
    {
      var first := reports[0];
      var i := 0;
      while i < |reports|
        invariant i <= |reports| && first == reports[0] && FirstAct(reports, i) == FirstAct(reports, 0)
      {
        if TypeOf(reports[i]) == PROTACT_BEGIN {
          first := reports[i];
          break;
        }
        i := i + 1;
      }
      assert first == FirstAct(reports, 0);
      ghost var w := PutFields(first);
      ghost var values := w;
      hide Fields, FirstAct, Values;
      var ok := Put(w, [0, 0]);
      w := w + [0, 0];
      ok := Put(w, Le32(|reports| % 0x1_0000_0000));
      w := w + Le32(|reports| % 0x1_0000_0000);
      ok := Put(w, reports[0][12..16]);
      w := w + reports[0][12..16];
      ok := Put(w, reports[0][16..20]);
      w := w + reports[0][16..20];
      ok := Put(w, reports[0][24..26]);
      assert w + reports[0][24..26] == values + Trailer(reports);
    }

    method PutFields(first: report) returns (ghost w: seq<byte>)
      requires Holds([])
      modifies this
      ensures Holds(w) && w == Values(first)
    {
      w := [];
      for k := 0 to |SIMPLE_REPORT|
        invariant Holds(w) && w == Fields(first, SIMPLE_REPORT[..k])
      {
        assert SIMPLE_REPORT[..k + 1][..k] == SIMPLE_REPORT[..k];
        var at := SIMPLE_REPORT[k];
        var ok := Put(w, first[at..at + 2]);
        w := w + first[at..at + 2];
      }
      assert SIMPLE_REPORT[..|SIMPLE_REPORT|] == SIMPLE_REPORT;
    }

    /** The loop over all reports; false when a write would pass the end. */
    method PutSlits(reports: seq<report>, ghost head: seq<byte>) returns (ok: bool)
      requires Holds(head) && |head| == 38
      modifies this
      ensures ok <==> |reports| <= 10
      ensures ok ==> Holds(head + Slits(reports))
    {
      assert head + [] == head;
      for i := 0 to |reports|
        invariant i <= 10 && Holds(head + Slits(reports[..i]))
      {
        ghost var w := head + Slits(reports[..i]);
        assert reports[..i + 1][..i] == reports[..i];
        ok := Put(w, reports[i][20..24]);
        if !ok {
          return;
        }
        ok := Put(w + reports[i][20..24], reports[i][2..6]);
        assert w + reports[i][20..24] + reports[i][2..6] == head + Slits(reports[..i + 1]);
      }
      assert reports[..|reports|] == reports;
      ok := true;
    }
  }

  method MakeSummary(data: seq<report>) returns (r: Access<seq<byte>>)
    requires 0 < |data|
    ensures r == Summary(data)
  {
    var proto := new SummaryWriter();
    proto.PutHead(data);
    var ok := proto.PutSlits(data, Head(data));
    if !ok {
      return Throws;
    }
    r := Access.Done(proto.data);
  }

  lemma {:induction false} SlitAt(data: seq<report>, k: nat)
    requires k < |data|
    ensures Slits(data)[8 * k..8 * k + 8] == Slit(data[k])
    decreases |data|
  {
    hide Slit;
    var init := data[..|data| - 1];
    if k < |init| {
      SlitAt(init, k);
      assert Slits(data)[8 * k..8 * k + 8] == Slits(init)[8 * k..8 * k + 8];
    } else {
      assert Slits(data)[8 * k..8 * k + 8] == Slit(data[k]);
    }
  }

  /**
   What a summary says: how many reports, when the session began, and of each report its time offset, type and
   attribute.
   */
  lemma SummaryReads(data: seq<report>, k: nat)
    requires k < |data| <= 10
    ensures var s := Summary(data).value;
            && Of32(s[24..28]) == |data| && s[28..38] == data[0][12..20] + data[0][24..26]
            && s[38 + 8 * k..38 + 8 * k + 8] == data[k][20..24] + data[k][2..6]
  {
    var (head, slits) := (Head(data), Slits(data));
    var s := Summary(data).value;
    SlitAt(data, k);
    Le32RoundTrip(|data|);
    HeadFields(data);
    hide Head, Slits;
    assert s[..38] == head;
    assert s[24..28] == head[24..28] && s[28..38] == head[28..38];
    assert s[38 + 8 * k..38 + 8 * k + 8] == slits[8 * k..8 * k + 8];
  }

  lemma HeadFields(data: seq<report>)
    requires 0 < |data| <= 10
    ensures Head(data)[24..28] == Le32(|data|) && Head(data)[28..38] == data[0][12..20] + data[0][24..26]
  {
    hide Values, FirstAct, Le32;
    assert data[0][12..20] == data[0][12..16] + data[0][16..20];
    var trailer := Trailer(data);
    assert trailer == [0, 0] + Le32(|data|) + (data[0][12..20] + data[0][24..26]);
    assert Head(data)[24..28] == trailer[2..6] && Head(data)[28..38] == trailer[6..16];
  }

  /** The report whose values a summary shows: the first start action, or the first report if there is none. */
  lemma {:induction false} FirstActIs(data: seq<report>, i: nat)
    requires i <= |data| && data != [] && forall k :: 0 <= k < i ==> data[k][2..4] != [1, 0]
    ensures var none := forall k :: 0 <= k < |data| ==> data[k][2..4] != [1, 0];
            if none then FirstAct(data, i) == data[0]
            else exists k :: 0 <= k < |data| && FirstAct(data, i) == data[k] && data[k][2..4] == [1, 0]
                          && forall j :: 0 <= j < k ==> data[j][2..4] != [1, 0]
    decreases |data| - i
  {
    if i < |data| {
      ReportFields(data[i]);
      hide TypeOf;
      if TypeOf(data[i]) != PROTACT_BEGIN {
        FirstActIs(data, i + 1);
      }
    }
  }

  lemma {:induction false} FieldAt(s: report, offsets: seq<nat>, k: nat)
    requires k < |offsets| && forall j :: 0 <= j < |offsets| ==> offsets[j] + 2 <= LAST_FIELD_END
    ensures Fields(s, offsets)[2 * k..2 * k + 2] == s[offsets[k]..offsets[k] + 2]
    decreases |offsets|
  {
    var n := |offsets| - 1;
    var (w, init) := (Fields(s, offsets), Fields(s, offsets[..n]));
    if k < n {
      FieldAt(s, offsets[..n], k);
      assert w[2 * k..2 * k + 2] == init[2 * k..2 * k + 2];
    } else {
      assert w[2 * k..2 * k + 2] == s[offsets[n]..offsets[n] + 2];
    }
  }

  /** Where in a report the k-th of the values shown stands. */
  function OffsetOf(k: nat): nat
    requires k < 11
  {
    match k
    case 0 => 26 case 1 => 28 case 2 => 30 case 3 => 32 case 4 => 46 case 5 => 48
    case 6 => 50 case 7 => 54 case 8 => 52 case 9 => 80 case 10 => 82
  }

  lemma SimpleReport()
    ensures |SIMPLE_REPORT| == 11
    ensures forall j :: 0 <= j < 11 ==> SIMPLE_REPORT[j] == OffsetOf(j) <= LAST_FIELD_END - 2
  {
    assert SIMPLE_REPORT[0] == 26 && SIMPLE_REPORT[1] == 28 && SIMPLE_REPORT[2] == 30 && SIMPLE_REPORT[3] == 32;
    assert SIMPLE_REPORT[4] == 46 && SIMPLE_REPORT[5] == 48 && SIMPLE_REPORT[6] == 50 && SIMPLE_REPORT[7] == 54;
    assert SIMPLE_REPORT[8] == 52 && SIMPLE_REPORT[9] == 80 && SIMPLE_REPORT[10] == 82;
  }

  lemma HeadIs(data: seq<report>)
    requires 0 < |data|
    ensures Head(data)[..22] == Values(FirstAct(data, 0)) && Head(data)[22..24] == [0, 0]
  {
    TrailerStarts(data);
    hide Values, FirstAct, Trailer;
    assert Head(data)[22..24] == Trailer(data)[..2];
  }

  lemma TrailerStarts(data: seq<report>)
    requires 0 < |data|
    ensures Trailer(data)[..2] == [0, 0]
  {
    hide Le32;
  }

  lemma FieldOf(r: report, k: nat)
    requires k < 11
    ensures OffsetOf(k) <= 82 && Values(r)[2 * k..2 * k + 2] == r[OffsetOf(k)..OffsetOf(k) + 2]
  {
    SimpleReport();
    var offsets := SIMPLE_REPORT;
    assert Values(r) == Fields(r, offsets);
    hide *;
    FieldAt(r, offsets, k);
  }

  lemma SummaryIs(data: seq<report>)
    requires 0 < |data| <= 10
    ensures Summary(data) == Access.Done(Padded(Head(data) + Slits(data)))
    ensures |Head(data) + Slits(data)| == 38 + 8 * |data| <= SUMMARY_LENGTH == 118
  {
    hide Head, Slits, Padded;
  }

  /** The values in a summary: Ia Ib Ic I0 Ua Ub Uc U0 Ux Fm Fx, then two zeros; zeros also behind the reports. */
  lemma SummaryValues(data: seq<report>, k: nat)
    requires 0 < |data| <= 10 && k < 11
    ensures OffsetOf(k) <= 82
    ensures var (s, r) := (Summary(data).value, FirstAct(data, 0));
            && |s| == 118 && s[2 * k..2 * k + 2] == r[OffsetOf(k)..OffsetOf(k) + 2] && s[22..24] == [0, 0]
            && forall j :: 38 + 8 * |data| <= j < 118 ==> s[j] == 0
  {
    hide *;
    FieldOf(FirstAct(data, 0), k);
    HeadIs(data);
    SummaryIs(data);
    var head := Head(data);
    var (s, w) := (Summary(data).value, head + Slits(data));
    PaddedIs(w);
    assert head[2 * k..2 * k + 2] == head[..22][2 * k..2 * k + 2];
    assert w[2 * k..2 * k + 2] == head[2 * k..2 * k + 2] && w[22..24] == head[22..24];
    assert s[2 * k..2 * k + 2] == s[..|w|][2 * k..2 * k + 2] && s[22..24] == s[..|w|][22..24];
  }

  lemma PaddedIs(w: seq<byte>)
    requires |w| <= SUMMARY_LENGTH
    ensures Padded(w)[..|w|] == w && forall j :: |w| <= j < SUMMARY_LENGTH ==> Padded(w)[j] == 0
  {
  }

  // ---------------------------------------------------------------- sessions

  /** Open sessions by time, the files written and the summaries stored. */
  datatype State = State(sessions: map<uint64, seq<report>>, files: seq<seq<report>>, summaries: seq<seq<byte>>)

  const INIT := State(map[], [], [])

  datatype Ending = Fine | Thrown

  /** form_archives_file: the file is written first, then the summary, unless that throws. */
  function Form(st: State, data: seq<report>): (State, Ending)
    requires data != []
  {
    var filed := st.(files := st.files + [data]);
    match Summary(data)
    case Done(s) => (filed.(summaries := st.summaries + [s]), Fine)
    case _ => (filed, Thrown)
  }

  /** add_archives_data; reports of any other than the configured size are refused. */
  function Add(st: State, size: nat, data: seq<byte>): (State, Ending)
    requires size >= LAST_FIELD_END
  {
    if |data| != size then (st, Thrown)
    else
      var r: report := data;
      var t := TimeOf(r);
      if t in st.sessions then
        var grown := st.sessions[t] + [r];
        var open := st.(sessions := st.sessions[t := grown]);
        if TypeOf(r) != PROTACT_RESETWHOLE then (open, Fine)
        else
          var (formed, ending) := Form(open, grown);
          if ending == Fine then (formed.(sessions := formed.sessions - {t}), Fine) else (formed, Thrown)
      else if TypeOf(r) == PROTACT_BEGIN then (st.(sessions := map[t := [r]]), Fine)
      else (st, Fine)
  }

  function Run(st: State, size: nat, reports: seq<seq<byte>>): State
    requires size >= LAST_FIELD_END
    decreases |reports|
  {
    if reports == [] then st else Run(Add(st, size, reports[0]).0, size, reports[1..])
  }

  class ArchiveProtact {
    const size: nat
    var protAct: map<uint64, seq<report>>
    var files: seq<seq<report>>
    var summaries: seq<seq<byte>>

    constructor (size: nat)
      ensures this.size == size && AsState() == INIT
    {
      this.size := size;
      protAct, files, summaries := map[], [], [];
    }

    function AsState(): State
      reads this
    {
      State(protAct, files, summaries)
    }

    method FormArchivesFile(data: seq<report>) returns (ending: Ending)
      requires data != []
      modifies `files, `summaries
      ensures (AsState(), ending) == Form(old(AsState()), data)
    {
      files := files + [data];
      var summary := MakeSummary(data);
      if !summary.Done? {
        return Thrown;
      }
      summaries := summaries + [summary.value];
      ending := Fine;
    }

    method AddArchivesData(data: seq<byte>) returns (ending: Ending)
      requires size >= LAST_FIELD_END
      modifies this
      ensures (AsState(), ending) == Add(old(AsState()), size, data)
    {
      hide Summary;
      if |data| != size {
        return Thrown;
      }
      var r: report := data;
      var acttime := TimeOf(r);
      var acttype := TypeOf(r);
      if acttime in protAct {
        protAct := protAct[acttime := protAct[acttime] + [r]];
        if acttype == PROTACT_RESETWHOLE {
          ending := FormArchivesFile(protAct[acttime]);
          if ending == Thrown {
            return;
          }
          protAct := protAct - {acttime};
        }
      } else {
        if acttype == PROTACT_BEGIN {
          protAct := map[];
          protAct := protAct[acttime := [r]];
        }
      }
      ending := Fine;
    }
  }

  // ---------------------------------------------------------------- every run of reports

  /** Reports of one timestamp, from a start action on; a reset can only stand past the tenth. */
  predicate Session(frames: seq<report>) {
    && frames != [] && TypeOf(frames[0]) == PROTACT_BEGIN
    && forall k :: 0 <= k < |frames| ==>
      TimeOf(frames[k]) == TimeOf(frames[0]) && (TypeOf(frames[k]) == PROTACT_RESETWHOLE ==> k >= 10)
  }

  /** A session with the reset that closes it. */
  predicate Closed(frames: seq<report>) {
    && |frames| > 1 && Session(frames[..|frames| - 1])
    && TimeOf(frames[|frames| - 1]) == TimeOf(frames[0]) && TypeOf(frames[|frames| - 1]) == PROTACT_RESETWHOLE
  }

  predicate Orderly(st: State) {
    && (forall t :: t in st.sessions ==> Session(st.sessions[t]) && TimeOf(st.sessions[t][0]) == t)
    && (forall t, u :: t in st.sessions && u in st.sessions ==> t == u)
    && forall k :: 0 <= k < |st.files| ==> Closed(st.files[k])
  }

  lemma GrownSession(frames: seq<report>, r: report)
    requires Session(frames) && TimeOf(r) == TimeOf(frames[0])
    ensures TypeOf(r) == PROTACT_RESETWHOLE ==> Closed(frames + [r])
    ensures TypeOf(r) != PROTACT_RESETWHOLE || |frames| >= 10 ==> Session(frames + [r])
  {
    hide TypeOf, TimeOf;
    assert (frames + [r])[..|frames|] == frames;
  }

  lemma AddOrderly(st: State, size: nat, data: seq<byte>)
    requires size >= LAST_FIELD_END && Orderly(st)
    ensures Orderly(Add(st, size, data).0)
  {
    hide Session, Closed, TypeOf, TimeOf;
    if |data| == size {
      var t := TimeOf(data);
      if t in st.sessions {
        SessionStarts(st.sessions[t]);
        GrownSession(st.sessions[t], data);
        SessionStarts(st.sessions[t] + [data]);
      } else if TypeOf(data) == PROTACT_BEGIN {
        NewSession(data);
      }
    }
  }

  lemma SessionStarts(frames: seq<report>)
    ensures Session(frames) ==> frames != []
  {
  }

  lemma NewSession(r: report)
    requires TypeOf(r) == PROTACT_BEGIN
    ensures Session([r])
  {
  }

  /**
   In every run of reports at most one session is open, it starts with a start action and all its reports have one
   timestamp; every file starts the same way, ends with a reset, and holds an earlier one only past its tenth report.
   */
  lemma {:induction false} RunOrderly(st: State, size: nat, reports: seq<seq<byte>>)
    requires size >= LAST_FIELD_END && Orderly(st)
    ensures Orderly(Run(st, size, reports))
    decreases |reports|
  {
    hide Orderly, Add;
    if reports != [] {
      AddOrderly(st, size, reports[0]);
      RunOrderly(Add(st, size, reports[0]).0, size, reports[1..]);
    }
  }

  /** In every run from the start of the program. */
  lemma EveryRunOrderly(size: nat, reports: seq<seq<byte>>)
    requires size >= LAST_FIELD_END
    ensures Orderly(Run(INIT, size, reports))
  {
    RunOrderly(INIT, size, reports);
  }

  // ---------------------------------------------------------------- from the start action to the file

  /** The fields by their bytes, in little-endian order. */
  lemma ReportFields(s: report)
    ensures TypeOf(s) == s[2] as int + 0x100 * s[3] as int
    ensures TypeOf(s) == PROTACT_BEGIN <==> s[2..4] == [1, 0]
    ensures TypeOf(s) == PROTACT_RESETWHOLE <==> s[2..4] == [3, 0]
    ensures TimeOf(s) as int == Of32(s[12..16]) * 1000000 + Of32(s[16..20])
  {
    assert s[2..4] == [s[2], s[3]];
  }

  /** With less than a million microseconds, the time tells seconds and microseconds. */
  lemma TimeTells(s: report, u: report)
    requires Of32(s[16..20]) < 1000000 && Of32(u[16..20]) < 1000000
    ensures TimeOf(s) == TimeOf(u) <==> s[12..20] == u[12..20]
  {
    assert s[12..20] == s[12..16] + s[16..20] && u[12..20] == u[12..16] + u[16..20];
    if s[12..20] == u[12..20] {
      assert s[12..16] == s[12..20][..4] && u[12..16] == u[12..20][..4];
      assert s[16..20] == s[12..20][4..] && u[16..20] == u[12..20][4..];
    }
    Of32Tells(s[12..16], u[12..16]);
    Of32Tells(s[16..20], u[16..20]);
    hide Of32;
  }

  predicate IsStart(s: seq<byte>) { |s| >= 4 && s[2..4] == [1, 0] }

  predicate IsReset(s: seq<byte>) { |s| >= 4 && s[2..4] == [3, 0] }

  /** Of the same time: as many seconds and microseconds. */
  predicate SameTime(s: seq<byte>, u: seq<byte>) {
    && |s| >= 20 && |u| >= 20
    && Of32(s[12..16]) * 1000000 + Of32(s[16..20]) == Of32(u[12..16]) * 1000000 + Of32(u[16..20])
  }

  lemma FieldsDecide(s: report, r: report)
    ensures IsStart(s) <==> TypeOf(s) == PROTACT_BEGIN
    ensures IsReset(s) <==> TypeOf(s) == PROTACT_RESETWHOLE
    ensures SameTime(s, r) <==> TimeOf(s) == TimeOf(r)
  {
    ReportFields(s);
    ReportFields(r);
    hide TypeOf, TimeOf;
  }

  /** The reports that belong to the action r starts. */
  function Own(r: report, reports: seq<seq<byte>>): (own: seq<report>)
    decreases |reports|
  {
    if reports == [] then []
    else
      var head: seq<report> := if |reports[0]| == |r| && SameTime(reports[0], r) then [reports[0]] else [];
      head + Own(r, reports[1..])
  }

  /** Neither the reset of the action nor the start of another. */
  predicate KeepsOpen(r: report, s: seq<byte>) {
    |s| == |r| ==> if SameTime(s, r) then !IsReset(s) else !IsStart(s)
  }

  lemma Appends(st: State, t: uint64, r: report, frames: seq<report>)
    requires st.sessions == map[t := frames] && TimeOf(r) == t && TypeOf(r) != PROTACT_RESETWHOLE
    ensures Add(st, |r|, r).0 == st.(sessions := map[t := frames + [r]])
  {
    hide TypeOf, TimeOf;
    assert map[t := frames][t := frames + [r]] == map[t := frames + [r]];
  }

  lemma Ignores(st: State, size: nat, s: seq<byte>)
    requires size >= LAST_FIELD_END
    requires |s| == size ==> TimeOf(s) !in st.sessions && TypeOf(s) != PROTACT_BEGIN
    ensures Add(st, size, s).0 == st
  {
  }

  /** One report while the action is recorded. */
  lemma RecordsOwn(st: State, r: report, s: seq<byte>, frames: seq<report>)
    requires st.sessions == map[TimeOf(r) := frames] && KeepsOpen(r, s)
    ensures Add(st, |r|, s).0 == st.(sessions := map[TimeOf(r) := frames + Own(r, [s])])
  {
    hide Add, Own, TypeOf, TimeOf, SameTime, IsStart, IsReset;
    OwnOne(r, s);
    if |s| != |r| {
      assert frames + [] == frames;
      Ignores(st, |r|, s);
    } else {
      FieldsDecide(s, r);
      if SameTime(s, r) {
        Appends(st, TimeOf(r), s, frames);
      } else {
        assert frames + [] == frames;
        Ignores(st, |r|, s);
      }
    }
  }

  lemma OwnOne(r: report, s: seq<byte>)
    ensures Own(r, [s]) == if |s| == |r| && SameTime(s, r) then [s] else []
  {
    hide SameTime;
    var one := [s];
    assert one[1..] == [] && Own(r, one[1..]) == [];
  }

  lemma OwnStep(r: report, reports: seq<seq<byte>>)
    requires reports != []
    ensures Own(r, reports) == Own(r, [reports[0]]) + Own(r, reports[1..])
  {
    OwnOne(r, reports[0]);
    hide SameTime;
  }

  lemma {:induction false} RecordsAll(st: State, r: report, reports: seq<seq<byte>>, frames: seq<report>)
    requires st.sessions == map[TimeOf(r) := frames] && forall k :: 0 <= k < |reports| ==> KeepsOpen(r, reports[k])
    ensures Run(st, |r|, reports) == st.(sessions := map[TimeOf(r) := frames + Own(r, reports)])
    decreases |reports|
  {
    hide Add, KeepsOpen, SameTime, TimeOf;
    if reports == [] {
      assert frames + [] == frames;
    } else {
      var own, later := Own(r, [reports[0]]), Own(r, reports[1..]);
      RecordsOwn(st, r, reports[0], frames);
      OwnStep(r, reports);
      hide Own;
      assert frames + own + later == frames + (own + later);
      RecordsAll(st.(sessions := map[TimeOf(r) := frames + own]), r, reports[1..], frames + own);
    }
  }

  /** A start action drops whatever else was recorded and opens its own session. */
  lemma StartOpens(st: State, r: report)
    requires IsStart(r) && TimeOf(r) !in st.sessions
    ensures Run(st, |r|, [r]) == st.(sessions := map[TimeOf(r) := [r]])
  {
    FieldsDecide(r, r);
    hide TypeOf, TimeOf, IsStart;
    var one := [r];
    assert one[1..] == [];
  }

  lemma {:induction false} RunJoins(st: State, size: nat, x: seq<seq<byte>>, y: seq<seq<byte>>)
    requires size >= LAST_FIELD_END
    ensures Run(st, size, x + y) == Run(Run(st, size, x), size, y)
    decreases |x|
  {
    hide Add;
    if x == [] {
      assert x + y == y;
    } else {
      assert (x + y)[1..] == x[1..] + y;
      RunJoins(Add(st, size, x[0]).0, size, x[1..], y);
    }
  }

  lemma ResetFiles(st: State, r: report, reset: report, frames: seq<report>)
    requires st.sessions == map[TimeOf(r) := frames] && |reset| == |r| && IsReset(reset) && SameTime(reset, r)
    ensures var all := frames + [reset];
            Run(st, |r|, [reset])
            == State(if |all| <= 10 then map[] else map[TimeOf(r) := all], st.files + [all],
                     if |all| <= 10 then st.summaries + [Summary(all).value] else st.summaries)
  {
    FieldsDecide(reset, r);
    hide TypeOf, TimeOf, Summary, SameTime, IsReset;
    var all, one := frames + [reset], [reset];
    assert one[1..] == [];
    var t := TimeOf(r);
    assert map[t := frames][t := all] == map[t := all] && map[t := all] - {t} == map[];
  }

  /**
   An action from its start to its reset, whatever comes between them but another start: the file holds exactly its own
   reports in order, and up to ten of them it has a summary and its session is gone.
   */
  lemma ActionIsFiled(st: State, r: report, reports: seq<seq<byte>>, reset: report)
    requires IsStart(r) && TimeOf(r) !in st.sessions && forall k :: 0 <= k < |reports| ==> KeepsOpen(r, reports[k])
    requires |reset| == |r| && IsReset(reset) && SameTime(reset, r)
    ensures var all := [r] + Own(r, reports) + [reset];
            Run(st, |r|, [r] + reports + [reset])
            == State(if |all| <= 10 then map[] else map[TimeOf(r) := all], st.files + [all],
                     if |all| <= 10 then st.summaries + [Summary(all).value] else st.summaries)
  {
    hide Run, Own, TimeOf, SameTime, KeepsOpen, IsStart, IsReset, Summary;
    RunJoins(st, |r|, [r] + reports, [reset]);
    RunJoins(st, |r|, [r], reports);
    StartOpens(st, r);
    var open := st.(sessions := map[TimeOf(r) := [r]]);
    RecordsAll(open, r, reports, [r]);
    ResetFiles(st.(sessions := map[TimeOf(r) := [r] + Own(r, reports)]), r, reset, [r] + Own(r, reports));
  }

  /** A report is answered with an exception exactly if it has the wrong size or ends an action of more than ten. */
  lemma ThrowsExactly(st: State, size: nat, s: seq<byte>)
    requires size >= LAST_FIELD_END
    ensures Add(st, size, s).1 == Thrown <==>
              || |s| != size
              || (TimeOf(s) in st.sessions && IsReset(s) && |st.sessions[TimeOf(s)]| >= 10)
  {
    if |s| == size {
      FieldsDecide(s, s);
      hide TypeOf, TimeOf, IsReset, SameTime;
    }
  }

  /** Reports that are no start action are ignored while none is recorded, and so are reports of another size. */
  lemma NothingWithoutStart(st: State, size: nat, s: seq<byte>)
    requires size >= LAST_FIELD_END && (|s| != size || (st.sessions == map[] && !IsStart(s)))
    ensures Run(st, size, [s]) == st && (Add(st, size, s).1 == Thrown <==> |s| != size)
  {
    if |s| == size {
      ReportFields(s);
    }
    var one := [s];
    assert one[1..] == [];
  }

  /** So a file of up to eleven reports ends with its only reset, and up to ten its summary was stored too. */
  lemma FileEndsWithItsOnlyReset(frames: seq<report>)
    requires Closed(frames) && |frames| <= 11
    ensures forall k :: 0 <= k < |frames| ==> (TypeOf(frames[k]) == PROTACT_RESETWHOLE <==> k == |frames| - 1)
    ensures Summary(frames).Done? <==> |frames| <= 10
  {
    hide TypeOf, TimeOf, Summary;
    assert forall k :: 0 <= k < |frames| - 1 ==> frames[k] == frames[..|frames| - 1][k];
  }

  /** A reset closes its session exactly if the session then has at most ten reports; a longer one stays open. */
  lemma ResetCloses(st: State, size: nat, data: seq<byte>)
    requires |data| == size >= LAST_FIELD_END && TimeOf(data) in st.sessions && TypeOf(data) == PROTACT_RESETWHOLE
    ensures var (next, ending) := Add(st, size, data);
            var frames := st.sessions[TimeOf(data)] + [data];
            && next.files == st.files + [frames]
            && (TimeOf(data) !in next.sessions <==> |frames| <= 10)
            && (ending == Thrown <==> |frames| > 10)
            && next.summaries == if |frames| <= 10 then st.summaries + [Summary(frames).value] else st.summaries
  {
    hide Summary, TypeOf, TimeOf;
  }
}
