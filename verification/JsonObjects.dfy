/**
 What parsing makes of any document, whoever wrote it: objects hold the last value of each key, in key order; and what
 was parsed once comes back unchanged when it is printed and parsed again.
 */
module JsonObjects {
  import opened JsonNumber
  import opened JsonValue
  import opened JsonReader
  import opened JsonWriter
  import JsonString
  import JsonRoundTrip

  // ---------------------------------------------------------------- the members a document lists

  lemma ScalarForgets(f: Features, doc: string, t: Token, held: Json, other: Json)
    requires t.start <= t.end <= |doc| && !t.kind.ObjectBegin? && !t.kind.ArrayBegin?
    requires t.start == t.end ==> t.kind.EndOfStream?
    ensures var (r, s) := (ScalarReading(f, doc, t, held), ScalarReading(f, doc, t, other));
            r.Done? && s.Done? && (r.ok <==> s.ok) && (r.ok ==> r == s)
  {
    hide JsonString.DecodeString, DecodeNumber, TokenText, TokenBody;
  }

  /** Where a value is read without error, what its node held before plays no part. */
  lemma HeldIsForgotten(f: Features, doc: string, p: nat, depth: nat, held: Json, other: Json)
    requires p <= |doc|
    ensures var (r, s) := (ReadValue(f, doc, p, depth, held), ReadValue(f, doc, p, depth, other));
            && (r.Thrown? <==> s.Thrown?) && (r.Done? ==> (r.ok <==> s.ok)) && (r.Done? && r.ok ==> r == s)
  {
    hide ReadMembers, ReadItems, FirstToken, ScalarReading;
    var t := FirstToken(f, doc, p);
    if !t.kind.ObjectBegin? && !t.kind.ArrayBegin? {
      ScalarForgets(f, doc, t, held, other);
    }
  }

  /**
   The members of an object in the order in which the document lists them, repeated keys included. What separates them
   is not looked at again: it is a comma, or whatever stands behind a comment.
   */
  function Listed(f: Features, doc: string, p: nat, depth: nat): seq<Member>
    requires p <= |doc|
    decreases |doc| - p
  {
    var t := SkipComments(f, doc, p);
    if !StartsMember(f, t) || KeyOf(f, doc, t).Bad? then []
    else
      var colon := ReadToken(f, doc, t.end);
      var v := ReadValue(f, doc, colon.end, depth + 1, Null);
      if v.Thrown? || !v.ok then []
      else
        var last := SkipComments(f, doc, v.pos);
        [Member(KeyOf(f, doc, t).text, v.value)] + if last.kind.ObjectEnd? then [] else Listed(f, doc, last.end, depth)
  }

  lemma GoodValue(f: Features, doc: string, p: nat, depth: nat, ms: seq<Member>, key: string)
    requires p <= |doc|
    requires var r := ReadMemberValue(f, doc, p, depth, ms, key); r.Done? && r.ok
    ensures var (r, v) := (ReadMemberValue(f, doc, p, depth, ms, key), ReadValue(f, doc, p, depth + 1, Null));
            && v.Done? && v.ok
            && var (last, next) := (SkipComments(f, doc, v.pos), Assign(ms, key, v.value));
            && ReadToken(f, doc, v.pos).kind in {ObjectEnd, ArraySeparator, Comment}
            && r == if last.kind.ObjectEnd? then Done(true, last.end, Obj(next), [])
                    else ReadMembers(f, doc, last.end, depth, next, key)
  {
    HeldIsForgotten(f, doc, p, depth + 1, Find(ms, key), Null);
    hide ReadValue, ReadMembers, SkipComments, ReadToken, Assign, Recover, Find;
  }

  lemma GoodMember(f: Features, doc: string, t: Token, depth: nat, ms: seq<Member>, key: string)
    requires t.start < t.end <= |doc|
    requires var r := ReadMember(f, doc, t, depth, ms, key); r.Done? && r.ok
    ensures |key| < MAX_KEY && (f.rejectDupKeys ==> !HasMember(ms, key))
    ensures var colon := ReadToken(f, doc, t.end);
            && colon.kind.MemberSeparator?
            && ReadMember(f, doc, t, depth, ms, key) == ReadMemberValue(f, doc, colon.end, depth, ms, key)
  {
    hide ReadMemberValue, ReadToken, Recover, HasMember;
  }

  /** A round of the loop that ends well. */
  lemma GoodRound(f: Features, doc: string, p: nat, depth: nat, ms: seq<Member>, name: string)
    requires p <= |doc|
    requires var r := ReadMembers(f, doc, p, depth, ms, name); r.Done? && r.ok
    ensures var (r, t) := (ReadMembers(f, doc, p, depth, ms, name), SkipComments(f, doc, p));
            if t.kind.ObjectEnd? then r == Done(true, t.end, Obj(ms), []) && Listed(f, doc, p, depth) == []
            else
              && StartsMember(f, t) && KeyOf(f, doc, t).Text?
              && var (key, colon) := (KeyOf(f, doc, t).text, ReadToken(f, doc, t.end));
              && colon.kind.MemberSeparator? && |key| < MAX_KEY && (f.rejectDupKeys ==> !HasMember(ms, key))
              && var v := ReadValue(f, doc, colon.end, depth + 1, Null);
              && v.Done? && v.ok && ReadToken(f, doc, v.pos).kind in {ObjectEnd, ArraySeparator, Comment}
              && var (last, next) := (SkipComments(f, doc, v.pos), Assign(ms, key, v.value));
              if last.kind.ObjectEnd? then
                r == Done(true, last.end, Obj(next), []) && Listed(f, doc, p, depth) == [Member(key, v.value)]
              else
                && r == ReadMembers(f, doc, last.end, depth, next, key)
                && Listed(f, doc, p, depth) == [Member(key, v.value)] + Listed(f, doc, last.end, depth)
  {
    hide ReadMember, ReadMemberValue, ReadValue, SkipComments, ReadToken, KeyOf, Assign, Recover, HasMember;
    var t := SkipComments(f, doc, p);
    if !t.kind.ObjectEnd? {
      var (key, colon) := (KeyOf(f, doc, t).text, ReadToken(f, doc, t.end));
      GoodMember(f, doc, t, depth, ms, key);
      GoodValue(f, doc, colon.end, depth, ms, key);
    }
  }

  /** The value of the last member with this name, or the given one. */
  function LastOf(log: seq<Member>, n: string, other: Json): Json
    decreases |log|
  {
    if log == [] then other
    else LastOf(log[1..], n, if log[0].name == n then log[0].value else other)
  }

  lemma LastOfStep(m: Member, later: seq<Member>, n: string, other: Json)
    ensures LastOf([m] + later, n, other) == LastOf(later, n, if m.name == n then m.value else other)
    ensures HasMember([m] + later, n) <==> m.name == n || HasMember(later, n)
  {
    var log := [m] + later;
    assert log[1..] == later;
    HasFirst(log, n);
  }

  lemma {:induction false} LastOfIsLast(log: seq<Member>, n: string, other: Json, k: nat)
    requires k < |log| && log[k].name == n && forall j :: k < j < |log| ==> log[j].name != n
    ensures LastOf(log, n, other) == log[k].value
    decreases |log|
  {
    if k > 0 {
      LastOfIsLast(log[1..], n, if log[0].name == n then log[0].value else other, k - 1);
    } else {
      LastOfNone(log[1..], n, log[0].value);
    }
  }

  lemma {:induction false} LastOfNone(log: seq<Member>, n: string, other: Json)
    requires forall j :: 0 <= j < |log| ==> log[j].name != n
    ensures LastOf(log, n, other) == other
    decreases |log|
  {
    if log != [] {
      LastOfNone(log[1..], n, other);
    }
  }

  /** These members, and then the listed ones stored one after the other. */
  predicate Holds(r: seq<Member>, ms: seq<Member>, log: seq<Member>, n: string) {
    Find(r, n) == LastOf(log, n, Find(ms, n)) && (HasMember(r, n) <==> HasMember(ms, n) || HasMember(log, n))
  }

  lemma HoldsOne(r: seq<Member>, ms: seq<Member>, m: Member, later: seq<Member>, n: string)
    requires Holds(r, Assign(ms, m.name, m.value), later, n)
    ensures Holds(r, ms, [m] + later, n)
  {
    FindAssigned(ms, m.name, m.value, n);
    LastOfStep(m, later, n, Find(ms, n));
  }

  lemma {:induction false} MembersAreListed(f: Features, doc: string, p: nat, depth: nat, ms: seq<Member>, name: string)
    requires p <= |doc|
    requires var r := ReadMembers(f, doc, p, depth, ms, name); r.Done? && r.ok
    ensures var (r, log) := (ReadMembers(f, doc, p, depth, ms, name), Listed(f, doc, p, depth));
            && r.value.Obj? && (SortedKeys(ms) ==> SortedKeys(r.value.members))
            && forall n :: Holds(r.value.members, ms, log, n)
    decreases |doc| - p
  {
    hide ReadMembers, ReadValue, Listed, Assign, Holds, SortedKeys, HasMember;
    var (r, t) := (ReadMembers(f, doc, p, depth, ms, name), SkipComments(f, doc, p));
    GoodRound(f, doc, p, depth, ms, name);
    if t.kind.ObjectEnd? {
      forall n ensures Holds(ms, ms, [], n) {
        HoldsNothing(ms, n);
      }
    } else {
      var (key, colon) := (KeyOf(f, doc, t).text, ReadToken(f, doc, t.end));
      var v := ReadValue(f, doc, colon.end, depth + 1, Null);
      var (last, next) := (SkipComments(f, doc, v.pos), Assign(ms, key, v.value));
      var (m, later) := (Member(key, v.value), if last.kind.ObjectEnd? then [] else Listed(f, doc, last.end, depth));
      assert [m] + later == Listed(f, doc, p, depth);
      if SortedKeys(ms) {
        AssignKeepsSorted(ms, key, v.value);
      }
      if !last.kind.ObjectEnd? {
        MembersAreListed(f, doc, last.end, depth, next, key);
      }
      forall n ensures Holds(r.value.members, ms, [m] + later, n) {
        HoldsNothing(next, n);
        HoldsOne(r.value.members, ms, m, later, n);
      }
    }
  }

  lemma HoldsNothing(ms: seq<Member>, n: string)
    ensures Holds(ms, ms, [], n)
  {
    HasFirst([], n);
  }

  /**
   An object read without error holds, under each key the document lists for it, the value listed last, in the order of
   the keys and whatever the order in the document.
   */
  lemma ObjectHoldsLast(f: Features, doc: string, p: nat, depth: nat, held: Json)
    requires p <= |doc| && FirstToken(f, doc, p).kind.ObjectBegin?
    requires var r := ReadValue(f, doc, p, depth, held); r.Done? && r.ok
    ensures var (r, log) := (ReadValue(f, doc, p, depth, held), Listed(f, doc, FirstToken(f, doc, p).end, depth));
            && r.value.Obj? && SortedKeys(r.value.members)
            && (forall n :: HasMember(r.value.members, n) <==> HasMember(log, n))
            && forall k :: 0 <= k < |log| && (forall j :: k < j < |log| ==> log[j].name != log[k].name) ==>
                 Find(r.value.members, log[k].name) == log[k].value
  {
    var start := FirstToken(f, doc, p).end;
    var (r, log) := (ReadValue(f, doc, p, depth, held), Listed(f, doc, start, depth));
    assert r == ReadMembers(f, doc, start, depth, [], "");
    MembersAreListed(f, doc, start, depth, [], "");
    hide ReadMembers, ReadValue, Listed, SortedKeys, FirstToken;
    forall n ensures HasMember(r.value.members, n) <==> HasMember(log, n) {
      assert Holds(r.value.members, [], log, n);
      HasFirst([], n);
    }
    forall k | 0 <= k < |log| && forall j :: k < j < |log| ==> log[j].name != log[k].name
      ensures Find(r.value.members, log[k].name) == log[k].value
    {
      assert Holds(r.value.members, [], log, log[k].name);
      LastOfIsLast(log, log[k].name, Null, k);
    }
  }

  /** With rejectDupKeys no key is listed twice in an object read without error. */
  lemma {:induction false} ListedOnce(f: Features, doc: string, p: nat, depth: nat, ms: seq<Member>, name: string)
    requires p <= |doc| && f.rejectDupKeys
    requires var r := ReadMembers(f, doc, p, depth, ms, name); r.Done? && r.ok
    ensures var log := Listed(f, doc, p, depth);
            && (forall k :: 0 <= k < |log| ==> !HasMember(ms, log[k].name))
            && forall i, k :: 0 <= i < k < |log| ==> log[i].name != log[k].name
    decreases |doc| - p
  {
    hide ReadMembers, ReadValue, Listed, Assign, HasMember;
    var t := SkipComments(f, doc, p);
    GoodRound(f, doc, p, depth, ms, name);
    if !t.kind.ObjectEnd? {
      var (key, colon) := (KeyOf(f, doc, t).text, ReadToken(f, doc, t.end));
      var v := ReadValue(f, doc, colon.end, depth + 1, Null);
      var (last, next) := (SkipComments(f, doc, v.pos), Assign(ms, key, v.value));
      if !last.kind.ObjectEnd? {
        ListedOnce(f, doc, last.end, depth, next, key);
        var later := Listed(f, doc, last.end, depth);
        forall k | 0 <= k < |later| ensures later[k].name != key && !HasMember(ms, later[k].name) {
          FindAssigned(ms, key, v.value, later[k].name);
        }
      }
    }
  }

  // ---------------------------------------------------------------- what any parsed value is like

  /** Keys sorted and short, integers of the source's types with the tag the reader gives them. */
  predicate WellParsed(v: Json) {
    match v
    case Int(i) => MIN_INT64 <= i <= MAX_INT64
    case UInt(u) => MAX_INT64 < u <= MAX_UINT64
    case Arr(items) => forall k :: 0 <= k < |items| ==> WellParsed(items[k])
    case Obj(members) =>
      && SortedKeys(members)
      && forall k :: 0 <= k < |members| ==> |members[k].name| < MAX_KEY && WellParsed(members[k].value)
    case _ => true
  }

  lemma {:induction false} AssignedFrom(ms: seq<Member>, name: string, value: Json, k: nat)
    requires k < |Assign(ms, name, value)|
    ensures var m := Assign(ms, name, value)[k]; m == Member(name, value) || exists j :: 0 <= j < |ms| && m == ms[j]
    decreases |ms|
  {
    hide KeyLess;
    var r := Assign(ms, name, value);
    if ms != [] && k > 0 {
      if ms[0].name != name && !KeyLess(name, ms[0].name) {
        AssignedFrom(ms[1..], name, value, k - 1);
        if r[k] != Member(name, value) {
          var j :| 0 <= j < |ms[1..]| && r[k] == ms[1..][j];
          assert r[k] == ms[j + 1];
        }
      } else {
        assert r[k] == if ms[0].name == name then ms[k] else ms[k - 1];
      }
    } else if ms != [] {
      assert r[0] == Member(name, value) || r[0] == ms[0];
    }
  }

  /** No part is nested deeper than d levels. */
  predicate Shallow(v: Json, d: int) { Depth(v) <= d }

  lemma {:induction false} ShallowItems(items: seq<Json>, k: nat, d: int)
    requires k <= |items| && d >= 0
    ensures DepthOfItems(items, k) <= d <==> forall j :: k <= j < |items| ==> Shallow(items[j], d)
    decreases |items| - k
  {
    if k < |items| {
      ShallowItems(items, k + 1, d);
    }
  }

  lemma {:induction false} ShallowMembers(ms: seq<Member>, k: nat, d: int)
    requires k <= |ms| && d >= 0
    ensures DepthOfMembers(ms, k) <= d <==> forall j :: k <= j < |ms| ==> Shallow(ms[j].value, d)
    decreases |ms| - k
  {
    if k < |ms| {
      ShallowMembers(ms, k + 1, d);
    }
  }

  /** A parsed value that fits below nesting depth d. */
  predicate Fits(v: Json, d: int) { WellParsed(v) && Shallow(v, d) }

  lemma FitsArray(items: seq<Json>, d: int)
    requires d >= 0
    ensures Fits(Arr(items), d + 1) <==> forall k :: 0 <= k < |items| ==> Fits(items[k], d)
  {
    ShallowItems(items, 0, d);
  }

  lemma FitsObject(ms: seq<Member>, d: int)
    requires d >= 0
    ensures Fits(Obj(ms), d + 1) <==>
              SortedKeys(ms) && forall k :: 0 <= k < |ms| ==> |ms[k].name| < MAX_KEY && Fits(ms[k].value, d)
  {
    ShallowMembers(ms, 0, d);
  }

  lemma FitsWithItem(items: seq<Json>, v: Json, d: int)
    requires d >= 0 && Fits(Arr(items), d + 1) && Fits(v, d)
    ensures Fits(Arr(items + [v]), d + 1)
  {
    hide Fits;
    FitsArray(items, d);
    FitsArray(items + [v], d);
  }

  lemma FitsWithMember(ms: seq<Member>, name: string, v: Json, d: int)
    requires d >= 0 && Fits(Obj(ms), d + 1) && Fits(v, d) && |name| < MAX_KEY
    ensures Fits(Obj(Assign(ms, name, v)), d + 1)
  {
    hide Fits, Assign, SortedKeys;
    var r := Assign(ms, name, v);
    FitsObject(ms, d);
    FitsObject(r, d);
    AssignKeepsSorted(ms, name, v);
    forall k | 0 <= k < |r| ensures |r[k].name| < MAX_KEY && Fits(r[k].value, d) {
      AssignedFrom(ms, name, v, k);
    }
  }

  lemma ScalarFits(f: Features, doc: string, t: Token, held: Json)
    requires t.start <= t.end <= |doc| && !t.kind.ObjectBegin? && !t.kind.ArrayBegin?
    requires t.start == t.end ==> t.kind.EndOfStream?
    requires ScalarReading(f, doc, t, held).ok
    ensures Fits(ScalarReading(f, doc, t, held).value, 1)
  {
    hide JsonString.DecodeString, Magnitude, TokenText, TokenBody, AllDigits;
  }

  lemma GoodItem(f: Features, doc: string, p: nat, depth: nat, items: seq<Json>)
    requires p <= |doc|
    requires var r := ReadItem(f, doc, p, depth, items); r.Done? && r.ok
    ensures var (r, v) := (ReadItem(f, doc, p, depth, items), ReadValue(f, doc, p, depth + 1, Null));
            && v.Done? && v.ok
            && var t := SkipComments(f, doc, v.pos);
            && (t.kind.ArrayEnd? || t.kind.ArraySeparator?)
            && r == if t.kind.ArrayEnd? then Done(true, t.end, Arr(items + [v.value]), [])
                    else ReadItems(f, doc, t.end, depth, items + [v.value])
  {
    hide ReadValue, ReadItems, SkipComments, Recover;
  }

  lemma GoodItems(f: Features, doc: string, p: nat, depth: nat, items: seq<Json>)
    requires p <= |doc|
    requires var r := ReadItems(f, doc, p, depth, items); r.Done? && r.ok
    ensures var (r, s) := (ReadItems(f, doc, p, depth, items), SkipSpaces(doc, p));
            || r == ReadItem(f, doc, s, depth, items)
            || (&& s < |doc| && doc[s] == ']'
                && (items == [] || (f.allowTrailingCommas && !f.allowDroppedNullPlaceholders))
                && r == Done(true, s + 1, Arr(items), []))
  {
    hide ReadItem, SkipSpaces;
  }

  lemma ValueCases(f: Features, doc: string, p: nat, depth: nat, held: Json)
    requires p <= |doc|
    requires var r := ReadValue(f, doc, p, depth, held); r.Done? && r.ok
    ensures var (r, t) := (ReadValue(f, doc, p, depth, held), FirstToken(f, doc, p));
            && depth <= f.stackLimit
            && r == if t.kind.ObjectBegin? then ReadMembers(f, doc, t.end, depth, [], "")
                    else if t.kind.ArrayBegin? then ReadItems(f, doc, t.end, depth, [])
                    else ScalarReading(f, doc, t, held)
  {
    hide ReadMembers, ReadItems, ScalarReading, FirstToken;
  }

  /** Every value read without error is well-parsed, and nested no deeper than the stack limit. */
  lemma {:induction false} ReadsFit(f: Features, doc: string, p: nat, depth: nat, held: Json)
    requires p <= |doc|
    requires var r := ReadValue(f, doc, p, depth, held); r.Done? && r.ok
    ensures depth <= f.stackLimit && Fits(ReadValue(f, doc, p, depth, held).value, f.stackLimit + 1 - depth)
    decreases |doc| - p, 0
  {
    hide ReadMembers, ReadItems, ReadValue, ScalarReading, FirstToken, WellParsed;
    ValueCases(f, doc, p, depth, held);
    var t := FirstToken(f, doc, p);
    if t.kind.ObjectBegin? {
      FitsObject([], 0);
      Deeper(Obj([]), 1, f.stackLimit + 1 - depth);
      NoKeys();
      MembersFit(f, doc, t.end, depth, [], "");
    } else if t.kind.ArrayBegin? {
      FitsArray([], 0);
      Deeper(Arr([]), 1, f.stackLimit + 1 - depth);
      ItemsFit(f, doc, t.end, depth, []);
    } else {
      ScalarFits(f, doc, t, held);
      Deeper(ScalarReading(f, doc, t, held).value, 1, f.stackLimit + 1 - depth);
    }
  }

  lemma NoKeys()
    ensures SortedKeys([])
  {
  }

  lemma Deeper(v: Json, d: int, e: int)
    requires Fits(v, d) && d <= e
    ensures Fits(v, e)
  {
    hide WellParsed;
  }

  lemma {:induction false} MembersFit(f: Features, doc: string, p: nat, depth: nat, ms: seq<Member>, name: string)
    requires p <= |doc| && depth <= f.stackLimit && Fits(Obj(ms), f.stackLimit + 1 - depth)
    requires var r := ReadMembers(f, doc, p, depth, ms, name); r.Done? && r.ok
    ensures Fits(ReadMembers(f, doc, p, depth, ms, name).value, f.stackLimit + 1 - depth)
    decreases |doc| - p, 1
  {
    hide ReadMembers, ReadValue, Listed, Assign, HasMember, Fits;
    var t := SkipComments(f, doc, p);
    GoodRound(f, doc, p, depth, ms, name);
    if !t.kind.ObjectEnd? {
      var (key, colon) := (KeyOf(f, doc, t).text, ReadToken(f, doc, t.end));
      var v := ReadValue(f, doc, colon.end, depth + 1, Null);
      var (last, next) := (SkipComments(f, doc, v.pos), Assign(ms, key, v.value));
      ReadsFit(f, doc, colon.end, depth + 1, Null);
      FitsWithMember(ms, key, v.value, f.stackLimit - depth);
      if !last.kind.ObjectEnd? {
        MembersFit(f, doc, last.end, depth, next, key);
      }
    }
  }

  lemma {:induction false} ItemsFit(f: Features, doc: string, p: nat, depth: nat, items: seq<Json>)
    requires p <= |doc| && depth <= f.stackLimit && Fits(Arr(items), f.stackLimit + 1 - depth)
    requires var r := ReadItems(f, doc, p, depth, items); r.Done? && r.ok
    ensures Fits(ReadItems(f, doc, p, depth, items).value, f.stackLimit + 1 - depth)
    decreases |doc| - p, 2
  {
    hide ReadItems, ReadItem, ReadValue, Fits, SkipSpaces;
    GoodItems(f, doc, p, depth, items);
    var s := SkipSpaces(doc, p);
    if ReadItems(f, doc, p, depth, items) == ReadItem(f, doc, s, depth, items) {
      GoodItem(f, doc, s, depth, items);
      var v := ReadValue(f, doc, s, depth + 1, Null);
      ReadsFit(f, doc, s, depth + 1, Null);
      FitsWithItem(items, v.value, f.stackLimit - depth);
      var t := SkipComments(f, doc, v.pos);
      if t.kind.ArraySeparator? {
        ItemsFit(f, doc, t.end, depth, items + [v.value]);
      }
    }
  }

  // ---------------------------------------------------------------- parsed, printed and parsed again

  /** No real numbers, whose text is not modelled. */
  predicate NoReals(v: Json) {
    match v
    case Real(_) => false
    case Arr(items) => forall k :: 0 <= k < |items| ==> NoReals(items[k])
    case Obj(members) => forall k :: 0 <= k < |members| ==> NoReals(members[k].value)
    case _ => true
  }

  predicate KeysSurvive(st: Style, v: Json) {
    match v
    case Arr(items) => forall k :: 0 <= k < |items| ==> KeysSurvive(st, items[k])
    case Obj(members) =>
      forall k :: 0 <= k < |members| ==>
        JsonRoundTrip.PrintableString(st, members[k].name) && KeysSurvive(st, members[k].value)
    case _ => true
  }

  lemma {:induction false} ParsedIsPrintable(st: Style, v: Json)
    requires WellParsed(v) && NoReals(v) && KeysSurvive(st, v)
    ensures JsonRoundTrip.Printable(st, v) && JsonRoundTrip.Normal(true, v) == v
    decreases v
  {
    hide JsonRoundTrip.PrintableString, SortedKeys, JsonRoundTrip.NormalItems, JsonRoundTrip.NormalMembers;
    match v
    case Arr(items) =>
      forall k | 0 <= k < |items| ensures JsonRoundTrip.Printable(st, items[k]) {
        ParsedIsPrintable(st, items[k]);
      }
      ItemsUnchanged(st, items, |items|);
      assert items[..|items|] == items;
    case Obj(members) =>
      forall k | 0 <= k < |members| ensures JsonRoundTrip.Printable(st, members[k].value) {
        ParsedIsPrintable(st, members[k].value);
      }
      MembersUnchanged(st, members, |members|);
      assert members[..|members|] == members;
    case _ =>
  }

  lemma {:induction false} ItemsUnchanged(st: Style, items: seq<Json>, n: nat)
    requires n <= |items| && WellParsed(Arr(items)) && NoReals(Arr(items)) && KeysSurvive(st, Arr(items))
    ensures JsonRoundTrip.NormalItems(true, items, n) == items[..n]
    decreases items, n
  {
    if n > 0 {
      ItemsUnchanged(st, items, n - 1);
      ParsedIsPrintable(st, items[n - 1]);
      assert items[..n] == items[..n - 1] + [items[n - 1]];
    }
  }

  lemma {:induction false} MembersUnchanged(st: Style, members: seq<Member>, n: nat)
    requires n <= |members| && WellParsed(Obj(members)) && NoReals(Obj(members)) && KeysSurvive(st, Obj(members))
    ensures JsonRoundTrip.NormalMembers(true, members, n) == members[..n]
    decreases members, n
  {
    hide SortedKeys, JsonRoundTrip.PrintableString;
    if n > 0 {
      MembersUnchanged(st, members, n - 1);
      ParsedIsPrintable(st, members[n - 1].value);
      assert members[..n] == members[..n - 1] + [members[n - 1]];
    }
  }

  /**
   Whatever document was parsed without error: printing the value and parsing the text gives the same value again, with
   no error. It holds for every layout of the document, key order, repeated keys and comments; reals apart. Strings that
   are no UTF-8 come back only with emitUTF8.
   */
  lemma ParsedComesBack(f: Features, st: Style, doc: string, held: Json, other: Json)
    requires JsonRoundTrip.BuiltStyle(st)
    requires var r := Parse(f, doc, held); r.Done? && r.ok && NoReals(r.value) && KeysSurvive(st, r.value)
    ensures var v := Parse(f, doc, held).value;
            var again := Parse(f, ValueText(st, v, "", true), other);
            && again.Done? && again.ok && again.errors == []
            && (again.value == v <==> st.emitUtf8 || JsonRoundTrip.AllUtf8(v))
  {
    var r := Parse(f, doc, held);
    GoodRoot(f, doc, held);
    ReadsFit(f, doc, 0, 1, held);
    assert WellParsed(r.value) && Depth(r.value) <= f.stackLimit;
    hide Parse, ReadValue, Fits, WellParsed, NoReals, KeysSurvive, JsonRoundTrip.Printable, JsonRoundTrip.Normal,
      JsonRoundTrip.AllUtf8, ValueText, Depth, JsonRoundTrip.BuiltStyle;
    ParsedIsPrintable(st, r.value);
    JsonRoundTrip.ParsesWhatIsPrinted(f, st, r.value, other);
  }

  lemma GoodRoot(f: Features, doc: string, held: Json)
    requires var r := Parse(f, doc, held); r.Done? && r.ok
    ensures var (r, v) := (Parse(f, doc, held), ReadValue(f, doc, 0, 1, held));
            && v.Done? && v.ok && r.value == v.value && (f.strictRoot ==> IsContainer(r.value))
            && (f.failIfExtra ==> FirstToken(f, doc, v.pos).kind.EndOfStream?)
  {
    hide ReadValue, FirstToken;
  }
}
