/**
 Where the reader goes on after an error.
 */
module JsonRecovery {
  import opened JsonReader
  import opened JsonValue
  import JsonGrammar
  import JsonString

  /** The tokens from p on, comments included, up to q. */
  ghost predicate Follow(f: Features, doc: string, p: nat, ts: seq<Token>, q: nat)
    decreases |ts|
  {
    && p <= |doc|
    && if ts == [] then p == q else ts[0] == ReadToken(f, doc, p) && Follow(f, doc, ts[0].end, ts[1..], q)
  }

  /** Recovery goes on behind the first token of the kind sought or at the end of the stream, whichever comes first. */
  lemma {:induction false} RecoverStops(f: Features, doc: string, p: nat, until: TokenType)
    returns (ts: seq<Token>, last: Token)
    requires p <= |doc|
    ensures Follow(f, doc, p, ts + [last], Recover(f, doc, p, until)) && last.end == Recover(f, doc, p, until)
    ensures last.kind == until || last.kind.EndOfStream?
    ensures forall k :: 0 <= k < |ts| ==> ts[k].kind != until && !ts[k].kind.EndOfStream?
    decreases |doc| - p
  {
    hide ReadToken;
    var t := ReadToken(f, doc, p);
    ts, last := [], t;
    if t.kind != until && !t.kind.EndOfStream? {
      ts, last := RecoverStops(f, doc, t.end, until);
      assert ([t] + ts + [last])[1..] == ts + [last];
      ts := [t] + ts;
    } else {
      assert [] + [t] == [t] && [t][1..] == [];
    }
  }

  /** Behind an error the cursor stands behind a bracket of this kind, or behind the end of the stream. */
  ghost predicate StopsBehind(f: Features, doc: string, q: nat, until: TokenType) {
    exists p: nat :: TokenEndsAt(f, doc, p, q, until)
  }

  ghost predicate TokenEndsAt(f: Features, doc: string, p: nat, q: nat, until: TokenType) {
    p <= |doc| && var t := ReadToken(f, doc, p); t.end == q && (t.kind == until || t.kind.EndOfStream?)
  }

  lemma {:induction false} RecoverBehind(f: Features, doc: string, p: nat, until: TokenType)
    requires p <= |doc|
    ensures StopsBehind(f, doc, Recover(f, doc, p, until), until)
    decreases |doc| - p
  {
    hide ReadToken;
    var t := ReadToken(f, doc, p);
    if t.kind == until || t.kind.EndOfStream? {
      assert TokenEndsAt(f, doc, p, t.end, until);
    } else {
      RecoverBehind(f, doc, t.end, until);
    }
  }

  lemma FailStops(f: Features, doc: string, p: nat, value: Json, message: string, t: Token, until: TokenType)
    requires p <= |doc|
    ensures var r := Fail(f, doc, p, value, message, t, until); StopsBehind(f, doc, r.pos, until)
  {
    RecoverBehind(f, doc, p, until);
    hide StopsBehind, Recover;
  }

  lemma {:induction false} RecordFails(f: Features, doc: string, p: nat, depth: nat, ms: seq<Member>, name: string)
    requires p <= |doc|
    requires var r := ReadMembers(f, doc, p, depth, ms, name); r.Done? && !r.ok
    ensures StopsBehind(f, doc, ReadMembers(f, doc, p, depth, ms, name).pos, ObjectEnd)
    decreases |doc| - p, 1
  {
    hide ReadMember, SkipComments, KeyOf, StopsBehind, Fail;
    var t := SkipComments(f, doc, p);
    FailStops(f, doc, t.end, Obj(ms), MISSING_BRACE, t, ObjectEnd);
    if StartsMember(f, t) {
      match KeyOf(f, doc, t)
      case Bad(m) => FailStops(f, doc, t.end, Obj(ms), m, t, ObjectEnd);
      case Text(key) => MemberFails(f, doc, t, depth, ms, key);
    }
  }

  lemma {:induction false} MemberFails(f: Features, doc: string, t: Token, depth: nat, ms: seq<Member>, key: string)
    requires t.start < t.end <= |doc|
    requires var r := ReadMember(f, doc, t, depth, ms, key); r.Done? && !r.ok
    ensures StopsBehind(f, doc, ReadMember(f, doc, t, depth, ms, key).pos, ObjectEnd)
    decreases |doc| - t.end, 3
  {
    hide ReadMemberValue, ReadToken, StopsBehind, Fail, HasMember;
    var colon := ReadToken(f, doc, t.end);
    FailStops(f, doc, t.end, Obj(ms), DUPLICATE, t, ObjectEnd);
    FailStops(f, doc, colon.end, Obj(ms), MISSING_COLON, colon, ObjectEnd);
    if ReadMember(f, doc, t, depth, ms, key) == ReadMemberValue(f, doc, colon.end, depth, ms, key) {
      MemberValueFails(f, doc, colon.end, depth, ms, key);
    }
  }

  lemma {:induction false} MemberValueFails(f: Features, doc: string, p: nat, depth: nat, ms: seq<Member>, key: string)
    requires p <= |doc|
    requires var r := ReadMemberValue(f, doc, p, depth, ms, key); r.Done? && !r.ok
    ensures StopsBehind(f, doc, ReadMemberValue(f, doc, p, depth, ms, key).pos, ObjectEnd)
    decreases |doc| - p, 2
  {
    hide ReadMembers, ReadValue, SkipComments, ReadToken, StopsBehind, Fail, Assign, Recover;
    var v := ReadValue(f, doc, p, depth + 1, Find(ms, key));
    var (next, comma) := (Assign(ms, key, v.value), ReadToken(f, doc, v.pos));
    RecoverBehind(f, doc, v.pos, ObjectEnd);
    FailStops(f, doc, comma.end, Obj(next), MISSING_COMMA, comma, ObjectEnd);
    var last := SkipComments(f, doc, v.pos);
    if ReadMemberValue(f, doc, p, depth, ms, key) == ReadMembers(f, doc, last.end, depth, next, key) {
      RecordFails(f, doc, last.end, depth, next, key);
    }
  }

  lemma {:induction false} ListFails(f: Features, doc: string, p: nat, depth: nat, items: seq<Json>)
    requires p <= |doc|
    requires var r := ReadItems(f, doc, p, depth, items); r.Done? && !r.ok
    ensures StopsBehind(f, doc, ReadItems(f, doc, p, depth, items).pos, ArrayEnd)
    decreases |doc| - p
  {
    hide ReadItems, ReadValue, SkipComments, StopsBehind, Fail, Recover, SkipSpaces;
    JsonGrammar.ItemsRound(f, doc, p, depth, items);
    var s := SkipSpaces(doc, p);
    var v := ReadValue(f, doc, s, depth + 1, Null);
    var (next, t) := (items + [v.value], SkipComments(f, doc, v.pos));
    RecoverBehind(f, doc, v.pos, ArrayEnd);
    FailStops(f, doc, t.end, Arr(next), MISSING_BRACKET, t, ArrayEnd);
    if v.Done? && v.ok && t.kind.ArraySeparator? {
      ListFails(f, doc, t.end, depth, next);
    }
  }

  /** A list or a record that is refused is left behind its own kind of bracket, or at the end of the stream. */
  lemma RefusedIsSkipped(f: Features, doc: string, p: nat, depth: nat, held: Json)
    requires p <= |doc|
    requires var r := ReadValue(f, doc, p, depth, held); r.Done? && !r.ok
    ensures var (r, t) := (ReadValue(f, doc, p, depth, held), FirstToken(f, doc, p));
            && (t.kind.ObjectBegin? ==> StopsBehind(f, doc, r.pos, ObjectEnd))
            && (t.kind.ArrayBegin? ==> StopsBehind(f, doc, r.pos, ArrayEnd))
  {
    hide ReadMembers, ReadItems, FirstToken, ScalarReading, StopsBehind;
    var t := FirstToken(f, doc, p);
    if t.kind.ObjectBegin? {
      RecordFails(f, doc, t.end, depth, [], "");
    } else if t.kind.ArrayBegin? {
      ListFails(f, doc, t.end, depth, []);
    }
  }

  /** What parse adds to the errors of the value: something behind it, or else a root that is no list or record. */
  lemma RootErrors(f: Features, doc: string, held: Json)
    requires ReadValue(f, doc, 0, 1, held).Done?
    ensures var (r, v) := (Parse(f, doc, held), ReadValue(f, doc, 0, 1, held));
            var t := FirstToken(f, doc, v.pos);
            && r.Done? && r.value == v.value && r.pos == t.end
            && r.errors == v.errors
                 + (if f.failIfExtra && !t.kind.EndOfStream? then
                      [ErrorInfo("Extra non-whitespace after JSON value.", t)]
                    else if f.strictRoot && !IsContainer(v.value) then
                      [ErrorInfo("A valid JSON document must be either an array or an object value.",
                                 Token(ErrorToken, 0, |doc|))]
                    else [])
  {
    hide ReadValue, FirstToken;
  }
}
