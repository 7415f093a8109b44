/**
 What the reader accepts and as what: a document is read without error as a value exactly if it is, by a grammar over
 its tokens, a tree that means this value.
 */
module JsonGrammar {
  import opened JsonNumber
  import opened JsonReader
  import opened JsonTokens
  import opened JsonValue
  import JsonEscapes
  import JsonObjects
  import JsonString

  // ---------------------------------------------------------------- the grammar

  /**
   A value of the document: one token, a list or a record, which ends before position end, or a value that is missing
   where placeholders may be dropped.
   */
  datatype Tree =
    | Missing(end: nat)
    | Leaf(token: Token, value: Json)
    | List(items: seq<Tree>, end: nat)
    | Record(rows: seq<Row>, end: nat)

  datatype Row = Row(token: Token, key: string, value: Tree)

  function End(v: Tree): nat { if v.Leaf? then v.token.end else v.end }

  function Meaning(v: Tree): Json
    decreases v
  {
    match v
    case Missing(_) => Null
    case Leaf(_, value) => value
    case List(items, _) => Arr(Meanings(items))
    case Record(rows, _) => Obj(Stored([], rows))
  }

  function Meanings(items: seq<Tree>): seq<Json>
    decreases items
  {
    if items == [] then [] else [Meaning(items[0])] + Meanings(items[1..])
  }

  /** The members that the rows leave when they are stored one after the other. */
  function Stored(ms: seq<Member>, rows: seq<Row>): seq<Member>
    decreases rows
  {
    if rows == [] then ms else Stored(Assign(ms, rows[0].key, Meaning(rows[0].value)), rows[1..])
  }

  /** The bytes of a string: units, up to the end or to a bare quote, which ends it in single quotes. */
  ghost predicate StringMeans(body: string, s: string) { exists us, rest :: IsMadeOf(body, us, rest, s) }

  predicate IsMadeOf(body: string, us: seq<JsonEscapes.Unit>, rest: string, s: string) {
    && JsonEscapes.AreUnits(us) && body == JsonEscapes.TextOf(us) + rest && s == JsonEscapes.MeaningOf(us)
    && (rest == "" || rest[0] == '\"')
  }

  /** The text denotes an integer of 64 bits, signed or unsigned. */
  predicate IsWhole(text: string, v: int) { Denotes(text, v) && -9223372036854775808 <= v <= 18446744073709551615 }

  ghost predicate NumberMeans(f: Features, text: string, j: Json) {
    || (exists v :: IsWhole(text, v) && j == if v <= 9223372036854775807 then Int(v) else UInt(v))
    || (f.isDouble(text) && j == Real(text) && forall v :: !IsWhole(text, v))
  }

  ghost predicate LeafMeans(f: Features, doc: string, t: Token, j: Json) {
    && t.start < t.end <= |doc|
    && match t.kind
       case StringToken => j.Str? && StringMeans(Inside(doc, t), j.s)
       case NumberToken => NumberMeans(f, doc[t.start..t.end], j)
       case TrueToken => j == Bool(true)
       case FalseToken => j == Bool(false)
       case NullToken => j == Null
       case NaNToken => j == Real("NaN")
       case PosInf => j == Real("Infinity")
       case NegInf => j == Real("-Infinity")
       case _ => false
  }

  function Inside(doc: string, t: Token): string
    requires t.start <= t.end <= |doc|
  {
    if t.end - t.start >= 2 then doc[t.start + 1..t.end - 1] else ""
  }

  /** A key is a string or, where allowed, a number, printed anew. */
  ghost predicate KeyMeans(f: Features, doc: string, t: Token, key: string) {
    && t.start < t.end <= |doc|
    && match t.kind
       case StringToken => StringMeans(Inside(doc, t), key)
       case NumberToken =>
         var text := doc[t.start..t.end];
         f.allowNumericKeys && ((exists v :: IsWhole(text, v) && key == IntText(v))
                                || (f.isDouble(text) && key == f.doubleText(text) && forall v :: !IsWhole(text, v)))
       case _ => false
  }

  /** The value stands at p, with nothing but white space before it, or comments where they are allowed. */
  ghost predicate Stands(f: Features, doc: string, p: nat, depth: nat, v: Tree)
    decreases v, 0
  {
    && p <= |doc| && depth <= f.stackLimit
    && var t := FirstToken(f, doc, p);
       match v
       case Missing(end) =>
         f.allowDroppedNullPlaceholders && t.kind in {ArraySeparator, ObjectEnd, ArrayEnd} && end == t.start
       case Leaf(token, value) => token == t && LeafMeans(f, doc, t, value)
       case List(items, end) => t.kind.ArrayBegin? && ItemsStand(f, doc, t.end, depth, items, end, true)
       case Record(rows, end) => t.kind.ObjectBegin? && RowsStand(f, doc, t.end, depth, rows, end, [])
  }

  /**
   The items of a list, separated by commas and closed by a bracket. The list may end before an item only at the first
   one or behind a trailing comma, and only if no comment stands before the bracket.
   */
  ghost predicate ItemsStand(f: Features, doc: string, p: nat, depth: nat, items: seq<Tree>, end: nat, first: bool)
    decreases items, 1
  {
    && p <= |doc|
    && var close := ReadToken(f, doc, p);
       var over := close.kind.ArrayEnd? && (first || (f.allowTrailingCommas && !f.allowDroppedNullPlaceholders));
       if items == [] then over && end == close.end
       else
         && !over && Stands(f, doc, p, depth + 1, items[0]) && End(items[0]) <= |doc|
         && var t := SkipComments(f, doc, End(items[0]));
            if t.kind.ArrayEnd? then |items| == 1 && end == t.end
            else t.kind.ArraySeparator? && ItemsStand(f, doc, t.end, depth, items[1..], end, false)
  }

  /**
   The rows of a record: a key, a colon with no comment before it, a value and a comma, or a comment and any token at
   all but a brace, which the reader does not look at again. A comma may trail where allowed, and behind an empty key.
   */
  ghost predicate RowsStand(f: Features, doc: string, p: nat, depth: nat, rows: seq<Row>, end: nat, keys: seq<string>)
    decreases rows, 1
  {
    && p <= |doc|
    && var t := SkipComments(f, doc, p);
       if rows == [] then
         && t.kind.ObjectEnd? && end == t.end
         && (keys == [] || keys[|keys| - 1] == "" || f.allowTrailingCommas)
       else
         var (row, colon) := (rows[0], ReadToken(f, doc, t.end));
         && row.token == t && KeyMeans(f, doc, t, row.key) && |row.key| < 0x4000_0000
         && (f.rejectDupKeys ==> row.key !in keys)
         && colon.kind.MemberSeparator? && Stands(f, doc, colon.end, depth + 1, row.value) && End(row.value) <= |doc|
         && var (next, last) := (ReadToken(f, doc, End(row.value)), SkipComments(f, doc, End(row.value)));
            && next.kind in {ObjectEnd, ArraySeparator, Comment}
            && if last.kind.ObjectEnd? then |rows| == 1 && end == last.end
               else RowsStand(f, doc, last.end, depth, rows[1..], end, keys + [row.key])
  }

  // ---------------------------------------------------------------- tokens and their meaning

  lemma StringDecodes(body: string, s: string)
    ensures JsonString.DecodeString(body) == JsonString.Text(s) <==> StringMeans(body, s)
  {
    hide JsonString.DecodeFrom, JsonEscapes.AreUnits, JsonEscapes.TextOf, JsonEscapes.MeaningOf;
    if JsonString.DecodeString(body) == JsonString.Text(s) {
      var us := JsonEscapes.DecodedUnits(body, 0);
      Prefix(body, JsonEscapes.TextOf(us));
      assert IsMadeOf(body, us, body[|JsonEscapes.TextOf(us)|..], s);
    }
    forall us, rest | IsMadeOf(body, us, rest, s) ensures JsonString.DecodeString(body) == JsonString.Text(s) {
      Suffix(JsonEscapes.TextOf(us), rest);
      JsonEscapes.UnitsDecode(body, 0, us);
    }
  }

  lemma Prefix(body: string, t: string)
    requires JsonString.At(body, 0, t)
    ensures |t| <= |body| && body == t + body[|t|..]
  {
  }

  lemma Suffix(t: string, rest: string)
    ensures JsonString.At(t + rest, 0, t) && (t + rest)[|t|..] == rest
  {
  }

  lemma NumberDecodes(text: string)
    ensures match DecodeNumber(text)
            case Integer(v) => IsWhole(text, v) && forall w :: IsWhole(text, w) ==> w == v
            case Double => forall v :: !IsWhole(text, v)
  {
    forall v ensures DecodeNumber(text) == Integer(v) <==> IsWhole(text, v) {
      DecodesExactly(text, v);
    }
    hide IsWhole, DecodeNumber;
  }

  predicate IsScalar(k: TokenType) {
    k in {NumberToken, StringToken, TrueToken, FalseToken, NullToken, NaNToken, PosInf, NegInf}
  }

  lemma StringReads(f: Features, doc: string, t: Token, held: Json, j: Json)
    requires t.start < t.end <= |doc| && t.kind.StringToken?
    ensures ReadsAs(f, doc, t, held, j)
  {
    if j.Str? {
      StringDecodes(Inside(doc, t), j.s);
    }
    assert TokenBody(doc, t) == Inside(doc, t);
    hide StringMeans, JsonString.DecodeString, TokenBody, Inside;
  }

  lemma WholeReads(f: Features, doc: string, t: Token, held: Json, j: Json, v: int)
    requires t.start < t.end <= |doc| && t.kind.NumberToken?
    requires var text := doc[t.start..t.end];
             DecodeNumber(text) == Integer(v) && IsWhole(text, v) && forall w :: IsWhole(text, w) ==> w == v
    ensures ReadsAs(f, doc, t, held, j)
  {
    hide IsWhole, DecodeNumber;
  }

  lemma RealReads(f: Features, doc: string, t: Token, held: Json, j: Json)
    requires t.start < t.end <= |doc| && t.kind.NumberToken?
    requires var text := doc[t.start..t.end]; DecodeNumber(text).Double? && forall w :: !IsWhole(text, w)
    ensures ReadsAs(f, doc, t, held, j)
  {
    hide IsWhole, DecodeNumber;
  }

  lemma NumberReads(f: Features, doc: string, t: Token, held: Json, j: Json)
    requires t.start < t.end <= |doc| && t.kind.NumberToken?
    ensures ReadsAs(f, doc, t, held, j)
  {
    hide *;
    var text := doc[t.start..t.end];
    NumberDecodes(text);
    match DecodeNumber(text)
    case Integer(v) => WholeReads(f, doc, t, held, j, v);
    case Double => RealReads(f, doc, t, held, j);
  }

  lemma WordReads(f: Features, doc: string, t: Token, held: Json, j: Json)
    requires t.start < t.end <= |doc| && t.kind in {TrueToken, FalseToken, NullToken}
    ensures ReadsAs(f, doc, t, held, j)
  {
    hide StringMeans, NumberMeans, NumberReading;
  }

  lemma FloatReads(f: Features, doc: string, t: Token, held: Json, j: Json)
    requires t.start < t.end <= |doc| && t.kind in {NaNToken, PosInf, NegInf}
    ensures ReadsAs(f, doc, t, held, j)
  {
    hide StringMeans, NumberMeans, NumberReading;
  }

  /** A token is read as a value exactly if it means one, and as that one. */
  ghost predicate ReadsAs(f: Features, doc: string, t: Token, held: Json, j: Json)
    requires t.start < t.end <= |doc| && IsScalar(t.kind)
  {
    var r := ScalarReading(f, doc, t, held);
    (r.ok && r.value == j <==> LeafMeans(f, doc, t, j)) && (r.ok ==> r == Done(true, t.end, r.value, []))
  }

  lemma LeafReads(f: Features, doc: string, t: Token, held: Json, j: Json)
    requires t.start < t.end <= |doc| && IsScalar(t.kind)
    ensures ReadsAs(f, doc, t, held, j)
  {
    hide ReadsAs;
    if t.kind.StringToken? {
      StringReads(f, doc, t, held, j);
    } else if t.kind.NumberToken? {
      NumberReads(f, doc, t, held, j);
    } else if t.kind in {NaNToken, PosInf, NegInf} {
      FloatReads(f, doc, t, held, j);
    } else {
      WordReads(f, doc, t, held, j);
    }
  }

  lemma KeyToken(f: Features, doc: string, t: Token, key: string)
    requires KeyMeans(f, doc, t, key)
    ensures t.start < t.end <= |doc|
  {
    hide StringMeans, IsWhole;
  }

  lemma KeyReads(f: Features, doc: string, t: Token, key: string)
    requires t.start < t.end <= |doc|
    ensures StartsMember(f, t) && KeyOf(f, doc, t) == JsonString.Text(key) <==> KeyMeans(f, doc, t, key)
  {
    StringDecodes(Inside(doc, t), key);
    NumberDecodes(doc[t.start..t.end]);
    hide StringMeans, IsWhole, DecodeNumber, JsonString.DecodeString, IntText;
  }

  // ---------------------------------------------------------------- what is grammatical is read as what it means

  lemma SpacesForgotten(f: Features, doc: string, p: nat, depth: nat, held: Json)
    requires p <= |doc|
    ensures ReadValue(f, doc, SkipSpaces(doc, p), depth, held) == ReadValue(f, doc, p, depth, held)
  {
    SpacesBefore(f, doc, p);
    hide ReadToken, SkipComments, SkipSpaces, ReadMembers, ReadItems, ScalarReading;
  }

  lemma MemberRound(f: Features, doc: string, p: nat, depth: nat, ms: seq<Member>, name: string, key: string)
    requires p <= |doc|
    requires var t := SkipComments(f, doc, p);
             && StartsMember(f, t) && KeyOf(f, doc, t) == JsonString.Text(key) && |key| < MAX_KEY
             && (f.rejectDupKeys ==> !HasMember(ms, key))
             && var colon := ReadToken(f, doc, t.end);
             && colon.kind.MemberSeparator?
             && var v := ReadValue(f, doc, colon.end, depth + 1, Null);
             && v.Done? && v.ok && ReadToken(f, doc, v.pos).kind in {ObjectEnd, ArraySeparator, Comment}
    ensures var t := SkipComments(f, doc, p);
            var v := ReadValue(f, doc, ReadToken(f, doc, t.end).end, depth + 1, Null);
            var (last, next) := (SkipComments(f, doc, v.pos), Assign(ms, key, v.value));
            ReadMembers(f, doc, p, depth, ms, name)
            == if last.kind.ObjectEnd? then Done(true, last.end, Obj(next), [])
               else ReadMembers(f, doc, last.end, depth, next, key)
  {
    var t := SkipComments(f, doc, p);
    var colon := ReadToken(f, doc, t.end);
    hide KeyOf, SkipComments, ReadToken, HasMember;
    MemberValueRound(f, doc, colon.end, depth, ms, key);
    hide ReadMemberValue, ReadValue, Assign, Recover;
  }

  lemma MemberValueRound(f: Features, doc: string, p: nat, depth: nat, ms: seq<Member>, key: string)
    requires p <= |doc|
    requires var v := ReadValue(f, doc, p, depth + 1, Null);
             v.Done? && v.ok && ReadToken(f, doc, v.pos).kind in {ObjectEnd, ArraySeparator, Comment}
    ensures var v := ReadValue(f, doc, p, depth + 1, Null);
            var (last, next) := (SkipComments(f, doc, v.pos), Assign(ms, key, v.value));
            ReadMemberValue(f, doc, p, depth, ms, key)
            == if last.kind.ObjectEnd? then Done(true, last.end, Obj(next), [])
               else ReadMembers(f, doc, last.end, depth, next, key)
  {
    JsonObjects.HeldIsForgotten(f, doc, p, depth + 1, Find(ms, key), Null);
    hide ReadValue, ReadMembers, SkipComments, ReadToken, Assign, Recover, Find;
  }

  lemma ItemRound(f: Features, doc: string, p: nat, depth: nat, items: seq<Json>)
    requires p <= |doc|
    requires !(ReadToken(f, doc, p).kind.ArrayEnd?
               && (items == [] || (f.allowTrailingCommas && !f.allowDroppedNullPlaceholders)))
    requires var v := ReadValue(f, doc, p, depth + 1, Null);
             v.Done? && v.ok && SkipComments(f, doc, v.pos).kind in {ArrayEnd, ArraySeparator}
    ensures var v := ReadValue(f, doc, p, depth + 1, Null);
            var (t, next) := (SkipComments(f, doc, v.pos), items + [v.value]);
            ReadItems(f, doc, p, depth, items)
            == if t.kind.ArrayEnd? then Done(true, t.end, Arr(next), []) else ReadItems(f, doc, t.end, depth, next)
  {
    BracketAhead(f, doc, p);
    SpacesForgotten(f, doc, p, depth + 1, Null);
    ItemsRound(f, doc, p, depth, items);
    hide ReadItems, ReadValue, SkipComments, Recover, SkipSpaces, ReadToken;
  }

  lemma ItemsRound(f: Features, doc: string, p: nat, depth: nat, items: seq<Json>)
    requires p <= |doc|
    ensures var s := SkipSpaces(doc, p);
            ReadItems(f, doc, p, depth, items)
            == if && s < |doc| && doc[s] == ']'
                  && (items == [] || (f.allowTrailingCommas && !f.allowDroppedNullPlaceholders))
               then Done(true, s + 1, Arr(items), [])
               else ReadItem(f, doc, s, depth, items)
  {
    hide ReadItem, SkipSpaces;
  }

  /** A value that stands somewhere is read from there, without error, as what it means, up to its end. */
  lemma {:induction false} GrammaticalIsRead(f: Features, doc: string, p: nat, depth: nat, held: Json, v: Tree)
    requires Stands(f, doc, p, depth, v)
    ensures ReadValue(f, doc, p, depth, held) == Done(true, End(v), Meaning(v), [])
    decreases v, 0
  {
    hide ReadValue, ReadMembers, ReadItems, ScalarReading, FirstToken, LeafMeans, ItemsStand, RowsStand;
    ValueRound(f, doc, p, depth, held);
    var t := FirstToken(f, doc, p);
    match v
    case Missing(end) => UnreadToken(f, doc, p); PlaceholderReads(f, doc, t, held);
    case Leaf(token, value) => MeansScalar(f, doc, t, value); LeafReads(f, doc, t, held, value);
    case List(items, end) =>
      ItemsAreRead(f, doc, t.end, depth, items, end, []);
      assert [] + Meanings(items) == Meanings(items);
    case Record(rows, end) => NoKeys(); RowsAreRead(f, doc, t.end, depth, rows, end, [], [], "");
  }

  lemma NoKeys()
    ensures SameKeys([], [])
  {
  }

  lemma ValueRound(f: Features, doc: string, p: nat, depth: nat, held: Json)
    requires p <= |doc| && depth <= f.stackLimit
    ensures var t := FirstToken(f, doc, p);
            ReadValue(f, doc, p, depth, held)
            == if t.kind.ObjectBegin? then ReadMembers(f, doc, t.end, depth, [], "")
               else if t.kind.ArrayBegin? then ReadItems(f, doc, t.end, depth, [])
               else ScalarReading(f, doc, t, held)
  {
    hide ReadMembers, ReadItems, ScalarReading, FirstToken;
  }

  lemma PlaceholderReads(f: Features, doc: string, t: Token, held: Json)
    requires t.start < t.end <= |doc| && t.kind in {ArraySeparator, ObjectEnd, ArrayEnd}
    ensures ScalarReading(f, doc, t, held)
         == if f.allowDroppedNullPlaceholders then Done(true, t.end - 1, Null, [])
            else Done(false, t.end, held, [ErrorInfo("Syntax error: value, object or array expected.", t)])
  {
    hide JsonString.DecodeString, DecodeNumber;
  }

  lemma MeansScalar(f: Features, doc: string, t: Token, j: Json)
    requires LeafMeans(f, doc, t, j)
    ensures t.start < t.end <= |doc| && IsScalar(t.kind)
  {
    hide StringMeans, NumberMeans;
  }

  lemma Extends(before: seq<Json>, items: seq<Tree>)
    ensures items == [] ==> before + Meanings(items) == before
    ensures items != [] ==> before + Meanings(items) == (before + [Meaning(items[0])]) + Meanings(items[1..])
  {
    hide Meaning;
  }

  lemma ListEnds(f: Features, doc: string, p: nat, depth: nat, before: seq<Json>)
    requires p <= |doc| && ReadToken(f, doc, p).kind.ArrayEnd?
    requires before == [] || (f.allowTrailingCommas && !f.allowDroppedNullPlaceholders)
    ensures ReadItems(f, doc, p, depth, before) == Done(true, ReadToken(f, doc, p).end, Arr(before), [])
  {
    BracketAhead(f, doc, p);
    ItemsRound(f, doc, p, depth, before);
    hide ReadItems, ReadItem, SkipSpaces, ReadToken;
  }

  lemma {:induction false} ItemsAreRead(f: Features, doc: string, p: nat, depth: nat, items: seq<Tree>, end: nat,
        before: seq<Json>)
    requires ItemsStand(f, doc, p, depth, items, end, before == [])
    ensures ReadItems(f, doc, p, depth, before) == Done(true, end, Arr(before + Meanings(items)), [])
    decreases items, 1
  {
    hide ReadValue, ReadItems, Stands, SkipComments, ReadToken, Meaning, Meanings;
    Extends(before, items);
    if items == [] {
      ListEnds(f, doc, p, depth, before);
    } else {
      GrammaticalIsRead(f, doc, p, depth + 1, Null, items[0]);
      ItemRound(f, doc, p, depth, before);
      var next := before + [Meaning(items[0])];
      var t := SkipComments(f, doc, End(items[0]));
      if t.kind.ArrayEnd? {
        Extends(next, items[1..]);
      } else {
        ItemsAreRead(f, doc, t.end, depth, items[1..], end, next);
      }
    }
  }

  predicate SameKeys(ms: seq<Member>, keys: seq<string>) {
    (forall k :: 0 <= k < |ms| ==> ms[k].name in keys) && forall k :: 0 <= k < |keys| ==> HasMember(ms, keys[k])
  }

  lemma SameKeysStep(ms: seq<Member>, keys: seq<string>, key: string, value: Json)
    requires SameKeys(ms, keys)
    ensures key in keys <==> HasMember(ms, key)
    ensures SameKeys(Assign(ms, key, value), keys + [key])
  {
    hide Assign;
    var next := Assign(ms, key, value);
    forall k | 0 <= k < |next| ensures next[k].name in keys + [key] {
      FindAssigned(ms, key, value, next[k].name);
    }
    forall k | 0 <= k < |keys + [key]| ensures HasMember(next, (keys + [key])[k]) {
      FindAssigned(ms, key, value, (keys + [key])[k]);
    }
  }

  lemma {:induction false} RowsAreRead(f: Features, doc: string, p: nat, depth: nat, rows: seq<Row>, end: nat,
        keys: seq<string>, ms: seq<Member>, name: string)
    requires RowsStand(f, doc, p, depth, rows, end, keys) && SameKeys(ms, keys)
    requires name == if keys == [] then "" else keys[|keys| - 1]
    ensures ReadMembers(f, doc, p, depth, ms, name) == Done(true, end, Obj(Stored(ms, rows)), [])
    decreases rows, 1
  {
    hide ReadValue, ReadMembers, Stands, SkipComments, ReadToken, Meaning, KeyMeans, KeyOf, SameKeys, HasMember, Assign;
    if rows == [] {
      RecordEnds(f, doc, p, depth, ms, name);
    } else {
      var (row, t) := (rows[0], SkipComments(f, doc, p));
      KeyToken(f, doc, t, row.key);
      KeyReads(f, doc, t, row.key);
      var v := Meaning(row.value);
      SameKeysStep(ms, keys, row.key, v);
      GrammaticalIsRead(f, doc, ReadToken(f, doc, t.end).end, depth + 1, Null, row.value);
      MemberRound(f, doc, p, depth, ms, name, row.key);
      var last := SkipComments(f, doc, End(row.value));
      if last.kind.ObjectEnd? {
        assert rows[1..] == [];
      } else {
        RowsAreRead(f, doc, last.end, depth, rows[1..], end, keys + [row.key], Assign(ms, row.key, v), row.key);
      }
    }
  }

  lemma RecordEnds(f: Features, doc: string, p: nat, depth: nat, ms: seq<Member>, name: string)
    requires p <= |doc| && SkipComments(f, doc, p).kind.ObjectEnd? && (name == "" || f.allowTrailingCommas)
    ensures ReadMembers(f, doc, p, depth, ms, name) == Done(true, SkipComments(f, doc, p).end, Obj(ms), [])
  {
    hide ReadMember, SkipComments, Recover;
  }

  // ---------------------------------------------------------------- what is read without error is grammatical

  lemma ScalarCases(f: Features, doc: string, t: Token, held: Json)
    requires t.start <= t.end <= |doc| && !t.kind.ObjectBegin? && !t.kind.ArrayBegin?
    requires t.start == t.end ==> t.kind.EndOfStream?
    requires ScalarReading(f, doc, t, held).ok
    ensures t.start < t.end
    ensures var r := ScalarReading(f, doc, t, held);
            IsScalar(t.kind) || (f.allowDroppedNullPlaceholders && t.kind in {ArraySeparator, ObjectEnd, ArrayEnd})
  {
    hide JsonString.DecodeString, DecodeNumber, TokenText, TokenBody;
  }

  /** A value read without error stands there, as a tree that means what was read. */
  lemma {:induction false} ReadIsGrammatical(f: Features, doc: string, p: nat, depth: nat, held: Json) returns (v: Tree)
    requires p <= |doc|
    requires var r := ReadValue(f, doc, p, depth, held); r.Done? && r.ok
    ensures Stands(f, doc, p, depth, v)
    ensures ReadValue(f, doc, p, depth, held) == Done(true, End(v), Meaning(v), [])
    decreases |doc| - p, 0
  {
    hide ReadMembers, ReadItems, ReadValue, ScalarReading, FirstToken, SkipComments, ReadToken, LeafMeans, ItemsStand,
      RowsStand;
    JsonObjects.ValueCases(f, doc, p, depth, held);
    var (r, t) := (ReadValue(f, doc, p, depth, held), FirstToken(f, doc, p));
    if t.kind.ObjectBegin? {
      NoKeys();
      var rows := RowsFound(f, doc, t.end, depth, [], [], "");
      v := Record(rows, r.pos);
    } else if t.kind.ArrayBegin? {
      var items := ItemsFound(f, doc, t.end, depth, []);
      v := List(items, r.pos);
      assert [] + Meanings(items) == Meanings(items);
    } else {
      ScalarCases(f, doc, t, held);
      if IsScalar(t.kind) {
        LeafReads(f, doc, t, held, r.value);
        v := Leaf(t, r.value);
      } else {
        PlaceholderReads(f, doc, t, held);
        UnreadToken(f, doc, p);
        v := Missing(t.start);
      }
    }
  }

  lemma EndsWhereAllowed(f: Features, doc: string, p: nat, depth: nat, ms: seq<Member>, name: string)
    requires p <= |doc| && SkipComments(f, doc, p).kind.ObjectEnd?
    requires var r := ReadMembers(f, doc, p, depth, ms, name); r.Done? && r.ok
    ensures name == "" || f.allowTrailingCommas
  {
    hide ReadMember, SkipComments, Recover;
  }

  lemma {:induction false} RowsFound(f: Features, doc: string, p: nat, depth: nat, ms: seq<Member>, keys: seq<string>,
        name: string) returns (rows: seq<Row>)
    requires p <= |doc| && SameKeys(ms, keys) && name == if keys == [] then "" else keys[|keys| - 1]
    requires var r := ReadMembers(f, doc, p, depth, ms, name); r.Done? && r.ok
    ensures var r := ReadMembers(f, doc, p, depth, ms, name);
            RowsStand(f, doc, p, depth, rows, r.pos, keys) && r == Done(true, r.pos, Obj(Stored(ms, rows)), [])
    decreases |doc| - p, 1
  {
    hide ReadMembers, ReadValue, JsonObjects.Listed, Assign, HasMember, SkipComments, ReadToken, Stands, KeyMeans,
      KeyOf, SameKeys;
    JsonObjects.GoodRound(f, doc, p, depth, ms, name);
    var t := SkipComments(f, doc, p);
    rows := [];
    if t.kind.ObjectEnd? {
      EndsWhereAllowed(f, doc, p, depth, ms, name);
    } else {
      var (key, colon) := (KeyOf(f, doc, t).text, ReadToken(f, doc, t.end));
      KeyReads(f, doc, t, key);
      var v := ReadValue(f, doc, colon.end, depth + 1, Null);
      var tree := ReadIsGrammatical(f, doc, colon.end, depth + 1, Null);
      SameKeysStep(ms, keys, key, v.value);
      var (last, next) := (SkipComments(f, doc, v.pos), Assign(ms, key, v.value));
      var later: seq<Row> := [];
      if !last.kind.ObjectEnd? {
        later := RowsFound(f, doc, last.end, depth, next, keys + [key], key);
      }
      rows := [Row(t, key, tree)] + later;
      assert rows[1..] == later;
    }
  }

  lemma {:induction false} ItemsFound(f: Features, doc: string, p: nat, depth: nat, before: seq<Json>)
    returns (items: seq<Tree>)
    requires p <= |doc|
    requires var r := ReadItems(f, doc, p, depth, before); r.Done? && r.ok
    ensures var r := ReadItems(f, doc, p, depth, before);
            && ItemsStand(f, doc, p, depth, items, r.pos, before == [])
            && r == Done(true, r.pos, Arr(before + Meanings(items)), [])
    decreases |doc| - p, 2
  {
    hide ReadItems, ReadItem, ReadValue, SkipSpaces, SkipComments, ReadToken, Stands, Meaning;
    ItemsRound(f, doc, p, depth, before);
    BracketAhead(f, doc, p);
    items := [];
    var close := ReadToken(f, doc, p);
    if close.kind.ArrayEnd? && (before == [] || (f.allowTrailingCommas && !f.allowDroppedNullPlaceholders)) {
      assert before + [] == before;
    } else {
      var s := SkipSpaces(doc, p);
      JsonObjects.GoodItem(f, doc, s, depth, before);
      SpacesForgotten(f, doc, p, depth + 1, Null);
      var v := ReadValue(f, doc, p, depth + 1, Null);
      var tree := ReadIsGrammatical(f, doc, p, depth + 1, Null);
      var (t, next) := (SkipComments(f, doc, v.pos), before + [v.value]);
      var later: seq<Tree> := [];
      if t.kind.ArraySeparator? {
        later := ItemsFound(f, doc, t.end, depth, next);
      }
      items := [tree] + later;
      assert items[0] == tree && items[1..] == later;
      assert before + Meanings(items) == next + Meanings(later);
      assert next + [] == next;
    }
  }

  // ---------------------------------------------------------------- whole documents

  /** The document is this value, and nothing behind it where failIfExtra is set; a list or a record for strictRoot. */
  ghost predicate IsDocument(f: Features, doc: string, v: Tree) {
    && Stands(f, doc, 0, 1, v) && End(v) <= |doc|
    && (f.failIfExtra ==> FirstToken(f, doc, End(v)).kind.EndOfStream?)
    && (f.strictRoot ==> IsContainer(Meaning(v)))
  }

  /** A document is parsed without error as j if and only if it is, by the grammar, a value that means j. */
  lemma DocumentsExactly(f: Features, doc: string, held: Json, j: Json)
    ensures var r := Parse(f, doc, held);
            (r.Done? && r.ok && r.value == j) <==> exists v :: IsDocument(f, doc, v) && Meaning(v) == j
  {
    hide Parse, ReadValue, FirstToken, Stands, Meaning, End;
    var r := Parse(f, doc, held);
    if r.Done? && r.ok && r.value == j {
      JsonObjects.GoodRoot(f, doc, held);
      var v := ReadIsGrammatical(f, doc, 0, 1, held);
      assert IsDocument(f, doc, v) && Meaning(v) == j;
    }
    forall v | IsDocument(f, doc, v) && Meaning(v) == j ensures r.Done? && r.ok && r.value == j {
      GrammaticalIsRead(f, doc, 0, 1, held, v);
      RootRound(f, doc, held);
    }
  }

  lemma RootRound(f: Features, doc: string, held: Json)
    requires var v := ReadValue(f, doc, 0, 1, held);
             && v.Done? && v.ok && (f.failIfExtra ==> FirstToken(f, doc, v.pos).kind.EndOfStream?)
             && (f.strictRoot ==> IsContainer(v.value))
    ensures var (r, v) := (Parse(f, doc, held), ReadValue(f, doc, 0, 1, held)); r.Done? && r.ok && r.value == v.value
  {
    hide ReadValue, FirstToken;
  }

  /** A comment in front of a value is passed over where comments are allowed, and an error where they are not. */
  lemma CommentBeforeValue(f: Features, doc: string, p: nat, depth: nat, held: Json)
    requires p <= |doc| && ReadToken(f, doc, p).kind.Comment? && depth <= f.stackLimit
    ensures var t := ReadToken(f, doc, p);
            ReadValue(f, doc, p, depth, held)
            == if f.allowComments then ReadValue(f, doc, t.end, depth, held)
               else Done(false, t.end, held, [ErrorInfo("Syntax error: value, object or array expected.", t)])
  {
    hide ReadMembers, ReadItems, ReadToken;
  }

  /** A list with nothing but comments in it is refused, comments allowed or not, unless placeholders may be dropped. */
  lemma CommentInEmptyList(f: Features, doc: string, p: nat, depth: nat, held: Json)
    requires p <= |doc| && depth <= f.stackLimit && !f.allowDroppedNullPlaceholders
    requires FirstToken(f, doc, p).kind.ArrayBegin?
    requires var q := FirstToken(f, doc, p).end;
             ReadToken(f, doc, q).kind.Comment? && SkipComments(f, doc, q).kind.ArrayEnd?
    ensures var r := ReadValue(f, doc, p, depth, held); r.Thrown? || !r.ok
  {
    hide ReadValue, FirstToken, SkipComments, ReadToken, Stands;
    var r := ReadValue(f, doc, p, depth, held);
    var q := FirstToken(f, doc, p).end;
    if r.Done? && r.ok {
      var v := ReadIsGrammatical(f, doc, p, depth, held);
      OnlyLists(f, doc, p, depth, v);
      NoFirstItem(f, doc, q, depth, v.items[0]);
    }
  }

  lemma OnlyLists(f: Features, doc: string, p: nat, depth: nat, v: Tree)
    requires Stands(f, doc, p, depth, v) && FirstToken(f, doc, p).kind.ArrayBegin?
    ensures v.List? && ItemsStand(f, doc, FirstToken(f, doc, p).end, depth, v.items, v.end, true)
  {
    hide FirstToken, ItemsStand, RowsStand, StringMeans, NumberMeans;
  }

  lemma NoFirstItem(f: Features, doc: string, q: nat, depth: nat, v: Tree)
    requires q <= |doc| && !f.allowDroppedNullPlaceholders
    requires ReadToken(f, doc, q).kind.Comment? && SkipComments(f, doc, q).kind.ArrayEnd?
    ensures !Stands(f, doc, q, depth + 1, v)
  {
    hide ReadToken, SkipComments, ItemsStand, RowsStand, StringMeans, NumberMeans;
  }
}
