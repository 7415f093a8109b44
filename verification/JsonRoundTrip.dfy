/**
 Printing then parsing: the reader gives back every value the styled writer prints, up to the signedness tag of
 non-negative integers that fit 64 signed bits and with its strings as quoting leaves them, exactly when the nesting
 stays within the stack limit.
 */
module JsonRoundTrip {
  import opened JsonString
  import opened JsonNumber
  import opened JsonValue
  import opened JsonReader
  import opened JsonWriter

  // ---------------------------------------------------------------- what is printed and what comes back

  predicate Spaces(t: string) { forall k :: 0 <= k < |t| ==> IsSpace(t[k]) }

  /** A style StreamWriterBuilder can build from a white-space indentation without dropping nulls. */
  predicate BuiltStyle(st: Style) {
    Spaces(st.indentation) && st.nullSymbol == "null" && BuiltColon(st.colonSymbol)
  }

  predicate BuiltColon(colon: string) { colon == " : " || colon == ": " || colon == ":" }

  /** Strings that survive quoting. */
  predicate PrintableString(st: Style, s: string) { st.emitUtf8 || ValidUtf8(s) }

  /** Values of the source's types, without reals, whose keys survive quoting. */
  predicate Printable(st: Style, v: Json) {
    match v
    case Null => true
    case Bool(_) => true
    case Int(i) => MIN_INT64 <= i <= MAX_INT64
    case UInt(u) => 0 <= u <= MAX_UINT64
    case Real(_) => false
    case Str(_) => true
    case Arr(items) => forall k :: 0 <= k < |items| ==> Printable(st, items[k])
    case Obj(members) =>
      && SortedKeys(members)
      && forall k :: 0 <= k < |members| ==>
           |members[k].name| < MAX_KEY && PrintableString(st, members[k].name) && Printable(st, members[k].value)
  }

  /** What quoting leaves of a string. */
  function Survivor(emitUtf8: bool, s: string): string { if emitUtf8 then s else RepairFrom(s, 0) }

  /**
   The value with every unsigned integer that fits int64 tagged as signed, and every string as quoting leaves it. With
   emitUtf8 the strings are unchanged.
   */
  function Normal(emitUtf8: bool, v: Json): Json
    decreases v, 0
  {
    match v
    case UInt(u) => if u <= MAX_INT64 then Int(u) else v
    case Str(s) => Str(Survivor(emitUtf8, s))
    case Arr(items) => Arr(NormalItems(emitUtf8, items, |items|))
    case Obj(members) => Obj(NormalMembers(emitUtf8, members, |members|))
    case _ => v
  }

  function NormalItems(emitUtf8: bool, items: seq<Json>, n: nat): (r: seq<Json>)
    requires n <= |items|
    ensures |r| == n
    decreases items, n
  {
    if n == 0 then [] else NormalItems(emitUtf8, items, n - 1) + [Normal(emitUtf8, items[n - 1])]
  }

  function NormalMembers(emitUtf8: bool, members: seq<Member>, n: nat): (r: seq<Member>)
    requires n <= |members|
    ensures |r| == n && forall k :: 0 <= k < n ==> r[k].name == members[k].name
    decreases members, n
  {
    if n == 0 then []
    else
      var m := members[n - 1];
      NormalMembers(emitUtf8, members, n - 1) + [Member(m.name, Normal(emitUtf8, m.value))]
  }

  /** Every string in the value, keys apart, is well-formed UTF-8. */
  predicate AllUtf8(v: Json) {
    match v
    case Str(s) => ValidUtf8(s)
    case Arr(items) => forall k :: 0 <= k < |items| ==> AllUtf8(items[k])
    case Obj(members) => forall k :: 0 <= k < |members| ==> AllUtf8(members[k].value)
    case _ => true
  }

  /** Reading v at a nesting depth: done at q when the nesting fits, the stack-limit exception otherwise. */
  function Expected(f: Features, depth: nat, nesting: nat, v: Json, q: nat): Reading {
    if depth + nesting <= f.stackLimit + 1 then Done(true, q, v, []) else Thrown(STACK_LIMIT)
  }

  /** A number may end at e: the text does not go on as a number. */
  predicate Ends(doc: string, e: nat) {
    e >= |doc| || (!IsDigit(doc[e]) && doc[e] != '.' && doc[e] != 'e' && doc[e] != 'E')
  }

  // ---------------------------------------------------------------- white space and punctuation

  lemma {:induction false} SpacesAreSkipped(doc: string, p: nat, ws: string)
    requires At(doc, p, ws) && Spaces(ws)
    ensures SkipSpaces(doc, p) == SkipSpaces(doc, p + |ws|)
    decreases |ws|
  {
    if ws != "" {
      AtChar(doc, p, ws, 0);
      assert ws == ws[..1] + ws[1..];
      AtSplit(doc, p, ws[..1], ws[1..]);
      SpacesAreSkipped(doc, p + 1, ws[1..]);
    }
  }

  /** Reading does not depend on white space before the token. */
  lemma ReadAfterSpaces(f: Features, doc: string, p: nat, ws: string, depth: nat, held: Json)
    requires At(doc, p, ws) && Spaces(ws)
    ensures ReadToken(f, doc, p) == ReadToken(f, doc, p + |ws|)
    ensures SkipComments(f, doc, p) == SkipComments(f, doc, p + |ws|)
    ensures ReadValue(f, doc, p, depth, held) == ReadValue(f, doc, p + |ws|, depth, held)
  {
    SpacesAreSkipped(doc, p, ws);
  }

  lemma NewLineIsSpaces(st: Style, indent: string)
    requires BuiltStyle(st) && Spaces(indent)
    ensures Spaces(NewLine(st, indent)) && Spaces(indent + st.indentation) && Spaces(Pad(st))
  {
  }

  function Punctuation(c: char): TokenType
    requires c in "{}[],:"
  {
    match c
    case '{' => ObjectBegin
    case '}' => ObjectEnd
    case '[' => ArrayBegin
    case ']' => ArrayEnd
    case ',' => ArraySeparator
    case _ => MemberSeparator
  }

  /** A punctuation character after white space is read as its token, also when comments are skipped. */
  lemma ReadsPunctuation(f: Features, doc: string, p: nat, ws: string, c: char)
    requires c in "{}[],:" && Spaces(ws) && At(doc, p, ws + [c])
    ensures ReadToken(f, doc, p) == Token(Punctuation(c), p + |ws|, p + |ws| + 1)
    ensures SkipComments(f, doc, p) == ReadToken(f, doc, p) == FirstToken(f, doc, p)
  {
    AtSplit(doc, p, ws, [c]);
    AtChar(doc, p + |ws|, [c], 0);
    SpacesAreSkipped(doc, p, ws);
  }

  // ---------------------------------------------------------------- values written in one piece

  lemma {:induction false} DigitsAreSkipped(doc: string, p: nat, t: string)
    requires At(doc, p, t) && AllDigits(t) && Ends(doc, p + |t|)
    ensures ScanNumber(doc, p) == p + |t| && SkipDigits(doc, p) == p + |t|
    decreases |t|
  {
    if t != "" {
      AtChar(doc, p, t, 0);
      assert t == t[..1] + t[1..];
      AtSplit(doc, p, t[..1], t[1..]);
      DigitsAreSkipped(doc, p + 1, t[1..]);
    }
  }

  lemma IntTextShape(v: int)
    ensures var t := IntText(v); t != "" && AllDigits(t[1..]) && (t[0] == '-' || IsDigit(t[0]))
    ensures IntText(v)[0] == '-' ==> |IntText(v)| > 1
  {
    if v < 0 {
      assert IntText(v)[1..] == UIntText(-v);
    }
  }

  lemma NumberToken(f: Features, doc: string, p: nat, v: int)
    requires At(doc, p, IntText(v)) && Ends(doc, p + |IntText(v)|)
    ensures FirstToken(f, doc, p) == Token(JsonReader.NumberToken, p, p + |IntText(v)|)
  {
    hide IntText, At, Ends, AllDigits, ScanNumber;
    var t := IntText(v);
    IntTextShape(v);
    AtChar(doc, p, t, 0);
    assert t == t[..1] + t[1..];
    AtSplit(doc, p, t[..1], t[1..]);
    if |t| > 1 {
      AtChar(doc, p + 1, t[1..], 0);
      FirstIsDigit(t[1..]);
    }
    DigitsAreSkipped(doc, p + 1, t[1..]);
    assert SkipSpaces(doc, p) == p;
  }

  lemma FirstIsDigit(t: string)
    requires AllDigits(t) && t != ""
    ensures IsDigit(t[0])
  {
  }

  lemma ScalarValue(f: Features, doc: string, p: nat, depth: nat, held: Json)
    requires p <= |doc| && depth <= f.stackLimit
    requires !FirstToken(f, doc, p).kind.ObjectBegin? && !FirstToken(f, doc, p).kind.ArrayBegin?
    ensures ReadValue(f, doc, p, depth, held) == ScalarReading(f, doc, FirstToken(f, doc, p), held)
  {
  }

  lemma ReadsNumber(f: Features, doc: string, p: nat, depth: nat, held: Json, v: int)
    requires MIN_INT64 <= v <= MAX_UINT64 && At(doc, p, IntText(v)) && Ends(doc, p + |IntText(v)|)
             && depth <= f.stackLimit
    ensures ReadValue(f, doc, p, depth, held)
         == Done(true, p + |IntText(v)|, if v <= MAX_INT64 then Int(v) else UInt(v), [])
  {
    NumberRoundTrip(v);
    NumberToken(f, doc, p, v);
    ScalarValue(f, doc, p, depth, held);
    assert TokenText(doc, FirstToken(f, doc, p)) == IntText(v);
  }

  lemma WordToken(f: Features, doc: string, p: nat, c: char, rest: string, kind: TokenType)
    requires (c, rest, kind) in {('n', "ull", NullToken), ('t', "rue", TrueToken), ('f', "alse", FalseToken)}
    requires At(doc, p, [c] + rest)
    ensures FirstToken(f, doc, p) == Token(kind, p, p + 1 + |rest|)
  {
    AtSplit(doc, p, [c], rest);
    AtChar(doc, p, [c], 0);
    assert SkipSpaces(doc, p) == p;
  }

  lemma ReadsWord(f: Features, doc: string, p: nat, depth: nat, held: Json, word: string, value: Json)
    requires (word, value) in {("null", Null), ("true", Bool(true)), ("false", Bool(false))}
    requires At(doc, p, word) && depth <= f.stackLimit
    ensures ReadValue(f, doc, p, depth, held) == Done(true, p + |word|, value, [])
  {
    var kind := if value.Null? then NullToken else if value.b then TrueToken else FalseToken;
    WordToken(f, doc, p, word[0], word[1..], kind);
    ScalarValue(f, doc, p, depth, held);
  }

  lemma StringTokenAt(f: Features, doc: string, p: nat, q: nat)
    requires p < |doc| && doc[p] == '\"' && ScanString(doc, p + 1, '\"') == (true, q)
    ensures ReadToken(f, doc, p) == SkipComments(f, doc, p) == FirstToken(f, doc, p) == Token(StringToken, p, q)
  {
    assert SkipSpaces(doc, p) == p;
  }

  lemma QuoteSurvivor(s: string, emitUtf8: bool)
    ensures DecodeString(QuoteFrom(s, 0, emitUtf8)) == JsonString.Text(Survivor(emitUtf8, s))
    ensures Survivor(emitUtf8, s) == s <==> emitUtf8 || ValidUtf8(s)
  {
    var body := QuoteFrom(s, 0, emitUtf8);
    QuoteRoundTrip(s, emitUtf8);
    if !emitUtf8 {
      assert body[0..|body|] == body;
      QuoteDecodesToRepair(body, 0, s, 0);
    }
    hide QuoteFrom, DecodeFrom, RepairFrom;
  }

  /** A quoted string is read as one token whose body decodes to what quoting leaves of it. */
  lemma ReadsQuoted(f: Features, st: Style, doc: string, p: nat, s: string)
    requires At(doc, p, Quote(s, st.emitUtf8))
    ensures var t := Token(StringToken, p, p + |Quote(s, st.emitUtf8)|);
            && ReadToken(f, doc, p) == SkipComments(f, doc, p) == FirstToken(f, doc, p) == t
            && DecodeString(TokenBody(doc, t)) == JsonString.Text(Survivor(st.emitUtf8, s))
    ensures Survivor(st.emitUtf8, s) == s <==> PrintableString(st, s)
  {
    hide Quote, QuoteFrom, DecodeFrom, RepairFrom, ScanString, ReadToken, SkipComments, FirstToken;
    var q := p + |Quote(s, st.emitUtf8)|;
    QuoteIsOneToken(doc, p, s, st.emitUtf8);
    QuoteSurvivor(s, st.emitUtf8);
    StringTokenAt(f, doc, p, q);
  }

  lemma ReadsKeyString(f: Features, st: Style, doc: string, p: nat, name: string)
    requires PrintableString(st, name) && At(doc, p, Quote(name, st.emitUtf8))
    ensures var t := Token(StringToken, p, p + |Quote(name, st.emitUtf8)|);
            && ReadToken(f, doc, p) == SkipComments(f, doc, p) == FirstToken(f, doc, p) == t
            && DecodeString(TokenBody(doc, t)) == JsonString.Text(name)
  {
    hide *;
    ReadsQuoted(f, st, doc, p, name);
  }

  lemma ReadsString(f: Features, st: Style, doc: string, p: nat, depth: nat, held: Json, s: string)
    requires At(doc, p, Quote(s, st.emitUtf8)) && depth <= f.stackLimit
    ensures ReadValue(f, doc, p, depth, held)
            == Done(true, p + |Quote(s, st.emitUtf8)|, Str(Survivor(st.emitUtf8, s)), [])
  {
    ReadsQuoted(f, st, doc, p, s);
    ScalarValue(f, doc, p, depth, held);
  }

  lemma ReadsEmpty(f: Features, doc: string, p: nat, depth: nat, held: Json, text: string, value: Json)
    requires (text, value) in {("[]", Arr([])), ("{}", Obj([]))}
    requires At(doc, p, text) && depth <= f.stackLimit
    ensures ReadValue(f, doc, p, depth, held) == Done(true, p + 2, value, [])
  {
    assert text == [text[0]] + [text[1]];
    AtSplit(doc, p, [text[0]], [text[1]]);
    ReadsPunctuation(f, doc, p, "", text[0]);
    ReadsPunctuation(f, doc, p + 1, "", text[1]);
    AtChar(doc, p, text, 1);
  }

  lemma ReadsAtom(f: Features, st: Style, doc: string, p: nat, depth: nat, held: Json, v: Json)
    requires BuiltStyle(st) && Printable(st, v) && !Opens(v) && depth <= f.stackLimit
    requires At(doc, p, AtomText(st, v)) && Ends(doc, p + |AtomText(st, v)|)
    ensures ReadValue(f, doc, p, depth, held) == Done(true, p + |AtomText(st, v)|, Normal(st.emitUtf8, v), [])
  {
    hide ReadValue, QuoteFrom, ValidUtf8From, At, Ends, Quote, UIntText, ValidUtf8;
    match v
    case Null => ReadsWord(f, doc, p, depth, held, "null", v);
    case Bool(b) => ReadsWord(f, doc, p, depth, held, if b then "true" else "false", v);
    case Int(i) => ReadsNumber(f, doc, p, depth, held, i);
    case UInt(u) => ReadsNumber(f, doc, p, depth, held, u);
    case Str(s) => ReadsString(f, st, doc, p, depth, held, s);
    case Arr(_) => ReadsEmpty(f, doc, p, depth, held, "[]", v);
    case Obj(_) => ReadsEmpty(f, doc, p, depth, held, "{}", v);
  }

  // ---------------------------------------------------------------- one round of the container loops

  ghost predicate Fits(f: Features, depth: nat, nesting: nat) { depth + nesting <= f.stackLimit }

  /** At p an item is due: after white space stands something that is not a closing bracket. */
  ghost predicate ItemDue(doc: string, p: nat) {
    p <= |doc| && SkipSpaces(doc, p) < |doc| && doc[SkipSpaces(doc, p)] != ']'
  }

  lemma RoundOfItem(f: Features, doc: string, p: nat, depth: nat, items: seq<Json>)
    requires ItemDue(doc, p)
    ensures ReadItems(f, doc, p, depth, items) == ReadItem(f, doc, SkipSpaces(doc, p), depth, items)
  {
  }

  lemma SpacesBeforeValue(f: Features, doc: string, p: nat, depth: nat, held: Json)
    requires p <= |doc|
    ensures ReadValue(f, doc, SkipSpaces(doc, p), depth, held) == ReadValue(f, doc, p, depth, held)
  {
    hide ReadMembers, ReadItems, ScalarReading;
    SkipSpacesTwice(doc, p);
  }

  lemma {:induction false} SkipSpacesTwice(doc: string, p: nat)
    requires p <= |doc|
    ensures SkipSpaces(doc, SkipSpaces(doc, p)) == SkipSpaces(doc, p)
    decreases |doc| - p
  {
    if p < |doc| && IsSpace(doc[p]) {
      SkipSpacesTwice(doc, p + 1);
    }
  }

  lemma LastItem(f: Features, doc: string, p: nat, depth: nat, items: seq<Json>, v: Json, nesting: nat, q: nat,
        close: string)
    requires ItemDue(doc, p) && Spaces(close) && At(doc, q, close + "]")
    requires ReadValue(f, doc, p, depth + 1, Null) == Expected(f, depth + 1, nesting, v, q)
    ensures ReadItems(f, doc, p, depth, items)
         == if Fits(f, depth, nesting) then Done(true, q + |close| + 1, Arr(items + [v]), []) else Thrown(STACK_LIMIT)
  {
    hide ReadValue, ReadItems, SkipComments, ReadToken, FirstToken;
    RoundOfItem(f, doc, p, depth, items);
    SpacesBeforeValue(f, doc, p, depth + 1, Null);
    ReadsPunctuation(f, doc, q, close, ']');
  }

  lemma NextItem(f: Features, doc: string, p: nat, depth: nat, items: seq<Json>, v: Json, nesting: nat, q: nat)
    requires ItemDue(doc, p) && At(doc, q, ",")
    requires ReadValue(f, doc, p, depth + 1, Null) == Expected(f, depth + 1, nesting, v, q)
    ensures ReadItems(f, doc, p, depth, items)
         == if Fits(f, depth, nesting) then ReadItems(f, doc, q + 1, depth, items + [v]) else Thrown(STACK_LIMIT)
  {
    hide ReadValue, ReadItems, SkipComments, ReadToken, FirstToken;
    RoundOfItem(f, doc, p, depth, items);
    SpacesBeforeValue(f, doc, p, depth + 1, Null);
    ReadsPunctuation(f, doc, q, "", ',');
    assert "" + [','] == ",";
  }

  /** At p stand a quoted key and a colon, and at c the member's value. */
  ghost predicate KeyAndColon(f: Features, doc: string, p: nat, key: string, c: nat) {
    && p <= |doc| && |key| < MAX_KEY
    && var t := SkipComments(f, doc, p);
    && t.kind.StringToken? && DecodeString(TokenBody(doc, t)) == JsonString.Text(key)
    && ReadToken(f, doc, t.end).kind.MemberSeparator? && ReadToken(f, doc, t.end).end == c
  }

  lemma RoundOfMember(f: Features, doc: string, p: nat, depth: nat, ms: seq<Member>, name: string, key: string, c: nat)
    requires KeyAndColon(f, doc, p, key, c) && !HasMember(ms, key)
    ensures c <= |doc| && ReadMembers(f, doc, p, depth, ms, name) == ReadMemberValue(f, doc, c, depth, ms, key)
  {
    hide ReadMemberValue, SkipComments, ReadToken, DecodeString, TokenBody;
  }

  lemma LastMember(f: Features, doc: string, p: nat, depth: nat, ms: seq<Member>, name: string, key: string, c: nat,
                   v: Json, nesting: nat, q: nat, close: string)
    requires KeyAndColon(f, doc, p, key, c) && !HasMember(ms, key) && Spaces(close) && At(doc, q, close + "}")
    requires ReadValue(f, doc, c, depth + 1, Find(ms, key)) == Expected(f, depth + 1, nesting, v, q)
    ensures ReadMembers(f, doc, p, depth, ms, name)
         == if Fits(f, depth, nesting) then Done(true, q + |close| + 1, Obj(Assign(ms, key, v)), [])
             else Thrown(STACK_LIMIT)
  {
    hide ReadValue, ReadMembers, SkipComments, ReadToken, FirstToken, Assign, Find, KeyAndColon;
    RoundOfMember(f, doc, p, depth, ms, name, key, c);
    ReadsPunctuation(f, doc, q, close, '}');
  }

  lemma NextMember(f: Features, doc: string, p: nat, depth: nat, ms: seq<Member>, name: string, key: string, c: nat,
                   v: Json, nesting: nat, q: nat)
    requires KeyAndColon(f, doc, p, key, c) && !HasMember(ms, key) && At(doc, q, ",")
    requires ReadValue(f, doc, c, depth + 1, Find(ms, key)) == Expected(f, depth + 1, nesting, v, q)
    ensures ReadMembers(f, doc, p, depth, ms, name)
         == if Fits(f, depth, nesting) then ReadMembers(f, doc, q + 1, depth, Assign(ms, key, v), key)
             else Thrown(STACK_LIMIT)
  {
    hide ReadValue, ReadMembers, SkipComments, ReadToken, FirstToken, Assign, Find, KeyAndColon;
    RoundOfMember(f, doc, p, depth, ms, name, key, c);
    ReadsPunctuation(f, doc, q, "", ',');
    assert "" + [','] == ",";
  }

  // ---------------------------------------------------------------- the round trip, by induction on the value

  lemma UIntTextStarts(v: nat)
    ensures UIntText(v) != "" && IsDigit(UIntText(v)[0])
  {
  }

  /** A settled value starts with a character that is neither white space nor a closing bracket. */
  lemma StartsProperly(st: Style, v: Json, indent: string)
    requires BuiltStyle(st) && Printable(st, v)
    ensures var t := ValueText(st, v, indent, true); t != "" && !IsSpace(t[0]) && t[0] != ']'
  {
    hide RowText, ItemsText, MembersText, QuoteFrom, UIntText, IsWide;
    if v.Int? || v.UInt? {
      UIntTextStarts(if v.UInt? then v.u else if v.i < 0 then -v.i else v.i);
    }
  }

  lemma ItemIsDue(st: Style, doc: string, p: nat, ws: string, v: Json, indent: string)
    requires BuiltStyle(st) && Printable(st, v) && Spaces(ws)
    requires At(doc, p, ws) && At(doc, p + |ws|, ValueText(st, v, indent, true))
    ensures ItemDue(doc, p)
  {
    StartsProperly(st, v, indent);
    SpacesAreSkipped(doc, p, ws);
    AtChar(doc, p + |ws|, ValueText(st, v, indent, true), 0);
  }

  /** What follows a value in its container is no continuation of a number. */
  lemma EndsBefore(doc: string, q: nat, ws: string, c: char)
    requires At(doc, q, ws + [c]) && Spaces(ws) && c in "{}[],:"
    ensures Ends(doc, q)
  {
    AtChar(doc, q, ws + [c], 0);
  }

  lemma AtomLine(st: Style, v: Json, indent: string, settled: bool)
    requires !Opens(v)
    ensures ValueText(st, v, indent, settled) == AtomText(st, v)
  {
  }

  lemma TooDeep(f: Features, doc: string, p: nat, depth: nat, held: Json, v: Json)
    requires p <= |doc| && depth > f.stackLimit
    ensures Depth(v) >= 1 && ReadValue(f, doc, p, depth, held) == Thrown(STACK_LIMIT)
  {
    hide ReadMembers, ReadItems, ScalarReading, FirstToken;
  }

  lemma ReadsValue(f: Features, st: Style, doc: string, p: nat, depth: nat, held: Json, v: Json, indent: string,
        settled: bool)
    requires BuiltStyle(st) && Spaces(indent) && Printable(st, v)
    requires At(doc, p, ValueText(st, v, indent, settled)) && Ends(doc, p + |ValueText(st, v, indent, settled)|)
    ensures ReadValue(f, doc, p, depth, held)
         == Expected(f, depth, Depth(v), Normal(st.emitUtf8, v), p + |ValueText(st, v, indent, settled)|)
    decreases v, 2
  {
    hide BuiltStyle, ReadValue, ReadMembers, ReadItems, Sound, Printable, Normal, Depth, ValueText, AtomText, Spaces,
        Ends;
    if depth > f.stackLimit {
      TooDeep(f, doc, p, depth, held, v);
    } else if !Opens(v) {
      AtomLine(st, v, indent, settled);
      ReadsScalar(f, st, doc, p, depth, held, v);
    } else if v.Arr? && !IsMultiLine(st, v.items) {
      ReadsRowArray(f, st, doc, p, depth, held, v, indent, settled);
    } else {
      ReadsBlock(f, st, doc, p, depth, held, v, indent, settled);
    }
  }

  lemma ContainerValue(f: Features, doc: string, p: nat, depth: nat, held: Json)
    requires p <= |doc| && depth <= f.stackLimit
    ensures var t := FirstToken(f, doc, p);
            && (t.kind.ArrayBegin? ==> ReadValue(f, doc, p, depth, held) == ReadItems(f, doc, t.end, depth, []))
            && (t.kind.ObjectBegin? ==> ReadValue(f, doc, p, depth, held) == ReadMembers(f, doc, t.end, depth, [], ""))
  {
    hide ReadMembers, ReadItems, ScalarReading, ReadToken, SkipComments, FirstToken;
  }

  lemma OpensArray(f: Features, doc: string, p: nat, ws: string, depth: nat, held: Json)
    requires Spaces(ws) && At(doc, p, ws + "[") && depth <= f.stackLimit
    ensures ReadValue(f, doc, p, depth, held) == ReadItems(f, doc, p + |ws| + 1, depth, [])
  {
    hide ReadMembers, ReadItems, ReadValue, ReadToken, SkipComments, FirstToken, Sound;
    ReadsPunctuation(f, doc, p, ws, '[');
    ContainerValue(f, doc, p, depth, held);
  }

  lemma OpensObject(f: Features, doc: string, p: nat, ws: string, depth: nat, held: Json)
    requires Spaces(ws) && At(doc, p, ws + "{") && depth <= f.stackLimit
    ensures ReadValue(f, doc, p, depth, held) == ReadMembers(f, doc, p + |ws| + 1, depth, [], "")
  {
    hide ReadMembers, ReadItems, ReadValue, ReadToken, SkipComments, FirstToken, Sound;
    ReadsPunctuation(f, doc, p, ws, '{');
    ContainerValue(f, doc, p, depth, held);
  }

  /** Where the parts of lead + (open + body + tail) stand. */
  lemma BlockLayout(doc: string, p: nat, lead: string, open: string, body: string, tail: string)
    requires |open| == 1 && At(doc, p, lead + (open + body + tail))
    ensures At(doc, p, lead + open) && At(doc, p + |lead| + 1, body + tail)
  {
    assert lead + (open + body + tail) == (lead + open) + (body + tail);
    AtSplit(doc, p, lead + open, body + tail);
  }

  lemma ReadsBlock(f: Features, st: Style, doc: string, p: nat, depth: nat, held: Json, v: Json, indent: string,
        settled: bool)
    requires BuiltStyle(st) && Spaces(indent) && Printable(st, v) && depth <= f.stackLimit
    requires Opens(v) && (v.Obj? || IsMultiLine(st, v.items))
    requires At(doc, p, ValueText(st, v, indent, settled))
    ensures ReadValue(f, doc, p, depth, held)
         == Expected(f, depth, Depth(v), Normal(st.emitUtf8, v), p + |ValueText(st, v, indent, settled)|)
    decreases v, 1
  {
    hide *;
    var lead, inner, close := if settled then "" else NewLine(st, indent), indent + st.indentation, NewLine(st, indent);
    BlockText(st, v, indent, settled);
    if v.Arr? {
      ReadsArrayBlock(f, st, doc, p, depth, held, v, lead, inner, close);
    } else {
      ReadsObjectBlock(f, st, doc, p, depth, held, v, lead, inner, close);
    }
  }

  lemma BlockText(st: Style, v: Json, indent: string, settled: bool)
    requires BuiltStyle(st) && Spaces(indent) && Opens(v) && (v.Obj? || IsMultiLine(st, v.items))
    ensures v.Arr? || v.Obj?
    ensures var (inner, close) := (indent + st.indentation, NewLine(st, indent));
            var lead := if settled then "" else close;
            && Spaces(lead) && Spaces(inner) && Spaces(close) && (if v.Arr? then v.items != [] else v.members != [])
            && ValueText(st, v, indent, settled) ==
               lead + if v.Arr? then "[" + ItemsText(st, v.items, 0, inner) + (close + "]")
                   else "{" + MembersText(st, v.members, 0, inner) + (close + "}")
  {
    NewLineIsSpaces(st, indent);
    hide ItemsText, MembersText, IsMultiLine;
  }

  lemma ReadsArrayBlock(f: Features, st: Style, doc: string, p: nat, depth: nat, held: Json, v: Json, lead: string,
        inner: string, close: string)
    requires BuiltStyle(st) && Spaces(lead) && Spaces(inner) && Spaces(close) && v.Arr? && v.items != []
             && Printable(st, v)
    requires depth <= f.stackLimit && At(doc, p, lead + ("[" + ItemsText(st, v.items, 0, inner) + (close + "]")))
    ensures ReadValue(f, doc, p, depth, held)
         == Expected(f, depth, Depth(v), Normal(st.emitUtf8, v),
             p + |lead| + 2 + |ItemsText(st, v.items, 0, inner)| + |close|)
    decreases v, 0
  {
    hide BuiltStyle, ReadMembers, ReadItems, ReadValue, ItemsText, At, Spaces, Sound;
    BlockLayout(doc, p, lead, "[", ItemsText(st, v.items, 0, inner), close + "]");
    OpensArray(f, doc, p, lead, depth, held);
    ReadsItems(f, st, doc, p + |lead| + 1, depth, v.items, 0, inner, close);
  }

  lemma ReadsObjectBlock(f: Features, st: Style, doc: string, p: nat, depth: nat, held: Json, v: Json, lead: string,
        inner: string, close: string)
    requires BuiltStyle(st) && Spaces(lead) && Spaces(inner) && Spaces(close) && v.Obj? && v.members != []
             && Printable(st, v)
    requires depth <= f.stackLimit && At(doc, p, lead + ("{" + MembersText(st, v.members, 0, inner) + (close + "}")))
    ensures ReadValue(f, doc, p, depth, held)
         == Expected(f, depth, Depth(v), Normal(st.emitUtf8, v),
             p + |lead| + 2 + |MembersText(st, v.members, 0, inner)| + |close|)
    decreases v, 0
  {
    hide BuiltStyle, ReadMembers, ReadItems, ReadValue, MembersText, At, Spaces, Sound;
    BlockLayout(doc, p, lead, "{", MembersText(st, v.members, 0, inner), close + "}");
    OpensObject(f, doc, p, lead, depth, held);
    ReadsMembers(f, st, doc, p + |lead| + 1, depth, v.members, 0, inner, close, "");
  }

  /** Where the parts of lead + text + (more or nothing) + tail stand. */
  lemma RoundLayout(doc: string, p: nat, lead: string, text: string, last: bool, comma: string, rest: string,
        tail: string)
    requires At(doc, p, (lead + text + if last then "" else comma + rest) + tail)
    ensures At(doc, p, lead) && At(doc, p + |lead|, text)
    ensures var q := p + |lead| + |text|;
            if last then At(doc, q, tail) else At(doc, q, comma) && At(doc, q + |comma|, rest + tail)
  {
    var q, more := p + |lead| + |text|, if last then "" else comma + rest;
    AtSplit(doc, p, lead + text + more, tail);
    AtSplit(doc, p, lead + text, more);
    AtSplit(doc, p, lead, text);
    if !last {
      AtSplit(doc, q, comma, rest);
      AtJoin(doc, q + |comma|, rest, tail);
    }
  }

  lemma {:induction false} ReadsItems(f: Features, st: Style, doc: string, p: nat, depth: nat, items: seq<Json>, k: nat,
                                      inner: string, close: string)
    requires BuiltStyle(st) && Spaces(inner) && Spaces(close) && k < |items|
    requires forall j :: 0 <= j < |items| ==> Printable(st, items[j])
    requires At(doc, p, ItemsText(st, items, k, inner) + (close + "]"))
    ensures ReadItems(f, doc, p, depth, NormalItems(st.emitUtf8, items, k))
         == if Fits(f, depth, DepthOfItems(items, k))
            then Done(true, p + |ItemsText(st, items, k, inner)| + |close| + 1,
                Arr(NormalItems(st.emitUtf8, items, |items|)), [])
            else Thrown(STACK_LIMIT)
    decreases items, |items| - k
  {
    hide BuiltStyle, ReadItems, ReadValue, ValueText, Normal, Depth, Printable, At, Spaces;
    var lead, text, last := NewLine(st, inner), ValueText(st, items[k], inner, true), k + 1 == |items|;
    var (v, q) := (p + |lead|, p + |lead| + |text|);
    ItemsLayout(st, doc, p, items, k, inner, close + "]");
    NewLineIsSpaces(st, inner);
    ItemIsDue(st, doc, p, lead, items[k], inner);
    ReadAfterSpaces(f, doc, p, lead, depth + 1, Null);
    if last {
      EndsBefore(doc, q, close, ']');
      ReadsValue(f, st, doc, v, depth + 1, Null, items[k], inner, true);
      LastItem(f, doc, p, depth, NormalItems(st.emitUtf8, items, k), Normal(st.emitUtf8, items[k]), Depth(items[k]), q,
          close);
    } else {
      EndsBeforeComma(doc, q);
      ReadsValue(f, st, doc, v, depth + 1, Null, items[k], inner, true);
      NextItem(f, doc, p, depth, NormalItems(st.emitUtf8, items, k), Normal(st.emitUtf8, items[k]), Depth(items[k]), q);
      ReadsItems(f, st, doc, q + 1, depth, items, k + 1, inner, close);
    }
  }

  lemma EndsBeforeComma(doc: string, q: nat)
    requires At(doc, q, ",")
    ensures Ends(doc, q)
  {
    AtChar(doc, q, ",", 0);
  }

  lemma ItemsLayout(st: Style, doc: string, p: nat, items: seq<Json>, k: nat, inner: string, tail: string)
    requires k < |items| && At(doc, p, ItemsText(st, items, k, inner) + tail)
    ensures At(doc, p, NewLine(st, inner)) && At(doc, p + |NewLine(st, inner)|, ValueText(st, items[k], inner, true))
    ensures var q := p + |NewLine(st, inner)| + |ValueText(st, items[k], inner, true)|;
            if k + 1 == |items| then At(doc, q, tail) && p + |ItemsText(st, items, k, inner)| == q
            else At(doc, q, ",") && At(doc, q + 1, ItemsText(st, items, k + 1, inner) + tail)
                 && p + |ItemsText(st, items, k, inner)| == q + 1 + |ItemsText(st, items, k + 1, inner)|
  {
    hide ValueText, NewLine, At;
    var last := k + 1 == |items|;
    var rest := if last then "" else ItemsText(st, items, k + 1, inner);
    RoundLayout(doc, p, NewLine(st, inner), ValueText(st, items[k], inner, true), last, ",", rest, tail);
  }

  lemma ReadsRowArray(f: Features, st: Style, doc: string, p: nat, depth: nat, held: Json, v: Json, indent: string,
        settled: bool)
    requires BuiltStyle(st) && Printable(st, v) && depth <= f.stackLimit && v.Arr? && Opens(v)
             && !IsMultiLine(st, v.items)
    requires At(doc, p, ValueText(st, v, indent, settled))
    ensures ReadValue(f, doc, p, depth, held)
         == Expected(f, depth, Depth(v), Normal(st.emitUtf8, v), p + |ValueText(st, v, indent, settled)|)
  {
    hide *;
    RowArrayText(st, v, indent, settled);
    RowItems(st, v);
    ReadsRowParts(f, st, doc, p, depth, held, v.items);
    RowExpected(f, st, depth, v, p + |ValueText(st, v, indent, settled)|);
  }

  lemma RowExpected(f: Features, st: Style, depth: nat, v: Json, q: nat)
    requires v.Arr?
    ensures Expected(f, depth, Depth(v), Normal(st.emitUtf8, v), q)
         == if Fits(f, depth, DepthOfItems(v.items, 0))
             then Done(true, q, Arr(NormalItems(st.emitUtf8, v.items, |v.items|)), []) else Thrown(STACK_LIMIT)
  {
    hide DepthOfItems, NormalItems;
  }

  lemma ReadsRowParts(f: Features, st: Style, doc: string, p: nat, depth: nat, held: Json, items: seq<Json>)
    requires BuiltStyle(st) && depth <= f.stackLimit && items != []
    requires forall j :: 0 <= j < |items| ==> Printable(st, items[j]) && !Opens(items[j])
    requires At(doc, p, "" + ("[" + (Pad(st) + RowText(st, items, 0)) + (Pad(st) + "]")))
    ensures ReadValue(f, doc, p, depth, held)
         == if Fits(f, depth, DepthOfItems(items, 0))
            then Done(true, p + 2 + 2 * |Pad(st)| + |RowText(st, items, 0)|,
                Arr(NormalItems(st.emitUtf8, items, |items|)), [])
            else Thrown(STACK_LIMIT)
  {
    hide *;
    NoSpaces();
    NewLineIsSpaces(st, "");
    NothingNormal(st.emitUtf8, items);
    var body := RowText(st, items, 0);
    BlockLayout(doc, p, "", "[", Pad(st) + body, Pad(st) + "]");
    RowParts(doc, p + 1, Pad(st), body, Pad(st) + "]");
    OpensArray(f, doc, p, "", depth, held);
    ReadsRow(f, st, doc, p + 1, depth, items, 0, Pad(st));
  }

  lemma NoSpaces()
    ensures Spaces("")
  {
  }

  lemma NothingNormal(emitUtf8: bool, items: seq<Json>)
    ensures NormalItems(emitUtf8, items, 0) == []
  {
  }

  lemma RowArrayText(st: Style, v: Json, indent: string, settled: bool)
    requires v.Arr? && Opens(v) && !IsMultiLine(st, v.items)
    ensures ValueText(st, v, indent, settled) == "" + ("[" + (Pad(st) + RowText(st, v.items, 0)) + (Pad(st) + "]"))
    ensures |ValueText(st, v, indent, settled)| == 2 + 2 * |Pad(st)| + |RowText(st, v.items, 0)|
  {
    hide RowText, IsMultiLine;
  }

  lemma RowItems(st: Style, v: Json)
    requires v.Arr? && Opens(v) && !IsMultiLine(st, v.items) && Printable(st, v)
    ensures v.items != [] && forall j :: 0 <= j < |v.items| ==> Printable(st, v.items[j]) && !Opens(v.items[j])
  {
  }

  lemma RowParts(doc: string, p: nat, pad: string, body: string, tail: string)
    requires At(doc, p, pad + body + tail)
    ensures At(doc, p, pad) && At(doc, p + |pad|, body + tail)
  {
    assert pad + body + tail == pad + (body + tail);
    AtSplit(doc, p, pad, body + tail);
  }

  lemma {:induction false} ReadsRow(f: Features, st: Style, doc: string, p: nat, depth: nat, items: seq<Json>, k: nat,
        lead: string)
    requires BuiltStyle(st) && k < |items| && Spaces(lead)
    requires forall j :: 0 <= j < |items| ==> Printable(st, items[j]) && !Opens(items[j])
    requires At(doc, p, lead) && At(doc, p + |lead|, RowText(st, items, k) + (Pad(st) + "]"))
    ensures ReadItems(f, doc, p, depth, NormalItems(st.emitUtf8, items, k))
         == if Fits(f, depth, DepthOfItems(items, k))
            then Done(true, p + |lead| + |RowText(st, items, k)| + |Pad(st)| + 1,
                Arr(NormalItems(st.emitUtf8, items, |items|)), [])
            else Thrown(STACK_LIMIT)
    decreases |items| - k
  {
    hide BuiltStyle, ReadItems, ReadValue, AtomText, Normal, Printable, Depth, At, Spaces;
    var last, space := k + 1 == |items|, Comma(st)[1..];
    var (v, q) := (p + |lead|, p + |lead| + |AtomText(st, items[k])|);
    RowLayout(st, doc, v, items, k, Pad(st) + "]");
    NewLineIsSpaces(st, "");
    AtomIsDue(st, doc, p, lead, items[k]);
    ReadAfterSpaces(f, doc, p, lead, depth + 1, Null);
    if last {
      EndsBefore(doc, q, Pad(st), ']');
      ReadsScalar(f, st, doc, v, depth + 1, Null, items[k]);
      LastItem(f, doc, p, depth, NormalItems(st.emitUtf8, items, k), Normal(st.emitUtf8, items[k]), 1, q, Pad(st));
    } else {
      EndsBeforeComma(doc, q);
      ReadsScalar(f, st, doc, v, depth + 1, Null, items[k]);
      NextItem(f, doc, p, depth, NormalItems(st.emitUtf8, items, k), Normal(st.emitUtf8, items[k]), 1, q);
      ReadsRow(f, st, doc, q + 1, depth, items, k + 1, space);
    }
  }

  lemma AtomIsDue(st: Style, doc: string, p: nat, ws: string, v: Json)
    requires BuiltStyle(st) && Printable(st, v) && Spaces(ws) && !Opens(v)
    requires At(doc, p, ws) && At(doc, p + |ws|, AtomText(st, v))
    ensures ItemDue(doc, p)
  {
    hide AtomText, Printable, At;
    ItemIsDue(st, doc, p, ws, v, "");
  }

  lemma RowLayout(st: Style, doc: string, p: nat, items: seq<Json>, k: nat, tail: string)
    requires k < |items| && (forall j :: 0 <= j < |items| ==> !Opens(items[j]))
             && At(doc, p, RowText(st, items, k) + tail)
    ensures At(doc, p, AtomText(st, items[k]))
    ensures var (q, space) := (p + |AtomText(st, items[k])|, Comma(st)[1..]);
            if k + 1 == |items| then At(doc, q, tail) && p + |RowText(st, items, k)| == q
            else At(doc, q, ",") && At(doc, q + 1, space) && Spaces(space)
                 && At(doc, q + 1 + |space|, RowText(st, items, k + 1) + tail)
                 && p + |RowText(st, items, k)| == q + 1 + |space| + |RowText(st, items, k + 1)|
  {
    hide AtomText, At;
    var last, text := k + 1 == |items|, AtomText(st, items[k]);
    var rest := if last then "" else RowText(st, items, k + 1);
    assert "" + text == text;
    RoundLayout(doc, p, "", text, last, Comma(st), rest, tail);
    if !last {
      assert Comma(st) == "," + Comma(st)[1..];
      AtSplit(doc, p + |text|, ",", Comma(st)[1..]);
    }
  }

  lemma ReadsScalar(f: Features, st: Style, doc: string, p: nat, depth: nat, held: Json, v: Json)
    requires BuiltStyle(st) && Printable(st, v) && !Opens(v)
    requires At(doc, p, AtomText(st, v)) && Ends(doc, p + |AtomText(st, v)|)
    ensures Depth(v) == 1
    ensures ReadValue(f, doc, p, depth, held) == Expected(f, depth, 1, Normal(st.emitUtf8, v), p + |AtomText(st, v)|)
  {
    hide ReadMembers, ReadItems, ScalarReading, FirstToken, AtomText;
    if depth <= f.stackLimit {
      ReadsAtom(f, st, doc, p, depth, held, v);
    }
  }

  lemma ColonToken(f: Features, st: Style, doc: string, p: nat) returns (c: nat)
    requires BuiltStyle(st) && At(doc, p, st.colonSymbol)
    ensures ReadToken(f, doc, p).kind.MemberSeparator? && ReadToken(f, doc, p).end == c <= p + |st.colonSymbol|
    ensures At(doc, c, st.colonSymbol[c - p..]) && Spaces(st.colonSymbol[c - p..])
  {
    hide ReadToken, SkipComments, FirstToken;
    var before, after := if st.colonSymbol == " : " then " " else "", if st.colonSymbol == ":" then "" else " ";
    assert st.colonSymbol == before + ":" + after;
    AtSplit(doc, p, before + ":", after);
    ReadsPunctuation(f, doc, p, before, ':');
    c := p + |before| + 1;
    assert st.colonSymbol[c - p..] == after;
  }

  /** The text of a member up to its value. */
  lemma ReadsKey(f: Features, st: Style, doc: string, p: nat, lead: string, name: string) returns (c: nat)
    requires BuiltStyle(st) && Spaces(lead) && PrintableString(st, name) && |name| < MAX_KEY
    requires At(doc, p, lead + Quote(name, st.emitUtf8) + st.colonSymbol)
    ensures KeyAndColon(f, doc, p, name, c)
    ensures var v := p + |lead + Quote(name, st.emitUtf8) + st.colonSymbol|;
            c <= v <= |doc| && Spaces(doc[c..v])
  {
    hide BuiltColon, Quote, ReadToken, SkipComments, FirstToken, DecodeString, TokenBody, ReadValue, Sound;
    var quoted := Quote(name, st.emitUtf8);
    AtSplit(doc, p, lead + quoted, st.colonSymbol);
    AtSplit(doc, p, lead, quoted);
    ReadAfterSpaces(f, doc, p, lead, 0, Null);
    ReadsKeyString(f, st, doc, p + |lead|, name);
    c := ColonToken(f, st, doc, p + |lead| + |quoted|);
    var v := p + |lead + quoted + st.colonSymbol|;
    assert doc[c..v] == st.colonSymbol[|st.colonSymbol| - (v - c)..];
  }

  lemma MembersLayout(st: Style, doc: string, p: nat, members: seq<Member>, k: nat, inner: string, tail: string)
    requires k < |members| && At(doc, p, MembersText(st, members, k, inner) + tail)
    ensures var (lead, text) := (KeyText(st, members[k], inner), ValueText(st, members[k].value, inner, false));
            var q := p + |lead| + |text|;
            && At(doc, p, lead) && At(doc, p + |lead|, text)
            && if k + 1 == |members| then At(doc, q, tail) && p + |MembersText(st, members, k, inner)| == q
               else At(doc, q, ",") && At(doc, q + 1, MembersText(st, members, k + 1, inner) + tail)
                    && p + |MembersText(st, members, k, inner)| == q + 1 + |MembersText(st, members, k + 1, inner)|
  {
    hide ValueText, NewLine, Quote, At;
    var last := k + 1 == |members|;
    var rest := if last then "" else MembersText(st, members, k + 1, inner);
    RoundLayout(doc, p, KeyText(st, members[k], inner), ValueText(st, members[k].value, inner, false), last, ",", rest,
        tail);
  }

  function KeyText(st: Style, m: Member, inner: string): string {
    NewLine(st, inner) + Quote(m.name, st.emitUtf8) + st.colonSymbol
  }

  /** Sorted keys: storing the next member appends it. */
  lemma NextMemberAppends(emitUtf8: bool, members: seq<Member>, k: nat)
    requires k < |members| && SortedKeys(members)
    ensures Assign(NormalMembers(emitUtf8, members, k), members[k].name, Normal(emitUtf8, members[k].value))
            == NormalMembers(emitUtf8, members, k + 1)
    ensures !HasMember(NormalMembers(emitUtf8, members, k), members[k].name)
  {
    AssignAppends(NormalMembers(emitUtf8, members, k), members[k].name, Normal(emitUtf8, members[k].value));
  }

  lemma MemberIsPrintable(st: Style, members: seq<Member>, k: nat)
    requires k < |members| && Printable(st, Obj(members))
    ensures SortedKeys(members) && |members[k].name| < MAX_KEY
    ensures PrintableString(st, members[k].name) && Printable(st, members[k].value)
  {
    hide SortedKeys, PrintableString;
  }

  lemma FitsWithMember(f: Features, depth: nat, members: seq<Member>, k: nat)
    requires k < |members|
    ensures Fits(f, depth, DepthOfMembers(members, k)) <==>
              && Fits(f, depth, Depth(members[k].value))
              && (k + 1 < |members| ==> Fits(f, depth, DepthOfMembers(members, k + 1)))
  {
    hide Depth;
  }

  lemma {:induction false} ReadsMembers(f: Features, st: Style, doc: string, p: nat, depth: nat, members: seq<Member>,
        k: nat, inner: string, close: string, name: string)
    requires BuiltStyle(st) && Spaces(inner) && Spaces(close) && k < |members| && Printable(st, Obj(members))
    requires At(doc, p, MembersText(st, members, k, inner) + (close + "}"))
    ensures ReadMembers(f, doc, p, depth, NormalMembers(st.emitUtf8, members, k), name)
         == if Fits(f, depth, DepthOfMembers(members, k))
            then Done(true, p + |MembersText(st, members, k, inner)| + |close| + 1,
                Obj(NormalMembers(st.emitUtf8, members, |members|)), [])
            else Thrown(STACK_LIMIT)
    decreases members, |members| - k
  {
    hide *;
    MemberIsPrintable(st, members, k);
    FitsWithMember(f, depth, members, k);
    var m, ms, last := members[k], NormalMembers(st.emitUtf8, members, k), k + 1 == |members|;
    var (v, q) := (p + |KeyText(st, m, inner)|, p + |KeyText(st, m, inner)| + |ValueText(st, m.value, inner, false)|);
    MembersLayout(st, doc, p, members, k, inner, close + "}");
    NextMemberAppends(st.emitUtf8, members, k);
    if last {
      EndsBefore(doc, q, close, '}');
      var c := ReadsMember(f, st, doc, p, depth, Find(ms, m.name), m, inner);
      LastMember(f, doc, p, depth, ms, name, m.name, c, Normal(st.emitUtf8, m.value), Depth(m.value), q, close);
    } else {
      EndsBeforeComma(doc, q);
      var c := ReadsMember(f, st, doc, p, depth, Find(ms, m.name), m, inner);
      NextMember(f, doc, p, depth, ms, name, m.name, c, Normal(st.emitUtf8, m.value), Depth(m.value), q);
      ReadsMembers(f, st, doc, q + 1, depth, members, k + 1, inner, close, m.name);
    }
  }

  /** A member's key and colon are read, and its value from the cursor after them. */
  lemma ReadsMember(f: Features, st: Style, doc: string, p: nat, depth: nat, held: Json, m: Member, inner: string)
    returns (c: nat)
    requires BuiltStyle(st) && Spaces(inner) && PrintableString(st, m.name) && |m.name| < MAX_KEY
             && Printable(st, m.value)
    requires At(doc, p, KeyText(st, m, inner))
             && At(doc, p + |KeyText(st, m, inner)|, ValueText(st, m.value, inner, false))
    requires Ends(doc, p + |KeyText(st, m, inner)| + |ValueText(st, m.value, inner, false)|)
    ensures KeyAndColon(f, doc, p, m.name, c) && c <= |doc|
    ensures ReadValue(f, doc, c, depth + 1, held)
         == Expected(f, depth + 1, Depth(m.value), Normal(st.emitUtf8, m.value),
                     p + |KeyText(st, m, inner)| + |ValueText(st, m.value, inner, false)|)
    decreases m
  {
    hide BuiltStyle, Sound, ReadValue, ValueText, Normal, Depth, KeyAndColon, Quote, At, Spaces;
    var v := p + |KeyText(st, m, inner)|;
    NewLineIsSpaces(st, inner);
    c := ReadsKey(f, st, doc, p, NewLine(st, inner), m.name);
    ReadAfterSpaces(f, doc, c, doc[c..v], depth + 1, held);
    ReadsValue(f, st, doc, v, depth + 1, held, m.value, inner, false);
  }

  // ---------------------------------------------------------------- which strings survive

  lemma {:induction false} ItemsSurvive(emitUtf8: bool, items: seq<Json>, n: nat)
    requires n <= |items|
    ensures NormalItems(emitUtf8, items, n) == NormalItems(true, items, n) <==>
              emitUtf8 || forall k :: 0 <= k < n ==> AllUtf8(items[k])
    decreases items, n
  {
    if n > 0 {
      hide AllUtf8, Normal;
      ItemsSurvive(emitUtf8, items, n - 1);
      StringsSurvive(emitUtf8, items[n - 1]);
      SameEnds(NormalItems(emitUtf8, items, n - 1), Normal(emitUtf8, items[n - 1]),
               NormalItems(true, items, n - 1), Normal(true, items[n - 1]));
    }
  }

  lemma {:induction false} MembersSurvive(emitUtf8: bool, members: seq<Member>, n: nat)
    requires n <= |members|
    ensures NormalMembers(emitUtf8, members, n) == NormalMembers(true, members, n) <==>
              emitUtf8 || forall k :: 0 <= k < n ==> AllUtf8(members[k].value)
    decreases members, n
  {
    if n > 0 {
      hide AllUtf8, Normal;
      var m := members[n - 1];
      MembersSurvive(emitUtf8, members, n - 1);
      StringsSurvive(emitUtf8, m.value);
      SameEnds(NormalMembers(emitUtf8, members, n - 1), Member(m.name, Normal(emitUtf8, m.value)),
               NormalMembers(true, members, n - 1), Member(m.name, Normal(true, m.value)));
    }
  }

  lemma SameEnds<T>(x: seq<T>, a: T, y: seq<T>, b: T)
    requires |x| == |y|
    ensures x + [a] == y + [b] <==> x == y && a == b
  {
    if x + [a] == y + [b] {
      assert x == (x + [a])[..|x|] && y == (y + [b])[..|y|];
      assert a == (x + [a])[|x|] && b == (y + [b])[|y|];
    }
  }

  /** Printing and parsing changes no string exactly if all are well-formed UTF-8 or emitUTF8 is set. */
  lemma {:induction false} StringsSurvive(emitUtf8: bool, v: Json)
    ensures Normal(emitUtf8, v) == Normal(true, v) <==> emitUtf8 || AllUtf8(v)
    decreases v
  {
    hide NormalItems, NormalMembers, RepairFrom, ValidUtf8;
    match v
    case Str(s) => QuoteSurvivor(s, emitUtf8);
    case Arr(items) => ItemsSurvive(emitUtf8, items, |items|);
    case Obj(members) => MembersSurvive(emitUtf8, members, |members|);
    case _ =>
  }

  // ---------------------------------------------------------------- main results

  /**
   Parsing the whole document printed for a value gives the value back with its strings as quoting leaves them, with no
   error and no text left over, when its nesting fits the stack limit; otherwise the reader throws. Only the strict-root
   feature can reject the value. The strings are unchanged exactly if all are well-formed or emitUTF8 is set.
   */
  lemma ParsesWhatIsPrinted(f: Features, st: Style, v: Json, held: Json)
    requires BuiltStyle(st) && Printable(st, v)
    ensures var doc := ValueText(st, v, "", true);
            var r := Parse(f, doc, held);
            if Depth(v) > f.stackLimit then r == Thrown(STACK_LIMIT)
            else
              && r.Done? && r.value == Normal(st.emitUtf8, v) && r.pos == |doc|
              && (r.ok <==> !f.strictRoot || IsContainer(v)) && (r.ok <==> r.errors == [])
              && (r.value == Normal(true, v) <==> st.emitUtf8 || AllUtf8(v))
  {
    StringsSurvive(st.emitUtf8, v);
    hide BuiltColon, ReadValue, ValueText, Depth, Printable;
    var doc := ValueText(st, v, "", true);
    assert doc[0..0 + |doc|] == doc;
    ReadsValue(f, st, doc, 0, 1, held, v, "", true);
    assert SkipSpaces(doc, |doc|) == |doc|;
  }

  /** Printing and parsing step by step. */
  method PrintAndParse(f: Features, st: Style, v: Json) returns (outcome: Outcome, root: Json)
    requires BuiltStyle(st) && Printable(st, v) && !f.strictRoot
    ensures Depth(v) <= f.stackLimit ==>
              && outcome == Returned(true) && root == Normal(st.emitUtf8, v)
              && (root == Normal(true, v) <==> st.emitUtf8 || AllUtf8(v))
    ensures Depth(v) > f.stackLimit ==> outcome == Raised(STACK_LIMIT)
  {
    var writer := new BuiltStyledStreamWriter(st);
    writer.Write(v);
    assert "" + ValueText(st, v, "", true) == ValueText(st, v, "", true);
    var reader := new OurReader(f);
    outcome, root := reader.ParseDocument(writer.out, Null);
    ParsesWhatIsPrinted(f, st, v, Null);
  }
}
