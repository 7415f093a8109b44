/**
 OurReader of libdtuconfigure/jsoncpp.cpp: tokens, the recursive descent with its node stack, error recovery.
 The functions say what each operation does to the cursor and the value; the class does it step by step.
 Comments are skipped, not attached to values; decoding and printing floating-point numbers are parameters.
 */
module JsonReader {
  import opened JsonString
  import opened JsonNumber
  import opened JsonValue

  datatype Features = Features(
    allowComments: bool, allowTrailingCommas: bool, strictRoot: bool, allowDroppedNullPlaceholders: bool,
    allowSingleQuotes: bool, failIfExtra: bool, rejectDupKeys: bool, allowSpecialFloats: bool,
    allowNumericKeys: bool, stackLimit: nat, isDouble: string -> bool, doubleText: string -> string)

  datatype TokenType =
    | EndOfStream | ObjectBegin | ObjectEnd | ArrayBegin | ArrayEnd | StringToken | NumberToken
    | TrueToken | FalseToken | NullToken | NaNToken | PosInf | NegInf
    | ArraySeparator | MemberSeparator | Comment | ErrorToken

  datatype Token = Token(kind: TokenType, start: nat, end: nat)

  datatype ErrorInfo = ErrorInfo(message: string, token: Token)

  const MAX_KEY: nat := 0x4000_0000

  // ---------------------------------------------------------------- scanning

  predicate IsSpace(c: char) { c == ' ' || c == '\t' || c == '\r' || c == '\n' }

  function SkipSpaces(doc: string, p: nat): (q: nat)
    requires p <= |doc|
    ensures p <= q <= |doc| && (q == |doc| || !IsSpace(doc[q]))
    decreases |doc| - p
  {
    if p < |doc| && IsSpace(doc[p]) then SkipSpaces(doc, p + 1) else p
  }

  function SkipDigits(doc: string, p: nat): (q: nat)
    requires p <= |doc|
    ensures p <= q <= |doc| && (q == |doc| || !IsDigit(doc[q]))
    decreases |doc| - p
  {
    if p < |doc| && IsDigit(doc[p]) then SkipDigits(doc, p + 1) else p
  }

  /** The fractional and the exponential part of a number at p. */
  function ScanFraction(doc: string, p: nat): (q: nat)
    requires p <= |doc|
    ensures p <= q <= |doc|
  {
    if p < |doc| && doc[p] == '.' then SkipDigits(doc, p + 1) else p
  }

  function ScanExponent(doc: string, p: nat): (q: nat)
    requires p <= |doc|
    ensures p <= q <= |doc|
  {
    if p < |doc| && (doc[p] == 'e' || doc[p] == 'E') then
      SkipDigits(doc, if p + 1 < |doc| && (doc[p + 1] == '+' || doc[p + 1] == '-') then p + 2 else p + 1)
    else p
  }

  /** Where readNumber stops, without the test for infinity. */
  function ScanNumber(doc: string, p: nat): (q: nat)
    requires p <= |doc|
    ensures p <= q <= |doc|
  {
    ScanExponent(doc, ScanFraction(doc, SkipDigits(doc, p)))
  }

  /** readCStyleComment after the opening "/" and "*": success and the cursor. */
  function ScanCComment(doc: string, p: nat): (r: (bool, nat))
    requires p <= |doc|
    ensures p <= r.1 <= |doc|
    decreases |doc| - p
  {
    if p + 1 < |doc| && !(doc[p] == '*' && doc[p + 1] == '/') then ScanCComment(doc, p + 1)
    else
      var q := if p + 1 < |doc| then p + 1 else p;
      if q < |doc| then (doc[q] == '/', q + 1) else (false, q)
  }

  function ScanCppComment(doc: string, p: nat): (q: nat)
    requires p <= |doc|
    ensures p <= q <= |doc|
    decreases |doc| - p
  {
    if p == |doc| then p
    else if doc[p] == '\n' then p + 1
    else if doc[p] == '\r' then if p + 1 < |doc| && doc[p + 1] == '\n' then p + 2 else p + 1
    else ScanCppComment(doc, p + 1)
  }

  /** readComment after its first character. */
  function ScanComment(doc: string, p: nat): (r: (bool, nat))
    requires p <= |doc|
    ensures p <= r.1 <= |doc|
  {
    if p == |doc| then (false, p)
    else if doc[p] == '*' then ScanCComment(doc, p + 1)
    else if doc[p] == '/' then (true, ScanCppComment(doc, p + 1))
    else (false, p + 1)
  }

  /** A '-' or '+' token: a number unless 'I' follows. */
  function ScanSigned(f: Features, doc: string, p: nat, infinity: TokenType): (r: (TokenType, nat))
    requires p <= |doc| && infinity in {PosInf, NegInf}
    ensures p <= r.1 <= |doc| && r.0 in {NumberToken, infinity, ErrorToken}
  {
    if p < |doc| && doc[p] == 'I' then
      if f.allowSpecialFloats && At(doc, p + 1, "nfinity") then (infinity, p + 8) else (ErrorToken, p + 1)
    else (NumberToken, ScanNumber(doc, p))
  }

  function Word(doc: string, p: nat, allowed: bool, rest: string, kind: TokenType): (r: (TokenType, nat))
    requires p <= |doc|
    ensures p <= r.1 <= |doc| && r.0 in {kind, ErrorToken}
  {
    if allowed && At(doc, p, rest) then (kind, p + |rest|) else (ErrorToken, p)
  }

  /** The kind and the end of the token whose first character c stands before p. */
  function ScanToken(f: Features, doc: string, c: char, p: nat): (r: (TokenType, nat))
    requires p <= |doc|
    ensures p <= r.1 <= |doc| && (r.0.EndOfStream? ==> c == '\0')
  {
    if c == '{' then (ObjectBegin, p)
    else if c == '}' then (ObjectEnd, p)
    else if c == '[' then (ArrayBegin, p)
    else if c == ']' then (ArrayEnd, p)
    else if c == '\"' || (c == '\'' && f.allowSingleQuotes) then
      var (ok, q) := ScanString(doc, p, c);
      (if ok then StringToken else ErrorToken, q)
    else if c == '/' || c == '\'' then
      var (ok, q) := ScanComment(doc, p);
      (if ok then Comment else ErrorToken, q)
    else if IsDigit(c) then (NumberToken, ScanNumber(doc, p))
    else if c == '-' then ScanSigned(f, doc, p, NegInf)
    else if c == '+' then ScanSigned(f, doc, p, PosInf)
    else if c == 't' then Word(doc, p, true, "rue", TrueToken)
    else if c == 'f' then Word(doc, p, true, "alse", FalseToken)
    else if c == 'n' then Word(doc, p, true, "ull", NullToken)
    else if c == 'N' then Word(doc, p, f.allowSpecialFloats, "aN", NaNToken)
    else if c == 'I' then Word(doc, p, f.allowSpecialFloats, "nfinity", PosInf)
    else if c == ',' then (ArraySeparator, p)
    else if c == ':' then (MemberSeparator, p)
    else if c == '\0' then (EndOfStream, p)
    else (ErrorToken, p)
  }

  /** readToken; it reports failure exactly by an error token, and its end is the new cursor. */
  function ReadToken(f: Features, doc: string, p: nat): (t: Token)
    requires p <= |doc|
    ensures p <= t.start <= t.end <= |doc|
    ensures p < t.end || (t.end == |doc| && t.kind.EndOfStream?)
    ensures t.start == t.end ==> t.kind.EndOfStream?
  {
    var s := SkipSpaces(doc, p);
    if s == |doc| then Token(EndOfStream, s, s)
    else
      var (kind, end) := ScanToken(f, doc, doc[s], s + 1);
      Token(kind, s, end)
  }

  /** The first token at p that is not a comment (the loops "while comment, read again"). */
  function SkipComments(f: Features, doc: string, p: nat): (t: Token)
    requires p <= |doc|
    ensures p <= t.start <= t.end <= |doc| && !t.kind.Comment?
    ensures p < t.end || (t.end == |doc| && t.kind.EndOfStream?)
    ensures t.start == t.end ==> t.kind.EndOfStream?
    decreases |doc| - p
  {
    var t := ReadToken(f, doc, p);
    if t.kind.Comment? then SkipComments(f, doc, t.end) else t
  }

  /** skipCommentTokens. */
  function FirstToken(f: Features, doc: string, p: nat): (t: Token)
    requires p <= |doc|
    ensures p <= t.start <= t.end <= |doc|
    ensures p < t.end || (t.end == |doc| && t.kind.EndOfStream?)
    ensures t.start == t.end ==> t.kind.EndOfStream?
  {
    if f.allowComments then SkipComments(f, doc, p) else ReadToken(f, doc, p)
  }

  /** recoverFromError: the cursor after the first token of the kind sought, or after the end of the stream. */
  function Recover(f: Features, doc: string, p: nat, until: TokenType): (q: nat)
    requires p <= |doc|
    ensures p <= q <= |doc|
    decreases |doc| - p
  {
    var t := ReadToken(f, doc, p);
    if t.kind == until || t.kind.EndOfStream? then t.end else Recover(f, doc, t.end, until)
  }

  // ---------------------------------------------------------------- values

  /** What reading a value does: the verdict, the cursor, the value left in its node, the errors added; or a throw. */
  datatype Reading =
    | Done(ok: bool, pos: nat, value: Json, errors: seq<ErrorInfo>)
    | Thrown(what: string)

  /** The cursor stays between p and the end, failure means an error was added, and only two things are thrown. */
  ghost predicate Sound(r: Reading, doc: string, p: nat) {
    if r.Done? then p <= r.pos <= |doc| && (r.ok <==> r.errors == []) else r.what == STACK_LIMIT || r.what == KEY_LENGTH
  }

  const STACK_LIMIT := "Exceeded stackLimit in readValue()."
  const KEY_LENGTH := "keylength >= 2^30"
  const SYNTAX := "Syntax error: value, object or array expected."
  const MISSING_COLON := "Missing ':' after object member name"
  const MISSING_COMMA := "Missing ',' or '}' in object declaration"
  const MISSING_BRACE := "Missing '}' or object member name"
  const MISSING_BRACKET := "Missing ',' or ']' in array declaration"
  const DUPLICATE := "Duplicate key"
  const NOT_A_NUMBER := "is not a number."

  /** addErrorAndRecover. */
  function Fail(f: Features, doc: string, p: nat, value: Json, message: string, token: Token,
        until: TokenType): (r: Reading)
    requires p <= |doc|
    ensures Sound(r, doc, p)
  {
    Done(false, Recover(f, doc, p, until), value, [ErrorInfo(message, token)])
  }

  function TokenText(doc: string, t: Token): string
    requires t.start <= t.end <= |doc|
  {
    doc[t.start..t.end]
  }

  /** The characters between the quotes of a string token. */
  function TokenBody(doc: string, t: Token): string
    requires t.start <= t.end <= |doc|
  {
    if t.start + 2 <= t.end then doc[t.start + 1..t.end - 1] else ""
  }

  /** decodeNumber of a token into a node that holds held. */
  function NumberReading(f: Features, doc: string, t: Token, held: Json): (r: Reading)
    requires t.start <= t.end <= |doc|
    ensures Sound(r, doc, t.start)
  {
    var text := TokenText(doc, t);
    match DecodeNumber(text)
    case Integer(value) => Done(true, t.end, if value <= MAX_INT64 then Int(value) else UInt(value), [])
    case Double =>
      if f.isDouble(text) then Done(true, t.end, Real(text), [])
      else Done(false, t.end, held, [ErrorInfo(NOT_A_NUMBER, t)])
  }

  /** The cases of readValue for a token that opens no container. */
  function ScalarReading(f: Features, doc: string, t: Token, held: Json): (r: Reading)
    requires t.start <= t.end <= |doc| && !t.kind.ObjectBegin? && !t.kind.ArrayBegin?
    requires t.start == t.end ==> t.kind.EndOfStream?
    ensures Sound(r, doc, t.start)
  {
    match t.kind
    case NumberToken => NumberReading(f, doc, t, held)
    case StringToken =>
      (match DecodeString(TokenBody(doc, t))
       case Text(s) => Done(true, t.end, Str(s), [])
       case Bad(m) => Done(false, t.end, held, [ErrorInfo(m, t)]))
    case TrueToken => Done(true, t.end, Bool(true), [])
    case FalseToken => Done(true, t.end, Bool(false), [])
    case NullToken => Done(true, t.end, Null, [])
    case NaNToken => Done(true, t.end, Real("NaN"), [])
    case PosInf => Done(true, t.end, Real("Infinity"), [])
    case NegInf => Done(true, t.end, Real("-Infinity"), [])
    case ArraySeparator | ObjectEnd | ArrayEnd =>
      if f.allowDroppedNullPlaceholders then Done(true, t.end - 1, Null, [])
      else Done(false, t.end, held, [ErrorInfo(SYNTAX, t)])
    case _ => Done(false, t.end, held, [ErrorInfo(SYNTAX, t)])
  }

  /** A token that may stand before a member's colon. */
  predicate StartsMember(f: Features, t: Token) { t.kind.StringToken? || (t.kind.NumberToken? && f.allowNumericKeys) }

  /** The key a token stands for: a string, or the text a number prints as. */
  function KeyOf(f: Features, doc: string, t: Token): Decoded
    requires t.start <= t.end <= |doc|
  {
    if t.kind.StringToken? then DecodeString(TokenBody(doc, t))
    else
      match DecodeNumber(TokenText(doc, t))
      case Integer(value) => Text(IntText(value))
      case Double => if f.isDouble(TokenText(doc, t)) then Text(f.doubleText(TokenText(doc, t))) else Bad(NOT_A_NUMBER)
  }

  /** readValue at nesting depth (the size of the node stack), into a node that holds a value already. */
  function ReadValue(f: Features, doc: string, p: nat, depth: nat, held: Json): (r: Reading)
    requires p <= |doc|
    ensures Sound(r, doc, p)
    decreases |doc| - p, 0
  {
    if depth > f.stackLimit then Thrown(STACK_LIMIT)
    else
      var t := FirstToken(f, doc, p);
      if t.kind.ObjectBegin? then ReadMembers(f, doc, t.end, depth, [], "")
      else if t.kind.ArrayBegin? then ReadItems(f, doc, t.end, depth, [])
      else ScalarReading(f, doc, t, held)
  }

  /** One round of the loop of readObject and all that follow: ms are the members so far, name the last key. */
  function ReadMembers(f: Features, doc: string, p: nat, depth: nat, ms: seq<Member>, name: string): (r: Reading)
    requires p <= |doc|
    ensures Sound(r, doc, p)
    decreases |doc| - p, 1
  {
    var t := SkipComments(f, doc, p);
    if t.kind.ObjectEnd? && (name == "" || f.allowTrailingCommas) then Done(true, t.end, Obj(ms), [])
    else if !StartsMember(f, t) then Fail(f, doc, t.end, Obj(ms), MISSING_BRACE, t, ObjectEnd)
    else
      match KeyOf(f, doc, t)
      case Bad(m) => Fail(f, doc, t.end, Obj(ms), m, t, ObjectEnd)
      case Text(key) => ReadMember(f, doc, t, depth, ms, key)
  }

  /** The rest of the round once the key has been decoded. */
  function ReadMember(f: Features, doc: string, t: Token, depth: nat, ms: seq<Member>, key: string): (r: Reading)
    requires t.start < t.end <= |doc|
    ensures Sound(r, doc, t.end)
    decreases |doc| - t.end, 3
  {
    if |key| >= MAX_KEY then Thrown(KEY_LENGTH)
    else if f.rejectDupKeys && HasMember(ms, key) then Fail(f, doc, t.end, Obj(ms), DUPLICATE, t, ObjectEnd)
    else
      var colon := ReadToken(f, doc, t.end);
      if !colon.kind.MemberSeparator? then Fail(f, doc, colon.end, Obj(ms), MISSING_COLON, colon, ObjectEnd)
      else ReadMemberValue(f, doc, colon.end, depth, ms, key)
  }

  /** The rest of the round once the colon has been read. */
  function ReadMemberValue(f: Features, doc: string, p: nat, depth: nat, ms: seq<Member>, key: string): (r: Reading)
    requires p <= |doc|
    ensures Sound(r, doc, p)
    decreases |doc| - p, 2
  {
    var v := ReadValue(f, doc, p, depth + 1, Find(ms, key));
    if v.Thrown? then v
    else
      var ms' := Assign(ms, key, v.value);
      if !v.ok then Done(false, Recover(f, doc, v.pos, ObjectEnd), Obj(ms'), v.errors)
      else
        var comma := ReadToken(f, doc, v.pos);
        if comma.kind !in {ObjectEnd, ArraySeparator, Comment} then
          Fail(f, doc, comma.end, Obj(ms'), MISSING_COMMA, comma, ObjectEnd)
        else
          var last := SkipComments(f, doc, v.pos);
          if last.kind.ObjectEnd? then Done(true, last.end, Obj(ms'), [])
          else ReadMembers(f, doc, last.end, depth, ms', key)
  }

  /** One round of the loop of readArray and all that follow. */
  function ReadItems(f: Features, doc: string, p: nat, depth: nat, items: seq<Json>): (r: Reading)
    requires p <= |doc|
    ensures Sound(r, doc, p)
    decreases |doc| - p, 2
  {
    var s := SkipSpaces(doc, p);
    if s < |doc| && doc[s] == ']'
       && (items == [] || (f.allowTrailingCommas && !f.allowDroppedNullPlaceholders)) then
      Done(true, s + 1, Arr(items), [])
    else ReadItem(f, doc, s, depth, items)
  }

  /** The rest of the round once an item is due. */
  function ReadItem(f: Features, doc: string, p: nat, depth: nat, items: seq<Json>): (r: Reading)
    requires p <= |doc|
    ensures Sound(r, doc, p)
    decreases |doc| - p, 1
  {
    var v := ReadValue(f, doc, p, depth + 1, Null);
    if v.Thrown? then v
    else if !v.ok then Done(false, Recover(f, doc, v.pos, ArrayEnd), Arr(items + [v.value]), v.errors)
    else
      var t := SkipComments(f, doc, v.pos);
      if t.kind.ArrayEnd? then Done(true, t.end, Arr(items + [v.value]), [])
      else if t.kind.ArraySeparator? then ReadItems(f, doc, t.end, depth, items + [v.value])
      else Fail(f, doc, t.end, Arr(items + [v.value]), MISSING_BRACKET, t, ArrayEnd)
  }

  const EXTRA := "Extra non-whitespace after JSON value."
  const NOT_A_ROOT := "A valid JSON document must be either an array or an object value."

  /** parse of a whole document into a root that holds held. */
  function Parse(f: Features, doc: string, held: Json): (r: Reading)
    ensures Sound(r, doc, 0)
  {
    var r := ReadValue(f, doc, 0, 1, held);
    if r.Thrown? then r else CheckRest(f, doc, r)
  }

  /** What parse checks once the value has been read. */
  function CheckRest(f: Features, doc: string, r: Reading): (q: Reading)
    requires r.Done? && r.pos <= |doc|
    ensures q.Done? && q.value == r.value && r.pos <= q.pos <= |doc|
    ensures (r.ok <==> r.errors == []) ==> (q.ok <==> q.errors == [])
  {
    var t := FirstToken(f, doc, r.pos);
    if f.failIfExtra && !t.kind.EndOfStream? then Done(false, t.end, r.value, r.errors + [ErrorInfo(EXTRA, t)])
    else if f.strictRoot && !IsContainer(r.value) then
      Done(false, t.end, r.value, r.errors + [ErrorInfo(NOT_A_ROOT, Token(ErrorToken, 0, |doc|))])
    else Done(r.ok, t.end, r.value, r.errors)
  }

  // ---------------------------------------------------------------- the reader, step by step

  /** How a reader method ends: its boolean result, or an exception. */
  datatype Outcome = Returned(ok: bool) | Raised(what: string)

  class OurReader {
    const features: Features
    var doc: string
    var current: nat
    var errors: seq<ErrorInfo>
    var nodes: seq<Json>  // the node stack; the last element is the value being read

    ghost predicate Valid() reads this { current <= |doc| }

    constructor (features: Features)
      ensures Valid() && this.features == features
    {
      this.features := features;
      doc, current, errors, nodes := "", 0, [], [];
    }

    method GetNextChar() returns (c: char)
      requires Valid()
      modifies `current
      ensures Valid()
      ensures if old(current) == |doc| then c == '\0' && current == old(current)
              else c == doc[old(current)] && current == old(current) + 1
    {
      if current == |doc| {
        return '\0';
      }
      c := doc[current];
      current := current + 1;
    }

    method SkipSpacesStep()
      requires Valid()
      modifies `current
      ensures Valid() && current == SkipSpaces(doc, old(current))
    {
      while current != |doc|
        invariant Valid() && SkipSpaces(doc, current) == SkipSpaces(doc, old(current))
        decreases |doc| - current
      {
        var c := doc[current];
        if c == ' ' || c == '\t' || c == '\r' || c == '\n' {
          current := current + 1;
        } else {
          break;
        }
      }
    }

    method Match(pattern: string) returns (ok: bool)
      requires Valid()
      modifies `current
      ensures Valid() && ok == At(doc, old(current), pattern)
      ensures current == if ok then old(current) + |pattern| else old(current)
    {
      if |doc| - current < |pattern| {
        return false;
      }
      var index: int := |pattern|;
      while index > 0
        invariant 0 <= index <= |pattern|
        invariant forall k :: index <= k < |pattern| ==> doc[current + k] == pattern[k]
      {
        index := index - 1;
        if doc[current + index] != pattern[index] {
          assert doc[current..current + |pattern|][index] != pattern[index];
          return false;
        }
      }
      assert doc[current..current + |pattern|] == pattern;
      current := current + |pattern|;
      return true;
    }

    method ReadCStyleComment() returns (ok: bool)
      requires Valid()
      modifies `current
      ensures Valid() && (ok, current) == ScanCComment(doc, old(current))
    {
      while current + 1 < |doc|
        invariant Valid() && ScanCComment(doc, current) == ScanCComment(doc, old(current))
        decreases |doc| - current
      {
        var c := GetNextChar();
        if c == '*' && doc[current] == '/' {
          assert ScanCComment(doc, current - 1) == (true, current + 1);
          break;
        }
      }
      var c := GetNextChar();
      ok := c == '/';
    }

    method ReadCppStyleComment()
      requires Valid()
      modifies `current
      ensures Valid() && current == ScanCppComment(doc, old(current))
    {
      while current != |doc|
        invariant Valid() && ScanCppComment(doc, current) == ScanCppComment(doc, old(current))
        decreases |doc| - current
      {
        var c := GetNextChar();
        if c == '\n' {
          return;
        }
        if c == '\r' {
          if current != |doc| && doc[current] == '\n' {
            var _ := GetNextChar();
          }
          return;
        }
      }
    }

    method ReadComment() returns (ok: bool)
      requires Valid()
      modifies `current
      ensures Valid() && (ok, current) == ScanComment(doc, old(current))
    {
      var c := GetNextChar();
      if c == '*' {
        ok := ReadCStyleComment();
      } else if c == '/' {
        ReadCppStyleComment();
        ok := true;
      } else {
        ok := false;
      }
    }

    /** readNumber: false when the text after the sign starts an infinity. */
    method ReadNumber(checkInf: bool) returns (ok: bool)
      requires Valid()
      modifies `current
      ensures Valid()
      ensures ok == !(checkInf && old(current) < |doc| && doc[old(current)] == 'I')
      ensures current == if ok then ScanNumber(doc, old(current)) else old(current) + 1
    {
      if checkInf && current != |doc| && doc[current] == 'I' {
        current := current + 1;
        return false;
      }
      hide ScanFraction, ScanExponent, SkipDigits;
      ReadDigits();
      ReadFraction();
      ReadExponent();
      return true;
    }

    method ReadFraction()
      requires Valid()
      modifies `current
      ensures Valid() && current == ScanFraction(doc, old(current))
    {
      if current < |doc| && doc[current] == '.' {
        current := current + 1;
        ReadDigits();
      }
    }

    method ReadExponent()
      requires Valid()
      modifies `current
      ensures Valid() && current == ScanExponent(doc, old(current))
    {
      if current < |doc| && (doc[current] == 'e' || doc[current] == 'E') {
        current := current + 1;
        if current < |doc| && (doc[current] == '+' || doc[current] == '-') {
          current := current + 1;
        }
        ReadDigits();
      }
    }

    method ReadDigits()
      requires Valid()
      modifies `current
      ensures Valid() && current == SkipDigits(doc, old(current))
    {
      while current < |doc| && IsDigit(doc[current])
        invariant Valid() && SkipDigits(doc, current) == SkipDigits(doc, old(current))
      {
        current := current + 1;
      }
    }

    method ReadStringUpTo(quote: char) returns (ok: bool)
      requires Valid() && quote != '\\' && quote != '\0'
      modifies `current
      ensures Valid() && (ok, current) == ScanString(doc, old(current), quote)
    {
      var c := '\0';
      while current != |doc|
        invariant Valid() && c != quote
        invariant ScanString(doc, current, quote) == ScanString(doc, old(current), quote)
        decreases |doc| - current
      {
        c := GetNextChar();
        if c == '\\' {
          var _ := GetNextChar();
        } else if c == quote {
          break;
        }
      }
      ok := c == quote;
    }

    method ReadTokenStep() returns (token: Token, ok: bool)
      requires Valid()
      modifies `current
      ensures Valid() && token == ReadToken(features, doc, old(current))
      ensures current == token.end && ok == !token.kind.ErrorToken?
    {
      hide SkipSpaces, ScanString, ScanComment, ScanNumber, ScanSigned, At;
      SkipSpacesStep();
      var start := current;
      var c := GetNextChar();
      ok := true;
      var kind := ErrorToken;
      match c {
        case '{' => kind := ObjectBegin;
        case '}' => kind := ObjectEnd;
        case '[' => kind := ArrayBegin;
        case ']' => kind := ArrayEnd;
        case '\"' =>
          kind := StringToken;
          ok := ReadStringUpTo('\"');
        case '\'' =>
          if features.allowSingleQuotes {
            kind := StringToken;
            ok := ReadStringUpTo('\'');
          } else {
            kind := Comment;
            ok := ReadComment();
          }
        case '/' =>
          kind := Comment;
          ok := ReadComment();
        case '-' => kind, ok := ReadSigned(NegInf);
        case '+' => kind, ok := ReadSigned(PosInf);
        case 't' =>
          kind := TrueToken;
          ok := Match("rue");
        case 'f' =>
          kind := FalseToken;
          ok := Match("alse");
        case 'n' =>
          kind := NullToken;
          ok := Match("ull");
        case 'N' =>
          if features.allowSpecialFloats {
            kind := NaNToken;
            ok := Match("aN");
          } else {
            ok := false;
          }
        case 'I' =>
          if features.allowSpecialFloats {
            kind := PosInf;
            ok := Match("nfinity");
          } else {
            ok := false;
          }
        case ',' => kind := ArraySeparator;
        case ':' => kind := MemberSeparator;
        case '\0' => kind := EndOfStream;
        case _ =>
          if IsDigit(c) {
            kind := NumberToken;
            var _ := ReadNumber(false);
          } else {
            ok := false;
          }
      }
      if !ok {
        kind := ErrorToken;
      }
      token := Token(kind, start, current);
    }

    /** The cases '-' and '+' of readToken. */
    method ReadSigned(infinity: TokenType) returns (kind: TokenType, ok: bool)
      requires Valid() && infinity in {PosInf, NegInf}
      modifies `current
      ensures Valid() && kind in {NumberToken, infinity}
      ensures (if ok then kind else ErrorToken, current) == ScanSigned(features, doc, old(current), infinity)
    {
      var number := ReadNumber(true);
      if number {
        return NumberToken, true;
      }
      kind := infinity;
      ok := false;
      if features.allowSpecialFloats {
        ok := Match("nfinity");
      }
    }

    /** "while the token is a comment, read again", after a token has been read. */
    method SkipCommentsAfter(first: Token) returns (token: Token, ok: bool)
      requires Valid() && first.end == current
      modifies `current
      ensures Valid() && current == token.end && ok == !token.kind.ErrorToken?
      ensures token == if first.kind.Comment? then SkipComments(features, doc, first.end) else first
    {
      token, ok := first, !first.kind.ErrorToken?;
      while token.kind.Comment? && ok
        invariant Valid() && current == token.end && ok == !token.kind.ErrorToken?
        invariant (if token.kind.Comment? then SkipComments(features, doc, token.end) else token)
               == (if first.kind.Comment? then SkipComments(features, doc, first.end) else first)
        decreases |doc| - current, token.kind.Comment?
      {
        token, ok := ReadTokenStep();
      }
    }

    method SkipCommentTokens() returns (token: Token)
      requires Valid()
      modifies `current
      ensures Valid() && token == FirstToken(features, doc, old(current)) && current == token.end
    {
      var ok;
      token, ok := ReadTokenStep();
      if features.allowComments {
        token, ok := SkipCommentsAfter(token);
      }
    }

    method AddError(message: string, token: Token)
      modifies `errors
      ensures errors == old(errors) + [ErrorInfo(message, token)]
    {
      errors := errors + [ErrorInfo(message, token)];
    }

    method RecoverFromError(until: TokenType)
      requires Valid()
      modifies `current, `errors
      ensures Valid() && current == Recover(features, doc, old(current), until) && errors == old(errors)
    {
      var errorCount := |errors|;
      while true
        invariant Valid() && errors == old(errors)
        invariant Recover(features, doc, current, until) == Recover(features, doc, old(current), until)
        decreases |doc| - current
      {
        var skip, ok := ReadTokenStep();
        if !ok {
          errors := errors[..errorCount];
        }
        if skip.kind == until || skip.kind.EndOfStream? {
          break;
        }
      }
      errors := errors[..errorCount];
    }

    method AddErrorAndRecover(message: string, token: Token, until: TokenType)
      requires Valid()
      modifies `current, `errors
      ensures Valid() && current == Recover(features, doc, old(current), until)
      ensures errors == old(errors) + [ErrorInfo(message, token)]
    {
      AddError(message, token);
      RecoverFromError(until);
    }

    /** Stores a value in the node on top of the stack. */
    method SetCurrentValue(value: Json)
      requires |nodes| > 0
      modifies `nodes
      ensures nodes == old(nodes)[|old(nodes)| - 1 := value]
    {
      nodes := nodes[|nodes| - 1 := value];
    }

    /** The reading r happened: cursor, errors and the top node are as it says, the nodes below are untouched. */
    twostate predicate Follows(r: Reading, outcome: Outcome)
      reads this
    {
      match r
      case Thrown(what) => outcome == Raised(what)
      case Done(ok, pos, value, added) =>
        && outcome == Returned(ok) && current == pos && errors == old(errors) + added
        && |old(nodes)| > 0 && nodes == old(nodes)[|old(nodes)| - 1 := value]
    }

    method DecodeNumberToken(token: Token) returns (ok: bool)
      requires Valid() && |nodes| > 0 && token.start < token.end == current
      modifies `errors, `nodes
      ensures Follows(NumberReading(features, doc, token, old(nodes)[|old(nodes)| - 1]), Returned(ok))
    {
      var text := TokenText(doc, token);
      var decoded := DecodeNumberLoop(text);
      match decoded {
        case Integer(value) => SetCurrentValue(if value <= MAX_INT64 then Int(value) else UInt(value));
        case Double =>
          if !features.isDouble(text) {
            AddError(NOT_A_NUMBER, token);
            return false;
          }
          SetCurrentValue(Real(text));
      }
      return true;
    }

    method StoreScalar(token: Token) returns (successful: bool)
      requires Valid() && |nodes| > 0 && token.start <= token.end == current
      requires !token.kind.ObjectBegin? && !token.kind.ArrayBegin?
               && (token.start == token.end ==> token.kind.EndOfStream?)
      modifies `current, `errors, `nodes
      ensures Valid()
      ensures Follows(ScalarReading(features, doc, token, old(nodes)[|old(nodes)| - 1]), Returned(successful))
    {
      hide NumberReading, DecodeString, TokenBody;
      successful := true;
      match token.kind {
        case NumberToken =>
          successful := DecodeNumberToken(token);
        case StringToken =>
          var decoded := DecodeStringLoop(TokenBody(doc, token));
          match decoded {
            case Text(s) => SetCurrentValue(Str(s));
            case Bad(m) =>
              AddError(m, token);
              successful := false;
          }
        case TrueToken => SetCurrentValue(Bool(true));
        case FalseToken => SetCurrentValue(Bool(false));
        case NullToken => SetCurrentValue(Null);
        case NaNToken => SetCurrentValue(Real("NaN"));
        case PosInf => SetCurrentValue(Real("Infinity"));
        case NegInf => SetCurrentValue(Real("-Infinity"));
        case ArraySeparator | ObjectEnd | ArrayEnd =>
          if features.allowDroppedNullPlaceholders {
            current := current - 1;
            SetCurrentValue(Null);
          } else {
            AddError(SYNTAX, token);
            successful := false;
          }
        case EndOfStream | MemberSeparator | Comment | ErrorToken =>
          AddError(SYNTAX, token);
          successful := false;
      }
    }

    method ReadValueStep() returns (outcome: Outcome)
      requires Valid() && |nodes| > 0
      modifies `current, `errors, `nodes
      ensures outcome.Returned? ==> Valid()
      ensures Follows(ReadValue(features, doc, old(current), |old(nodes)|, old(nodes)[|old(nodes)| - 1]), outcome)
      decreases |doc| - current, 0
    {
      hide ReadMembers, ReadItems, ScalarReading, FirstToken;
      if |nodes| > features.stackLimit {
        return Raised(STACK_LIMIT);
      }
      var token := SkipCommentTokens();
      if token.kind.ObjectBegin? {
        outcome := ReadObject();
      } else if token.kind.ArrayBegin? {
        outcome := ReadArray();
      } else {
        var successful := StoreScalar(token);
        outcome := Returned(successful);
      }
    }

    /** "push a child node, readValue, pop": the child's value, the stack as it was. */
    method ReadChild(held: Json) returns (outcome: Outcome, value: Json)
      requires Valid()
      modifies `current, `errors, `nodes
      ensures match ReadValue(features, doc, old(current), |old(nodes)| + 1, held)
              case Thrown(what) => outcome == Raised(what)
              case Done(ok, pos, v, added) =>
                && outcome == Returned(ok) && Valid() && current == pos && value == v
                && errors == old(errors) + added && nodes == old(nodes)
      decreases |doc| - current, 1
    {
      hide ReadValue;
      value := held;
      nodes := nodes + [held];
      outcome := ReadValueStep();
      if outcome.Returned? {
        value := nodes[|nodes| - 1];
        nodes := nodes[..|nodes| - 1];
      }
    }

    /** The key of a member, from a string or a number token; an error is left to the caller to record. */
    method DecodeKey(tokenName: Token) returns (decoded: Decoded)
      requires tokenName.start < tokenName.end <= |doc| && StartsMember(features, tokenName)
      ensures decoded == KeyOf(features, doc, tokenName)
    {
      if tokenName.kind.StringToken? {
        decoded := DecodeStringLoop(TokenBody(doc, tokenName));
      } else {
        var text := TokenText(doc, tokenName);
        var numberName := DecodeNumberLoop(text);
        match numberName {
          case Integer(value) =>
            var name;
            if value <= MAX_INT64 {
              name := ValueToString(value);
            } else {
              name := ValueToStringUnsigned(value);
            }
            decoded := Text(name);
          case Double =>
            decoded := if features.isDouble(text) then Text(features.doubleText(text)) else Bad(NOT_A_NUMBER);
        }
      }
    }

    /** readObject, after its opening brace. */
    method ReadObject() returns (outcome: Outcome)
      requires Valid() && |nodes| > 0
      modifies `current, `errors, `nodes
      ensures outcome.Returned? ==> Valid()
      ensures Follows(ReadMembers(features, doc, old(current), |old(nodes)|, [], ""), outcome)
      decreases |doc| - current, 4
    {
      hide ReadMember, ReadToken, Recover, KeyOf, TokenBody;
      ghost var depth, goal := |nodes|, ReadMembers(features, doc, current, |nodes|, [], "");
      var name := "";
      SetCurrentValue(Obj([]));
      while true
        invariant Valid() && |nodes| == depth && nodes[depth - 1].Obj?
        invariant nodes == old(nodes)[depth - 1 := nodes[depth - 1]]
        invariant errors == old(errors) && old(current) <= current
        invariant ReadMembers(features, doc, current, depth, nodes[depth - 1].members, name) == goal
        decreases |doc| - current
      {
        ghost var ms := nodes[depth - 1].members;
        var first, ok := ReadTokenStep();
        var tokenName;
        tokenName, ok := SkipCommentsAfter(first);
        if tokenName.kind.ObjectEnd? && (name == "" || features.allowTrailingCommas) {
          return Returned(true);
        }
        if !tokenName.kind.StringToken? && !(tokenName.kind.NumberToken? && features.allowNumericKeys) {
          AddErrorAndRecover(MISSING_BRACE, tokenName, ObjectEnd);
          return Returned(false);
        }
        var decoded := DecodeKey(tokenName);
        if decoded.Bad? {
          AddErrorAndRecover(decoded.message, tokenName, ObjectEnd);
          return Returned(false);
        }
        name := decoded.text;
        assert ReadMember(features, doc, tokenName, depth, ms, name) == goal;
        outcome, ok := ReadMemberStep(tokenName, name);
        if !ok {
          return;
        }
      }
    }

    /** The loop of a container goes on: nothing but its own node has changed, and p was left behind. */
    twostate predicate GoesOn(outcome: Outcome)
      reads this
    {
      && outcome.Returned? && Valid() && old(current) < current && errors == old(errors)
      && |old(nodes)| > 0 && |nodes| == |old(nodes)|
      && nodes == old(nodes)[|old(nodes)| - 1 := nodes[|nodes| - 1]]
    }

    /** One member of readObject after its key: more is true when the loop goes on. */
    method ReadMemberStep(tokenName: Token, name: string) returns (outcome: Outcome, more: bool)
      requires Valid() && |nodes| > 0 && nodes[|nodes| - 1].Obj? && tokenName.start < tokenName.end == current
      modifies `current, `errors, `nodes
      ensures outcome.Returned? ==> Valid()
      ensures var r := ReadMember(features, doc, tokenName, |old(nodes)|, old(nodes)[|old(nodes)| - 1].members, name);
              if !more then Follows(r, outcome)
              else GoesOn(outcome) && nodes[|nodes| - 1].Obj?
                   && r == ReadMembers(features, doc, current, |nodes|, nodes[|nodes| - 1].members, name)
      decreases |doc| - current, 3
    {
      hide ReadMemberValue, ReadMembers, ReadToken, Recover;
      if |name| >= MAX_KEY {
        return Raised(KEY_LENGTH), false;
      }
      if features.rejectDupKeys && HasMember(nodes[|nodes| - 1].members, name) {
        AddErrorAndRecover(DUPLICATE, tokenName, ObjectEnd);
        return Returned(false), false;
      }
      var colon, ok := ReadTokenStep();
      if !ok || !colon.kind.MemberSeparator? {
        AddErrorAndRecover(MISSING_COLON, colon, ObjectEnd);
        return Returned(false), false;
      }
      outcome, more := ReadMemberValueStep(name);
    }

    method ReadMemberValueStep(name: string) returns (outcome: Outcome, more: bool)
      requires Valid() && |nodes| > 0 && nodes[|nodes| - 1].Obj?
      modifies `current, `errors, `nodes
      ensures outcome.Returned? ==> Valid()
      ensures var r := ReadMemberValue(features, doc, old(current), |old(nodes)|, old(nodes)[|old(nodes)| - 1].members,
              name);
              if !more then Follows(r, outcome)
              else GoesOn(outcome) && nodes[|nodes| - 1].Obj?
                   && r == ReadMembers(features, doc, current, |nodes|, nodes[|nodes| - 1].members, name)
      decreases |doc| - current, 2
    {
      hide ReadValue, ReadMembers, ReadToken, Recover, Assign, Find;
      var ms := nodes[|nodes| - 1].members;
      var value;
      outcome, value := ReadChild(Find(ms, name));
      if outcome.Raised? {
        return outcome, false;
      }
      SetCurrentValue(Obj(Assign(ms, name, value)));
      if !outcome.ok {
        RecoverFromError(ObjectEnd);
        return Returned(false), false;
      }
      var comma, ok := ReadTokenStep();
      if !ok || (!comma.kind.ObjectEnd? && !comma.kind.ArraySeparator? && !comma.kind.Comment?) {
        AddErrorAndRecover(MISSING_COMMA, comma, ObjectEnd);
        return Returned(false), false;
      }
      comma, ok := SkipCommentsAfter(comma);
      return Returned(true), !comma.kind.ObjectEnd?;
    }

    /** readArray, after its opening bracket. */
    method ReadArray() returns (outcome: Outcome)
      requires Valid() && |nodes| > 0
      modifies `current, `errors, `nodes
      ensures outcome.Returned? ==> Valid()
      ensures Follows(ReadItems(features, doc, old(current), |old(nodes)|, []), outcome)
      decreases |doc| - current, 3
    {
      hide ReadItem;
      ghost var goal := ReadItems(features, doc, current, |nodes|, []);
      var top := |nodes| - 1;
      SetCurrentValue(Arr([]));
      var index := 0;
      while true
        invariant Valid() && |nodes| == top + 1 && nodes[top].Arr?
        invariant nodes == old(nodes)[top := nodes[top]]
        invariant errors == old(errors) && old(current) <= current && index == |nodes[top].items|
        invariant ReadItems(features, doc, current, top + 1, nodes[top].items) == goal
        decreases |doc| - current
      {
        SkipSpacesStep();
        if current != |doc| && doc[current] == ']'
           && (index == 0 || (features.allowTrailingCommas && !features.allowDroppedNullPlaceholders)) {
          var endArray, ok := ReadTokenStep();
          return Returned(true);
        }
        index := index + 1;
        var more;
        outcome, more := ReadItemStep();
        if !more {
          return;
        }
      }
    }

    method ReadItemStep() returns (outcome: Outcome, more: bool)
      requires Valid() && |nodes| > 0 && nodes[|nodes| - 1].Arr?
      modifies `current, `errors, `nodes
      ensures outcome.Returned? ==> Valid()
      ensures var items := old(nodes)[|old(nodes)| - 1].items;
              var r := ReadItem(features, doc, old(current), |old(nodes)|, items);
              if !more then Follows(r, outcome)
              else GoesOn(outcome) && nodes[|nodes| - 1].Arr? && |nodes[|nodes| - 1].items| == |items| + 1
                   && r == ReadItems(features, doc, current, |nodes|, nodes[|nodes| - 1].items)
      decreases |doc| - current, 2
    {
      hide ReadValue, ReadItems, ReadToken, Recover;
      var items := nodes[|nodes| - 1].items;
      var value;
      outcome, value := ReadChild(Null);
      if outcome.Raised? {
        return outcome, false;
      }
      SetCurrentValue(Arr(items + [value]));
      if !outcome.ok {
        RecoverFromError(ArrayEnd);
        return Returned(false), false;
      }
      var token, ok := ReadTokenStep();
      token, ok := SkipCommentsAfter(token);
      if !ok || (!token.kind.ArraySeparator? && !token.kind.ArrayEnd?) {
        AddErrorAndRecover(MISSING_BRACKET, token, ArrayEnd);
        return Returned(false), false;
      }
      return Returned(true), token.kind.ArraySeparator?;
    }

    /** parse: the value read is left in root, which held a value before. */
    method ParseDocument(document: string, held: Json) returns (outcome: Outcome, root: Json)
      modifies this
      ensures match Parse(features, document, held)
              case Thrown(what) => outcome == Raised(what)
              case Done(ok, pos, value, added) =>
                outcome == Returned(ok) && root == value && errors == added && nodes == []
    {
      hide ReadValue, CheckRest;
      doc, current, errors, nodes := document, 0, [], [];
      outcome, root := ReadChild(held);
      assert forall added: seq<ErrorInfo> :: [] + added == added;
      if outcome.Returned? {
        outcome := CheckRestStep(root, outcome.ok);
      }
    }

    method CheckRestStep(root: Json, successful: bool) returns (outcome: Outcome)
      requires Valid()
      modifies `current, `errors
      ensures Valid()
      ensures var r := CheckRest(features, doc, Done(successful, old(current), root, old(errors)));
              outcome == Returned(r.ok) && errors == r.errors && current == r.pos
    {
      var token := SkipCommentTokens();
      if features.failIfExtra && !token.kind.EndOfStream? {
        AddError(EXTRA, token);
        return Returned(false);
      }
      if features.strictRoot && !IsContainer(root) {
        AddError(NOT_A_ROOT, Token(ErrorToken, 0, |doc|));
        return Returned(false);
      }
      return Returned(successful);
    }
  }
}
