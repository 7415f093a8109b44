/**
 Tokens: what their text looks like, which text is taken as which token, and where comments end.
 */
module JsonTokens {
  import opened JsonNumber
  import opened JsonReader
  import JsonString

  // ---------------------------------------------------------------- what tokens look like

  /** No quote in the text, unless a backslash stands before it. */
  predicate Escaped(body: string, quote: char)
    decreases |body|
  {
    if body == "" then true
    else if body[0] == '\\' then |body| > 1 && Escaped(body[2..], quote)
    else body[0] != quote && Escaped(body[1..], quote)
  }

  predicate OnlyDigits(t: string) { forall k :: 0 <= k < |t| ==> '0' <= t[k] <= '9' }

  /** Digits, a fraction and an exponent, each of them with any number of digits or left out. */
  ghost predicate IsNumberTail(t: string) { exists x, y, z :: NumberParts(t, x, y, z) }

  ghost predicate NumberParts(t: string, x: string, y: string, z: string) {
    t == x + y + z && OnlyDigits(x) && IsFraction(y) && IsExponent(z)
  }

  predicate IsFraction(t: string) { t == "" || (t[0] == '.' && OnlyDigits(t[1..])) }

  predicate IsExponent(t: string) {
    || t == ""
    || (t[0] in {'e', 'E'} && OnlyDigits(t[if 1 < |t| && t[1] in {'+', '-'} then 2 else 1..]))
  }

  /** The text of a token of each kind. */
  ghost predicate Looks(f: Features, kind: TokenType, t: string) {
    match kind
    case ObjectBegin => t == "{"
    case ObjectEnd => t == "}"
    case ArrayBegin => t == "["
    case ArrayEnd => t == "]"
    case ArraySeparator => t == ","
    case MemberSeparator => t == ":"
    case TrueToken => t == "true"
    case FalseToken => t == "false"
    case NullToken => t == "null"
    case NaNToken => t == "NaN" && f.allowSpecialFloats
    case PosInf => (t == "Infinity" || t == "+Infinity") && f.allowSpecialFloats
    case NegInf => t == "-Infinity" && f.allowSpecialFloats
    case StringToken =>
      && |t| > 1 && (t[0] == '\"' || (t[0] == '\'' && f.allowSingleQuotes))
      && t[|t| - 1] == t[0] && Escaped(t[1..|t| - 1], t[0])
    case NumberToken => t != "" && ('0' <= t[0] <= '9' || t[0] in {'+', '-'}) && IsNumberTail(t[1..])
    case Comment => |t| > 1 && (t[0] == '/' || (t[0] == '\'' && !f.allowSingleQuotes)) && t[1] in {'*', '/'}
    case EndOfStream => t == "" || t == "\0"
    case ErrorToken => true
  }

  lemma {:induction false} StringShape(doc: string, p: nat, quote: char)
    requires p <= |doc| && quote != '\\'
    ensures var (ok, q) := JsonString.ScanString(doc, p, quote);
            ok ==> p < q <= |doc| && doc[q - 1] == quote && Escaped(doc[p..q - 1], quote)
    decreases |doc| - p
  {
    var (ok, q) := JsonString.ScanString(doc, p, quote);
    if ok {
      if doc[p] == quote {
        assert doc[p..q - 1] == "";
      } else {
        var next := if doc[p] == '\\' then p + 2 else p + 1;
        StringShape(doc, next, quote);
        assert doc[p..q - 1][next - p..] == doc[next..q - 1];
      }
    }
  }

  lemma {:induction false} DigitsShape(doc: string, p: nat)
    requires p <= |doc|
    ensures OnlyDigits(doc[p..SkipDigits(doc, p)])
    decreases |doc| - p
  {
    var q := SkipDigits(doc, p);
    if p < |doc| && IsDigit(doc[p]) {
      DigitsShape(doc, p + 1);
      assert doc[p..q] == [doc[p]] + doc[p + 1..q];
    }
  }

  lemma NumberShape(doc: string, p: nat)
    requires p <= |doc|
    ensures IsNumberTail(doc[p..ScanNumber(doc, p)])
  {
    var a := SkipDigits(doc, p);
    var b := ScanFraction(doc, a);
    var c := ScanExponent(doc, b);
    DigitsShape(doc, p);
    FractionShape(doc, a);
    ExponentShape(doc, b);
    hide *;
    assert doc[p..c] == doc[p..a] + doc[a..b] + doc[b..c];
    PartsMakeNumber(doc[p..a], doc[a..b], doc[b..c]);
  }

  lemma PartsMakeNumber(x: string, y: string, z: string)
    requires OnlyDigits(x) && IsFraction(y) && IsExponent(z)
    ensures IsNumberTail(x + y + z)
  {
    assert NumberParts(x + y + z, x, y, z);
  }

  lemma FractionShape(doc: string, a: nat)
    requires a <= |doc|
    ensures IsFraction(doc[a..ScanFraction(doc, a)])
  {
    var t := doc[a..ScanFraction(doc, a)];
    if a < |doc| && doc[a] == '.' {
      DigitsShape(doc, a + 1);
      assert t[1..] == doc[a + 1..ScanFraction(doc, a)];
    }
  }

  lemma ExponentShape(doc: string, b: nat)
    requires b <= |doc|
    ensures IsExponent(doc[b..ScanExponent(doc, b)])
  {
    var c := ScanExponent(doc, b);
    if b < |doc| && (doc[b] == 'e' || doc[b] == 'E') {
      var d := if b + 1 < |doc| && (doc[b + 1] == '+' || doc[b + 1] == '-') then b + 2 else b + 1;
      DigitsShape(doc, d);
      assert doc[b..c][d - b..] == doc[d..c];
    }
  }

  /** Every token read looks like its kind, and no white space stands before it but what was skipped. */
  lemma TokenLooks(f: Features, doc: string, p: nat)
    requires p <= |doc|
    ensures var t := ReadToken(f, doc, p);
            && Looks(f, t.kind, doc[t.start..t.end])
            && forall k :: p <= k < t.start ==> doc[k] in {' ', '\t', '\r', '\n'}
  {
    OnlySpaces(doc, p);
    var s := SkipSpaces(doc, p);
    hide SkipSpaces;
    if s < |doc| {
      ScanLooks(f, doc, s);
    }
  }

  lemma {:induction false} OnlySpaces(doc: string, p: nat)
    requires p <= |doc|
    ensures forall k :: p <= k < SkipSpaces(doc, p) ==> doc[k] in {' ', '\t', '\r', '\n'}
    decreases |doc| - p
  {
    if p < |doc| && IsSpace(doc[p]) {
      OnlySpaces(doc, p + 1);
    }
  }

  lemma StringLooks(f: Features, doc: string, s: nat)
    requires s < |doc| && (doc[s] == '\"' || (doc[s] == '\'' && f.allowSingleQuotes))
    ensures var (kind, end) := ScanToken(f, doc, doc[s], s + 1); Looks(f, kind, doc[s..end])
  {
    var (kind, end) := ScanToken(f, doc, doc[s], s + 1);
    var t := doc[s..end];
    StringShape(doc, s + 1, doc[s]);
    hide Escaped, JsonString.ScanString, ScanNumber, ScanComment, ScanSigned, Word;
    assert kind.StringToken? ==> t[1..|t| - 1] == doc[s + 1..end - 1];
  }

  lemma CommentLooks(f: Features, doc: string, s: nat)
    requires s < |doc| && (doc[s] == '/' || (doc[s] == '\'' && !f.allowSingleQuotes))
    ensures var (kind, end) := ScanToken(f, doc, doc[s], s + 1); Looks(f, kind, doc[s..end])
  {
    hide ScanCComment, ScanCppComment, Escaped, IsNumberTail, JsonString.ScanString, ScanNumber, ScanSigned, Word;
  }

  lemma NumberLooks(f: Features, doc: string, s: nat)
    requires s < |doc| && (IsDigit(doc[s]) || doc[s] == '-' || doc[s] == '+')
    ensures var (kind, end) := ScanToken(f, doc, doc[s], s + 1); Looks(f, kind, doc[s..end])
  {
    var (kind, end) := ScanToken(f, doc, doc[s], s + 1);
    NumberShape(doc, s + 1);
    hide ScanNumber, IsNumberTail, Escaped, JsonString.ScanString, ScanComment, Word;
    assert doc[s..end][1..] == doc[s + 1..end];
  }

  lemma OtherLooks(f: Features, doc: string, s: nat)
    requires s < |doc| && doc[s] !in {'\"', '\'', '/', '-', '+'} && !IsDigit(doc[s])
    ensures var (kind, end) := ScanToken(f, doc, doc[s], s + 1); Looks(f, kind, doc[s..end])
  {
    hide ScanNumber, IsNumberTail, Escaped, JsonString.ScanString, ScanComment, ScanSigned;
    var end := ScanToken(f, doc, doc[s], s + 1).1;
    assert doc[s..end] == [doc[s]] + doc[s + 1..end];
  }

  lemma ScanLooks(f: Features, doc: string, s: nat)
    requires s < |doc|
    ensures var (kind, end) := ScanToken(f, doc, doc[s], s + 1); Looks(f, kind, doc[s..end])
  {
    var c := doc[s];
    hide *;
    if c == '\"' || (c == '\'' && f.allowSingleQuotes) {
      StringLooks(f, doc, s);
    } else if c == '/' || c == '\'' {
      CommentLooks(f, doc, s);
    } else if IsDigit(c) || c == '-' || c == '+' {
      NumberLooks(f, doc, s);
    } else {
      OtherLooks(f, doc, s);
    }
  }

  // ---------------------------------------------------------------- where a comment ends

  predicate Closes(doc: string, k: nat) { k + 1 < |doc| && doc[k] == '*' && doc[k + 1] == '/' }

  lemma {:induction false} BlockEnds(doc: string, p: nat)
    requires p <= |doc|
    ensures var (ok, q) := ScanCComment(doc, p);
            || (ok && p + 2 <= q && Closes(doc, q - 2) && forall k :: p <= k < q - 2 ==> !Closes(doc, k))
            || (q == |doc| && (ok <==> p < |doc| && doc[|doc| - 1] == '/') && forall k :: p <= k ==> !Closes(doc, k))
    decreases |doc| - p
  {
    if p + 1 < |doc| && !(doc[p] == '*' && doc[p + 1] == '/') {
      BlockEnds(doc, p + 1);
    }
  }

  lemma {:induction false} LineEnds(doc: string, p: nat) returns (e: nat)
    requires p <= |doc|
    ensures p <= e <= |doc| && (forall k :: p <= k < e ==> doc[k] !in {'\n', '\r'})
    ensures e < |doc| ==> doc[e] in {'\n', '\r'}
    ensures ScanCppComment(doc, p) == if e == |doc| then e else if "\r\n" <= doc[e..] then e + 2 else e + 1
    decreases |doc| - p
  {
    if p == |doc| || doc[p] == '\n' || doc[p] == '\r' {
      e := p;
    } else {
      e := LineEnds(doc, p + 1);
    }
  }

  /** A block comment ends behind the first close, or with a document whose last character is a slash. */
  lemma BlockComment(f: Features, doc: string, p: nat)
    requires p + 1 < |doc| && doc[p] == '/' && doc[p + 1] == '*'
    ensures var t := ReadToken(f, doc, p);
            || (&& t.kind.Comment? && t.start == p && p + 4 <= t.end && Closes(doc, t.end - 2)
                && forall k :: p + 2 <= k < t.end - 2 ==> !Closes(doc, k))
            || (&& t == Token(if p + 2 < |doc| && doc[|doc| - 1] == '/' then Comment else ErrorToken, p, |doc|)
                && forall k :: p + 2 <= k ==> !Closes(doc, k))
  {
    BlockEnds(doc, p + 2);
    assert SkipSpaces(doc, p) == p;
    hide ScanCComment, SkipSpaces, Closes;
  }

  /** A line comment ends behind the first line feed, carriage return or pair of both, or with the document. */
  lemma LineComment(f: Features, doc: string, p: nat) returns (e: nat)
    requires p + 1 < |doc| && doc[p] == '/' && doc[p + 1] == '/'
    ensures p + 2 <= e <= |doc| && (forall k :: p + 2 <= k < e ==> doc[k] !in {'\n', '\r'})
    ensures e < |doc| ==> doc[e] in {'\n', '\r'}
    ensures ReadToken(f, doc, p) ==
            Token(Comment, p, if e == |doc| then e else if "\r\n" <= doc[e..] then e + 2 else e + 1)
  {
    e := LineEnds(doc, p + 2);
    assert SkipSpaces(doc, p) == p;
    hide ScanCppComment, SkipSpaces;
  }

  // ---------------------------------------------------------------- tokens taken where they stand

  /** The words and signs, and the kind of token each of them is. */
  predicate IsWord(f: Features, word: string, kind: TokenType) {
    || (word, kind) in {("{", ObjectBegin), ("}", ObjectEnd), ("[", ArrayBegin), ("]", ArrayEnd), (",", ArraySeparator),
                        (":", MemberSeparator), ("true", TrueToken), ("false", FalseToken), ("null", NullToken)}
    || (f.allowSpecialFloats && (word, kind) in {("NaN", NaNToken), ("Infinity", PosInf), ("+Infinity", PosInf),
                                                 ("-Infinity", NegInf)})
  }

  lemma SignTaken(f: Features, doc: string, p: nat, word: string, kind: TokenType)
    requires JsonString.At(doc, p, word) && IsWord(f, word, kind) && |word| == 1
    ensures ReadToken(f, doc, p) == Token(kind, p, p + 1)
  {
    WordHere(doc, p, word);
    hide SkipSpaces, JsonString.At, ScanNumber, JsonString.ScanString, ScanComment, ScanSigned, Word;
  }

  lemma LettersTaken(f: Features, doc: string, p: nat, word: string, kind: TokenType)
    requires JsonString.At(doc, p, word) && |word| > 1 && word[0] !in {'+', '-'} && IsWord(f, word, kind)
    ensures ReadToken(f, doc, p) == Token(kind, p, p + |word|)
  {
    WordHere(doc, p, word);
    Behind(doc, p, word);
    hide SkipSpaces, JsonString.At, ScanNumber, JsonString.ScanString, ScanComment, ScanSigned;
  }

  lemma InfinityTaken(f: Features, doc: string, p: nat, word: string, kind: TokenType)
    requires JsonString.At(doc, p, word) && |word| > 1 && word[0] in {'+', '-'} && IsWord(f, word, kind)
    ensures ReadToken(f, doc, p) == Token(kind, p, p + |word|)
  {
    WordHere(doc, p, word);
    Behind(doc, p, word);
    Behind(doc, p + 1, word[1..]);
    JsonString.AtChar(doc, p, word, 1);
    hide SkipSpaces, JsonString.At, ScanNumber, JsonString.ScanString, ScanComment, Word;
  }

  lemma WordTaken(f: Features, doc: string, p: nat, word: string, kind: TokenType)
    requires JsonString.At(doc, p, word) && IsWord(f, word, kind)
    ensures ReadToken(f, doc, p) == Token(kind, p, p + |word|)
  {
    hide ReadToken, JsonString.At;
    if |word| == 1 {
      SignTaken(f, doc, p, word, kind);
    } else if word[0] in {'+', '-'} {
      InfinityTaken(f, doc, p, word, kind);
    } else {
      LettersTaken(f, doc, p, word, kind);
    }
  }

  lemma Behind(doc: string, p: nat, word: string)
    requires JsonString.At(doc, p, word) && word != ""
    ensures JsonString.At(doc, p + 1, word[1..])
  {
    assert word == [word[0]] + word[1..];
    JsonString.AtSplit(doc, p, [word[0]], word[1..]);
  }

  lemma WordHere(doc: string, p: nat, word: string)
    requires JsonString.At(doc, p, word) && word != "" && !IsSpace(word[0])
    ensures p + |word| <= |doc| && doc[p] == word[0] && SkipSpaces(doc, p) == p
  {
    assert doc[p] == doc[p..p + |word|][0];
  }

  /** From i to j stand digits, and none behind them. */
  predicate DigitsSpan(doc: string, i: nat, j: nat) {
    && i <= j <= |doc| && (forall k :: i <= k < j ==> '0' <= doc[k] <= '9')
    && (j < |doc| ==> !('0' <= doc[j] <= '9'))
  }

  /** Digits up to a, behind a point more up to b, and behind an "e" and a sign more up to c. */
  predicate NumberSpan(doc: string, p: nat, a: nat, b: nat, c: nat) {
    && DigitsSpan(doc, p, a)
    && (if a < |doc| && doc[a] == '.' then DigitsSpan(doc, a + 1, b) else b == a)
    && (if b < |doc| && doc[b] in {'e', 'E'} then
          DigitsSpan(doc, if b + 1 < |doc| && doc[b + 1] in {'+', '-'} then b + 2 else b + 1, c)
        else c == b)
  }

  lemma {:induction false} DigitsTaken(doc: string, p: nat)
    requires p <= |doc|
    ensures DigitsSpan(doc, p, SkipDigits(doc, p))
    decreases |doc| - p
  {
    if p < |doc| && IsDigit(doc[p]) {
      DigitsTaken(doc, p + 1);
    }
  }

  lemma NumberStarts(f: Features, doc: string, p: nat)
    requires p < |doc| && ('0' <= doc[p] <= '9' || (doc[p] in {'+', '-'} && !(p + 1 < |doc| && doc[p + 1] == 'I')))
    ensures ReadToken(f, doc, p) == Token(NumberToken, p, ScanNumber(doc, p + 1))
  {
    assert SkipSpaces(doc, p) == p;
    hide ScanNumber, SkipSpaces, JsonString.ScanString, ScanComment, Word;
  }

  lemma NumberSpans(doc: string, p: nat) returns (a: nat, b: nat)
    requires p <= |doc|
    ensures NumberSpan(doc, p, a, b, ScanNumber(doc, p))
  {
    a := SkipDigits(doc, p);
    b := ScanFraction(doc, a);
    DigitsTaken(doc, p);
    if a < |doc| && doc[a] == '.' {
      DigitsTaken(doc, a + 1);
    }
    if b < |doc| && doc[b] in {'e', 'E'} {
      DigitsTaken(doc, if b + 1 < |doc| && doc[b + 1] in {'+', '-'} then b + 2 else b + 1);
    }
    hide DigitsSpan, SkipDigits;
  }

  /** A number is taken as far as it goes. */
  lemma NumberTaken(f: Features, doc: string, p: nat) returns (a: nat, b: nat)
    requires p < |doc| && ('0' <= doc[p] <= '9' || (doc[p] in {'+', '-'} && !(p + 1 < |doc| && doc[p + 1] == 'I')))
    ensures var t := ReadToken(f, doc, p);
            t == Token(NumberToken, p, t.end) && NumberSpan(doc, p + 1, a, b, t.end)
  {
    hide *;
    NumberStarts(f, doc, p);
    a, b := NumberSpans(doc, p + 1);
  }

  // ---------------------------------------------------------------- tokens at a place

  lemma SpacesBefore(f: Features, doc: string, p: nat)
    requires p <= |doc|
    ensures var s := SkipSpaces(doc, p);
            && ReadToken(f, doc, p) == ReadToken(f, doc, s) && SkipComments(f, doc, p) == SkipComments(f, doc, s)
            && (s < |doc| && doc[s] == ']' ==> SkipComments(f, doc, p) == Token(ArrayEnd, s, s + 1))
  {
    var s := SkipSpaces(doc, p);
    assert SkipSpaces(doc, s) == s;
  }

  /** Reading again where a token starts gives the same token. */
  lemma ReadAgain(f: Features, doc: string, p: nat)
    requires p <= |doc|
    ensures var t := ReadToken(f, doc, p); ReadToken(f, doc, t.start) == t
  {
    var s := SkipSpaces(doc, p);
    assert SkipSpaces(doc, s) == s;
    hide ScanToken;
  }

  lemma {:induction false} SkipAgain(f: Features, doc: string, p: nat)
    requires p <= |doc|
    ensures var t := SkipComments(f, doc, p); ReadToken(f, doc, t.start) == t && SkipComments(f, doc, t.start) == t
    decreases |doc| - p
  {
    hide ReadToken;
    ReadAgain(f, doc, p);
    var t := ReadToken(f, doc, p);
    if t.kind.Comment? {
      SkipAgain(f, doc, t.end);
    }
  }

  lemma OneCharacter(f: Features, doc: string, p: nat)
    requires p <= |doc|
    ensures var t := ReadToken(f, doc, p);
            t.kind in {ObjectBegin, ObjectEnd, ArrayBegin, ArrayEnd, ArraySeparator, MemberSeparator} ==>
              t.end == t.start + 1
  {
    hide JsonString.ScanString, ScanComment, ScanNumber, ScanSigned, Word;
  }

  lemma BracketAhead(f: Features, doc: string, p: nat)
    requires p <= |doc|
    ensures var (s, t) := (SkipSpaces(doc, p), ReadToken(f, doc, p));
            && (t.kind.ArrayEnd? <==> s < |doc| && doc[s] == ']') && (t.kind.ArrayEnd? ==> t.end == s + 1)
  {
    hide SkipSpaces, JsonString.ScanString, ScanComment, ScanNumber, ScanSigned;
  }

  lemma UnreadToken(f: Features, doc: string, p: nat)
    requires p <= |doc|
    ensures var t := FirstToken(f, doc, p);
            t.kind in {ArraySeparator, ObjectEnd, ArrayEnd, ObjectBegin, ArrayBegin} ==> t.end == t.start + 1
  {
    SkipAgain(f, doc, p);
    OneCharacter(f, doc, p);
    OneCharacter(f, doc, SkipComments(f, doc, p).start);
    hide ReadToken, SkipComments;
  }
}
