/**
 Strings of the JSON layer (libdtuconfigure/jsoncpp.cpp): how BuiltStyledStreamWriter quotes them and how
 OurReader scans and decodes them. A string stands for the bytes of a C++ String, one char per byte.
 */
module JsonString {

  datatype Decoded = Text(text: string) | Bad(message: string)

  /** The characters of t stand in doc at position p. */
  predicate At(doc: string, p: nat, t: string) {
    p + |t| <= |doc| && doc[p..p + |t|] == t
  }

  lemma AtSplit(doc: string, p: nat, a: string, b: string)
    requires At(doc, p, a + b)
    ensures At(doc, p, a) && At(doc, p + |a|, b)
  {
    assert doc[p..p + |a|] == doc[p..p + |a + b|][..|a|];
    assert doc[p + |a|..p + |a + b|] == doc[p..p + |a + b|][|a|..];
  }

  lemma AtJoin(doc: string, p: nat, a: string, b: string)
    requires At(doc, p, a) && At(doc, p + |a|, b)
    ensures At(doc, p, a + b)
  {
    assert doc[p..p + |a + b|] == doc[p..p + |a|] + doc[p + |a|..p + |a| + |b|];
  }

  lemma AtChar(doc: string, p: nat, t: string, k: nat)
    requires At(doc, p, t) && k < |t|
    ensures doc[p + k] == t[k]
  {
    assert doc[p..p + |t|][k] == t[k];
  }

  // ---------------------------------------------------------------- UTF-8

  predicate Tail(c: char) { 0x80 <= c as int <= 0xBF }

  /** The length of the well-formed sequence that starts at i by the table of section 4 of RFC 3629, or 0. */
  function Utf8Length(s: string, i: nat): nat
    requires i < |s|
  {
    var b0 := s[i] as int;
    if b0 <= 0x7F then 1
    else if 0xC2 <= b0 <= 0xDF && i + 1 < |s| && Tail(s[i + 1]) then 2
    else if i + 2 < |s| && Tail(s[i + 1]) && Tail(s[i + 2])
         && ((b0 == 0xE0 && 0xA0 <= s[i + 1] as int) || 0xE1 <= b0 <= 0xEC
             || (b0 == 0xED && s[i + 1] as int <= 0x9F) || 0xEE <= b0 <= 0xEF) then 3
    else if i + 3 < |s| && Tail(s[i + 1]) && Tail(s[i + 2]) && Tail(s[i + 3])
         && ((b0 == 0xF0 && 0x90 <= s[i + 1] as int) || 0xF1 <= b0 <= 0xF3
             || (b0 == 0xF4 && s[i + 1] as int <= 0x8F)) then 4
    else 0
  }

  predicate ValidUtf8From(s: string, i: nat)
    decreases |s| - i
  {
    i >= |s| || (Utf8Length(s, i) > 0 && ValidUtf8From(s, i + Utf8Length(s, i)))
  }

  predicate ValidUtf8(s: string) { ValidUtf8From(s, 0) }

  const REPLACEMENT_CHARACTER := 0xFFFD

  /** utf8ToCodepoint: the code point read at i and the position of the last byte it used. */
  function Utf8ToCodepoint(s: string, i: nat): (r: (nat, nat))
    requires i < |s|
    ensures i <= r.1 < |s| && r.0 < 0x200000
  {
    var b0 := s[i] as int;
    if b0 < 0x80 then (b0, i)
    else if b0 < 0xE0 then
      if |s| - i < 2 then (REPLACEMENT_CHARACTER, i)
      else
        var cp := b0 % 32 * 64 + s[i + 1] as int % 64;
        (if cp < 0x80 then REPLACEMENT_CHARACTER else cp, i + 1)
    else if b0 < 0xF0 then
      if |s| - i < 3 then (REPLACEMENT_CHARACTER, i)
      else
        var cp := b0 % 16 * 4096 + s[i + 1] as int % 64 * 64 + s[i + 2] as int % 64;
        (if 0xD800 <= cp <= 0xDFFF || cp < 0x800 then REPLACEMENT_CHARACTER else cp, i + 2)
    else if b0 < 0xF8 then
      if |s| - i < 4 then (REPLACEMENT_CHARACTER, i)
      else
        var cp := b0 % 8 * 262144 + s[i + 1] as int % 64 * 4096 + s[i + 2] as int % 64 * 64 + s[i + 3] as int % 64;
        (if cp < 0x10000 then REPLACEMENT_CHARACTER else cp, i + 3)
    else (REPLACEMENT_CHARACTER, i)
  }

  /** codePointToUTF8; nothing is produced above U+10FFFF. */
  function CodePointToUtf8(cp: nat): string {
    if cp <= 0x7F then [cp as char]
    else if cp <= 0x7FF then [(0xC0 + cp / 64 % 32) as char, (0x80 + cp % 64) as char]
    else if cp <= 0xFFFF then
      [(0xE0 + cp / 4096 % 16) as char, (0x80 + cp / 64 % 64) as char, (0x80 + cp % 64) as char]
    else if cp <= 0x10FFFF then
      [(0xF0 + cp / 262144 % 8) as char, (0x80 + cp / 4096 % 64) as char,
       (0x80 + cp / 64 % 64) as char, (0x80 + cp % 64) as char]
    else ""
  }

  // ---------------------------------------------------------------- quoting

  function HexDigit(d: nat): char
    requires d < 16
  {
    if d < 10 then ('0' as int + d) as char else ('a' as int + d - 10) as char
  }

  /** toHex16Bit: the low 16 bits as four lower-case digits. */
  function ToHex16(x: nat): (t: string)
    ensures |t| == 4
  {
    [HexDigit(x / 4096 % 16), HexDigit(x / 256 % 16), HexDigit(x / 16 % 16), HexDigit(x % 16)]
  }

  function EscapeCodepoint(cp: nat): string {
    if 0x20 <= cp <= 0x7F then [cp as char]
    else if cp < 0x10000 then "\\u" + ToHex16(cp)
    else "\\u" + ToHex16((cp - 0x10000) / 1024 + 0xD800) + ("\\u" + ToHex16((cp - 0x10000) % 1024 + 0xDC00))
  }

  /** The letter after the backslash of a two-character escape, or the character itself when it has none. */
  function ShortEscape(c: char): char {
    match c
    case '\"' => '\"'
    case '\\' => '\\'
    case '\U{8}' => 'b'
    case '\U{c}' => 'f'
    case '\n' => 'n'
    case '\r' => 'r'
    case '\t' => 't'
    case _ => '\0'
  }

  /** One round of the loop of valueToQuotedStringN: the text written and where the next round starts. */
  function EscapeAt(s: string, i: nat, emitUtf8: bool): (r: (string, nat))
    requires i < |s|
    ensures i < r.1 <= |s|
  {
    if ShortEscape(s[i]) != '\0' then (['\\', ShortEscape(s[i])], i + 1)
    else if emitUtf8 then ([s[i]], i + 1)
    else
      var (cp, last) := Utf8ToCodepoint(s, i);
      (EscapeCodepoint(cp), last + 1)
  }

  function QuoteFrom(s: string, i: nat, emitUtf8: bool): string
    requires i <= |s|
    decreases |s| - i
  {
    if i == |s| then "" else EscapeAt(s, i, emitUtf8).0 + QuoteFrom(s, EscapeAt(s, i, emitUtf8).1, emitUtf8)
  }

  /** valueToQuotedStringN. */
  function Quote(s: string, emitUtf8: bool): string {
    "\"" + QuoteFrom(s, 0, emitUtf8) + "\""
  }

  // ---------------------------------------------------------------- scanning and decoding

  /** readString after its opening quote: whether the closing quote was found and where the cursor stops. */
  function ScanString(doc: string, p: nat, quote: char): (r: (bool, nat))
    requires p <= |doc|
    ensures p <= r.1 <= |doc| && (r.0 ==> p < r.1)
    decreases |doc| - p
  {
    if p == |doc| then (false, p)
    else if doc[p] == '\\' then
      if p + 1 == |doc| then (false, p + 1) else ScanString(doc, p + 2, quote)
    else if doc[p] == quote then (true, p + 1)
    else ScanString(doc, p + 1, quote)
  }

  function HexValue(c: char): int {
    if '0' <= c <= '9' then c as int - '0' as int
    else if 'a' <= c <= 'f' then c as int - 'a' as int + 10
    else if 'A' <= c <= 'F' then c as int - 'A' as int + 10
    else -1
  }

  datatype Escape16 = Code(code: nat) | BadCode(message: string)

  const FOUR_DIGITS := "Bad unicode escape sequence in string: four digits expected."
  const HEX_EXPECTED := "Bad unicode escape sequence in string: hexadecimal digit expected."
  const SIX_EXPECTED := "additional six characters expected to parse unicode surrogate pair."
  const SECOND_HALF := "expecting another \\u token to begin the second half of a unicode surrogate pair"
  const EMPTY_ESCAPE := "Empty escape sequence in string"
  const BAD_ESCAPE := "Bad escape sequence in string"

  /** decodeUnicodeEscapeSequence: four hexadecimal digits at i. */
  function DecodeHex4(body: string, i: nat): (r: Escape16)
    requires i <= |body|
    ensures r.Code? ==> i + 4 <= |body| && r.code < 0x10000
  {
    if |body| - i < 4 then BadCode(FOUR_DIGITS)
    else
      var (a, b, c, d) := (HexValue(body[i]), HexValue(body[i + 1]), HexValue(body[i + 2]), HexValue(body[i + 3]));
      if a < 0 || b < 0 || c < 0 || d < 0 then BadCode(HEX_EXPECTED)
      else Code(a * 4096 + b * 256 + c * 16 + d)
  }

  /** decodeUnicodeCodePoint after "\u" at i: the code point and where the cursor goes on. */
  function DecodeCodePoint(body: string, i: nat): (r: (Escape16, nat))
    requires i <= |body|
    ensures r.0.Code? ==> i < r.1 <= |body|
  {
    match DecodeHex4(body, i)
    case BadCode(m) => (BadCode(m), i)
    case Code(hi) =>
      if !(0xD800 <= hi <= 0xDBFF) then (Code(hi), i + 4)
      else if |body| - (i + 4) < 6 then (BadCode(SIX_EXPECTED), i)
      else if body[i + 4] != '\\' || body[i + 5] != 'u' then (BadCode(SECOND_HALF), i)
      else
        match DecodeHex4(body, i + 6)
        case BadCode(m) => (BadCode(m), i)
        case Code(lo) => (Code(0x10000 + hi % 1024 * 1024 + lo % 1024), i + 10)
  }

  function Unescape(c: char): char {
    match c
    case '\"' => '\"'
    case '/' => '/'
    case '\\' => '\\'
    case 'b' => '\U{8}'
    case 'f' => '\U{c}'
    case 'n' => '\n'
    case 'r' => '\r'
    case 't' => '\t'
    case _ => '\0'
  }

  function Prepend(t: string, rest: Decoded): Decoded {
    if rest.Text? then Text(t + rest.text) else rest
  }

  /** decodeString from position i of the characters between the quotes. */
  function DecodeFrom(body: string, i: nat): Decoded
    requires i <= |body|
    decreases |body| - i
  {
    if i == |body| || body[i] == '\"' then Text("")
    else if body[i] != '\\' then Prepend([body[i]], DecodeFrom(body, i + 1))
    else if i + 1 == |body| then Bad(EMPTY_ESCAPE)
    else if body[i + 1] == 'u' then
      var (code, next) := DecodeCodePoint(body, i + 2);
      if code.BadCode? then Bad(code.message) else Prepend(CodePointToUtf8(code.code), DecodeFrom(body, next))
    else if Unescape(body[i + 1]) == '\0' then Bad(BAD_ESCAPE)
    else Prepend([Unescape(body[i + 1])], DecodeFrom(body, i + 2))
  }

  function DecodeString(body: string): Decoded { DecodeFrom(body, 0) }

  // ---------------------------------------------------------------- what one round writes is what is read back

  /** What the reader makes of the escape of a code point. */
  function RepairCodepoint(cp: nat): string {
    if cp <= 0x10FFFF then CodePointToUtf8(cp)
    else CodePointToUtf8((cp - 0x10000) / 1024 + 0xD800) + CodePointToUtf8((cp - 0x10000) % 1024 + 0xDC00)
  }

  /** What the reader makes of the text written for the unit at i. */
  function RepairAt(s: string, i: nat): string
    requires i < |s|
  {
    if ShortEscape(s[i]) != '\0' then [s[i]] else RepairCodepoint(Utf8ToCodepoint(s, i).0)
  }

  function RepairFrom(s: string, i: nat): string
    requires i <= |s|
    decreases |s| - i
  {
    if i == |s| then "" else RepairAt(s, i) + RepairFrom(s, EscapeAt(s, i, false).1)
  }

  lemma HexRoundTrip(d: nat)
    requires d < 16
    ensures HexValue(HexDigit(d)) == d && HexDigit(d) != '\\' && HexDigit(d) != '\"'
  {
  }

  lemma HexDigitsOf(x: nat)
    requires x < 0x10000
    ensures x / 4096 % 16 * 4096 + x / 256 % 16 * 256 + x / 16 % 16 * 16 + x % 16 == x
  {
    var (y, z) := (x / 16, x / 256);
    assert x == y * 16 + x % 16 && y == z * 16 + y % 16 && z == z / 16 * 16 + z % 16;
    assert z / 16 == x / 4096 && x / 4096 % 16 == x / 4096;
  }

  lemma Hex16RoundTrip(body: string, i: nat, x: nat)
    requires x < 0x10000 && At(body, i, ToHex16(x))
    ensures DecodeHex4(body, i) == Code(x)
  {
    hide HexDigit, HexValue;
    var (a, b, c, d) := (x / 4096 % 16, x / 256 % 16, x / 16 % 16, x % 16);
    HexRoundTrip(a);
    HexRoundTrip(b);
    HexRoundTrip(c);
    HexRoundTrip(d);
    HexDigitsOf(x);
    var t := [HexDigit(a), HexDigit(b), HexDigit(c), HexDigit(d)];
    AtChar(body, i, t, 0);
    AtChar(body, i, t, 1);
    AtChar(body, i, t, 2);
    AtChar(body, i, t, 3);
  }

  lemma UnicodeEscapeDecodes(body: string, j: nat, x: nat)
    requires x < 0x10000 && !(0xD800 <= x <= 0xDBFF) && At(body, j, "\\u" + ToHex16(x))
    ensures DecodeFrom(body, j) == Prepend(CodePointToUtf8(x), DecodeFrom(body, j + 6))
  {
    hide DecodeFrom;
    AtSplit(body, j, "\\u", ToHex16(x));
    Hex16RoundTrip(body, j + 2, x);
    UnicodeStep(body, j);
  }

  /** A \u escape is decoded as its code point, and decoding goes on behind it. */
  lemma UnicodeStep(body: string, j: nat)
    requires At(body, j, "\\u") && DecodeCodePoint(body, j + 2).0.Code?
    ensures var (code, next) := DecodeCodePoint(body, j + 2);
            DecodeFrom(body, j) == Prepend(CodePointToUtf8(code.code), DecodeFrom(body, next))
  {
    hide DecodeCodePoint, CodePointToUtf8;
    AtChar(body, j, "\\u", 0);
    AtChar(body, j, "\\u", 1);
  }

  lemma SurrogateHalves(v: nat)
    requires v < 0x100000
    ensures 0xD800 <= v / 1024 + 0xD800 <= 0xDBFF && 0xDC00 <= v % 1024 + 0xDC00 <= 0xDFFF
    ensures (v / 1024 + 0xD800) % 1024 * 1024 + (v % 1024 + 0xDC00) % 1024 == v
  {
  }

  lemma SurrogatePairCodePoint(body: string, i: nat, hi: nat, lo: nat)
    requires 0xD800 <= hi <= 0xDBFF && lo < 0x10000
    requires At(body, i, ToHex16(hi)) && At(body, i + 4, "\\u" + ToHex16(lo))
    ensures DecodeCodePoint(body, i) == (Code(0x10000 + hi % 1024 * 1024 + lo % 1024), i + 10)
  {
    hide ToHex16, DecodeHex4;
    AtSplit(body, i + 4, "\\u", ToHex16(lo));
    AtChar(body, i + 4, "\\u", 0);
    AtChar(body, i + 4, "\\u", 1);
    Hex16RoundTrip(body, i, hi);
    Hex16RoundTrip(body, i + 6, lo);
  }

  lemma SurrogatePairDecodes(body: string, j: nat, v: nat)
    requires v < 0x100000
    requires At(body, j, "\\u" + ToHex16(v / 1024 + 0xD800) + ("\\u" + ToHex16(v % 1024 + 0xDC00)))
    ensures DecodeFrom(body, j) == Prepend(CodePointToUtf8(v + 0x10000), DecodeFrom(body, j + 12))
  {
    hide ToHex16, DecodeHex4, DecodeCodePoint, CodePointToUtf8;
    var hi, lo := v / 1024 + 0xD800, v % 1024 + 0xDC00;
    SurrogateHalves(v);
    AtSplit(body, j, "\\u" + ToHex16(hi), "\\u" + ToHex16(lo));
    AtSplit(body, j, "\\u", ToHex16(hi));
    AtChar(body, j, "\\u", 0);
    AtChar(body, j, "\\u", 1);
    SurrogatePairCodePoint(body, j + 2, hi, lo);
  }

  lemma PrependTwice(a: string, b: string, rest: Decoded)
    ensures Prepend(a, Prepend(b, rest)) == Prepend(a + b, rest)
  {
    if rest.Text? {
      assert a + (b + rest.text) == (a + b) + rest.text;
    }
  }

  lemma PlainCodepointDecodes(body: string, j: nat, cp: nat)
    requires 0x20 <= cp <= 0x7F && cp != '\"' as int && cp != '\\' as int && At(body, j, EscapeCodepoint(cp))
    ensures DecodeFrom(body, j) == Prepend(RepairCodepoint(cp), DecodeFrom(body, j + |EscapeCodepoint(cp)|))
  {
    AtChar(body, j, EscapeCodepoint(cp), 0);
  }

  lemma ShortCodepointDecodes(body: string, j: nat, cp: nat)
    requires cp < 0x10000 && !(0x20 <= cp <= 0x7F) && !(0xD800 <= cp <= 0xDFFF) && At(body, j, EscapeCodepoint(cp))
    ensures DecodeFrom(body, j) == Prepend(RepairCodepoint(cp), DecodeFrom(body, j + |EscapeCodepoint(cp)|))
  {
    hide DecodeFrom, ToHex16, Prepend, CodePointToUtf8;
    UnicodeEscapeDecodes(body, j, cp);
  }

  lemma PairedCodepointDecodes(body: string, j: nat, cp: nat)
    requires 0x10000 <= cp <= 0x10FFFF && At(body, j, EscapeCodepoint(cp))
    ensures DecodeFrom(body, j) == Prepend(RepairCodepoint(cp), DecodeFrom(body, j + |EscapeCodepoint(cp)|))
  {
    hide DecodeFrom, ToHex16, Prepend, CodePointToUtf8;
    SurrogatePairDecodes(body, j, cp - 0x10000);
  }

  /** Beyond the last code point the two escapes are no surrogate pair and are read one by one. */
  lemma UnpairedCodepointDecodes(body: string, j: nat, cp: nat)
    requires 0x110000 <= cp < 0x200000 && At(body, j, EscapeCodepoint(cp))
    ensures DecodeFrom(body, j) == Prepend(RepairCodepoint(cp), DecodeFrom(body, j + |EscapeCodepoint(cp)|))
  {
    var hi, lo := (cp - 0x10000) / 1024 + 0xD800, (cp - 0x10000) % 1024 + 0xDC00;
    hide DecodeFrom, ToHex16, Prepend, CodePointToUtf8;
    AtSplit(body, j, "\\u" + ToHex16(hi), "\\u" + ToHex16(lo));
    UnicodeEscapeDecodes(body, j, hi);
    UnicodeEscapeDecodes(body, j + 6, lo);
    PrependTwice(CodePointToUtf8(hi), CodePointToUtf8(lo), DecodeFrom(body, j + 12));
  }

  /** The escape of a code point is decoded to its repaired bytes, whatever follows it. */
  lemma CodepointDecodes(body: string, j: nat, cp: nat)
    requires cp < 0x200000 && !(0xD800 <= cp <= 0xDFFF) && cp != '\"' as int && cp != '\\' as int
    requires At(body, j, EscapeCodepoint(cp))
    ensures DecodeFrom(body, j) == Prepend(RepairCodepoint(cp), DecodeFrom(body, j + |EscapeCodepoint(cp)|))
  {
    hide *;
    if 0x20 <= cp <= 0x7F {
      PlainCodepointDecodes(body, j, cp);
    } else if cp < 0x10000 {
      ShortCodepointDecodes(body, j, cp);
    } else if cp <= 0x10FFFF {
      PairedCodepointDecodes(body, j, cp);
    } else {
      UnpairedCodepointDecodes(body, j, cp);
    }
  }

  lemma CodepointOfUnit(s: string, i: nat)
    requires i < |s| && ShortEscape(s[i]) == '\0'
    ensures var cp := Utf8ToCodepoint(s, i).0; !(0xD800 <= cp <= 0xDFFF) && cp != '\"' as int && cp != '\\' as int
  {
  }

  lemma ShortEscapeUndone(c: char)
    requires ShortEscape(c) != '\0'
    ensures Unescape(ShortEscape(c)) == c && c != '\0' && ShortEscape(c) != 'u'
  {
  }

  lemma TwoCharEscapeDecodes(body: string, j: nat, escape: char)
    requires escape != 'u' && Unescape(escape) != '\0' && At(body, j, ['\\', escape])
    ensures DecodeFrom(body, j) == Prepend([Unescape(escape)], DecodeFrom(body, j + 2))
  {
    AtChar(body, j, ['\\', escape], 0);
    AtChar(body, j, ['\\', escape], 1);
  }

  lemma PlainCharDecodes(body: string, j: nat, c: char)
    requires ShortEscape(c) == '\0' && At(body, j, [c])
    ensures DecodeFrom(body, j) == Prepend([c], DecodeFrom(body, j + 1))
  {
    AtChar(body, j, [c], 0);
  }

  /** The text of one round is decoded to the character itself, or to the repaired bytes of its unit. */
  lemma UnitDecodes(body: string, j: nat, s: string, i: nat, emitUtf8: bool)
    requires i < |s| && At(body, j, EscapeAt(s, i, emitUtf8).0)
    ensures DecodeFrom(body, j)
         == Prepend(if emitUtf8 then [s[i]] else RepairAt(s, i), DecodeFrom(body, j + |EscapeAt(s, i, emitUtf8).0|))
  {
    hide DecodeFrom, Unescape;
    var c, e := s[i], ShortEscape(s[i]);
    if e != '\0' {
      assert EscapeAt(s, i, emitUtf8).0 == ['\\', e] && RepairAt(s, i) == [c];
      ShortEscapeUndone(c);
      TwoCharEscapeDecodes(body, j, e);
    } else if emitUtf8 {
      assert EscapeAt(s, i, emitUtf8).0 == [c];
      PlainCharDecodes(body, j, c);
    } else {
      CodepointUnitDecodes(body, j, s, i);
    }
  }

  lemma CodepointUnitDecodes(body: string, j: nat, s: string, i: nat)
    requires i < |s| && ShortEscape(s[i]) == '\0' && At(body, j, EscapeAt(s, i, false).0)
    ensures DecodeFrom(body, j) == Prepend(RepairAt(s, i), DecodeFrom(body, j + |EscapeAt(s, i, false).0|))
  {
    CodepointOfUnit(s, i);
    CodepointDecodes(body, j, Utf8ToCodepoint(s, i).0);
  }

  lemma NothingToDecode(body: string, s: string, emitUtf8: bool)
    ensures QuoteFrom(s, |s|, emitUtf8) == "" && RepairFrom(s, |s|) == "" && DecodeFrom(body, |body|) == Text("")
  {
  }

  lemma QuoteFromStep(s: string, i: nat, emitUtf8: bool)
    requires i < |s|
    ensures var (e, next) := EscapeAt(s, i, emitUtf8);
            i < next <= |s| && QuoteFrom(s, i, emitUtf8) == e + QuoteFrom(s, next, emitUtf8)
  {
    hide EscapeAt;
  }

  lemma RepairFromStep(s: string, i: nat)
    requires i < |s|
    ensures RepairFrom(s, i) == RepairAt(s, i) + RepairFrom(s, EscapeAt(s, i, false).1)
  {
    hide EscapeAt, RepairAt;
  }

  lemma PrependText(a: string, b: string)
    ensures Prepend(a, Text(b)) == Text(a + b)
  {
  }

  /** Without emitUTF8 the quoted text is always decoded, to the string with every ill-formed unit repaired. */
  lemma {:induction false} QuoteDecodesToRepair(body: string, j: nat, s: string, i: nat)
    requires i <= |s| && At(body, j, QuoteFrom(s, i, false)) && j + |QuoteFrom(s, i, false)| == |body|
    ensures DecodeFrom(body, j) == Text(RepairFrom(s, i))
    decreases |s| - i
  {
    hide *;
    if i == |s| {
      NothingToDecode(body, s, false);
    } else {
      RepairFromStep(s, i);
      var (e, next) := EscapeAt(s, i, false);
      QuoteFromStep(s, i, false);
      AtSplit(body, j, e, QuoteFrom(s, next, false));
      UnitDecodes(body, j, s, i, false);
      QuoteDecodesToRepair(body, j + |e|, s, next);
      PrependText(RepairAt(s, i), RepairFrom(s, next));
    }
  }

  lemma EmittedUnitIsOneChar(s: string, i: nat)
    requires i < |s|
    ensures EscapeAt(s, i, true).1 == i + 1
  {
  }

  lemma {:induction false} EmittedQuoteDecodes(body: string, j: nat, s: string, i: nat)
    requires i <= |s| && At(body, j, QuoteFrom(s, i, true)) && j + |QuoteFrom(s, i, true)| == |body|
    ensures DecodeFrom(body, j) == Text(s[i..])
    decreases |s| - i
  {
    hide *;
    if i == |s| {
      NothingToDecode(body, s, true);
    } else {
      var (e, next) := EscapeAt(s, i, true);
      QuoteFromStep(s, i, true);
      EmittedUnitIsOneChar(s, i);
      AtSplit(body, j, e, QuoteFrom(s, next, true));
      UnitDecodes(body, j, s, i, true);
      EmittedQuoteDecodes(body, j + |e|, s, next);
      PrependText([s[i]], s[i + 1..]);
      assert s[i..] == [s[i]] + s[i + 1..];
    }
  }

  // ---------------------------------------------------------------- repair is the identity exactly on UTF-8

  lemma SplitDigit64(w: nat, d: nat)
    requires d < 64
    ensures (w * 64 + d) / 64 == w && (w * 64 + d) % 64 == d
  {
  }

  /** A base-64 digit string splits into its digits. */
  lemma Digits64(a: nat, b: nat, c: nat, d: nat)
    requires b < 64 && c < 64 && d < 64
    ensures (c * 64 + d) / 64 == c && (c * 64 + d) % 64 == d
    ensures var v := b * 4096 + c * 64 + d; v / 4096 == b && v / 64 % 64 == c && v % 64 == d
    ensures var v := a * 262144 + b * 4096 + c * 64 + d;
            v / 262144 == a && v / 4096 % 64 == b && v / 64 % 64 == c && v % 64 == d
  {
    SplitDigit64(c, d);
    SplitDigit64(b * 64 + c, d);
    SplitDigit64(b, c);
    SplitDigit64(a * 4096 + b * 64 + c, d);
    SplitDigit64(a * 64 + b, c);
    SplitDigit64(a, b);
    DivTwice(b * 4096 + c * 64 + d);
    DivTwice(a * 262144 + b * 4096 + c * 64 + d);
  }

  lemma DivTwice(v: nat)
    ensures v / 64 / 64 == v / 4096 && v / 4096 / 64 == v / 262144
  {
  }

  lemma TwoBytes(b0: nat, b1: nat)
    requires 0xC0 <= b0 < 0xE0 && b0 % 32 * 64 + b1 % 64 >= 0x80
    ensures CodePointToUtf8(b0 % 32 * 64 + b1 % 64) == [b0 as char, (0x80 + b1 % 64) as char]
  {
    Digits64(0, 0, b0 % 32, b1 % 64);
  }

  lemma ThreeBytes(b0: nat, b1: nat, b2: nat)
    requires 0xE0 <= b0 < 0xF0 && b0 % 16 * 4096 + b1 % 64 * 64 + b2 % 64 >= 0x800
    ensures CodePointToUtf8(b0 % 16 * 4096 + b1 % 64 * 64 + b2 % 64)
         == [b0 as char, (0x80 + b1 % 64) as char, (0x80 + b2 % 64) as char]
  {
    Digits64(0, b0 % 16, b1 % 64, b2 % 64);
  }

  lemma FourBytes(b0: nat, b1: nat, b2: nat, b3: nat)
    requires 0xF0 <= b0 < 0xF8
    requires 0x10000 <= b0 % 8 * 262144 + b1 % 64 * 4096 + b2 % 64 * 64 + b3 % 64 <= 0x10FFFF
    ensures CodePointToUtf8(b0 % 8 * 262144 + b1 % 64 * 4096 + b2 % 64 * 64 + b3 % 64)
         == [b0 as char, (0x80 + b1 % 64) as char, (0x80 + b2 % 64) as char, (0x80 + b3 % 64) as char]
  {
    Digits64(b0 % 8, b1 % 64, b2 % 64, b3 % 64);
  }

  lemma TailByte(c: char)
    requires Tail(c)
    ensures (0x80 + c as int % 64) as char == c
  {
  }

  lemma NoShortEscape(c: char)
    requires c as int >= 0x80
    ensures ShortEscape(c) == '\0'
  {
  }

  lemma WellFormedOne(s: string, i: nat)
    requires i < |s| && Utf8Length(s, i) == 1
    ensures EscapeAt(s, i, false).1 == i + 1 && RepairAt(s, i) == s[i..i + 1]
  {
    assert s[i..i + 1] == [s[i]];
  }

  lemma WellFormedTwo(s: string, i: nat)
    requires i < |s| && Utf8Length(s, i) == 2
    ensures EscapeAt(s, i, false).1 == i + 2 && RepairAt(s, i) == s[i..i + 2]
  {
    assert s[i..i + 2] == [s[i], s[i + 1]];
    NoShortEscape(s[i]);
    TailByte(s[i + 1]);
    TwoBytes(s[i] as int, s[i + 1] as int);
  }

  lemma WellFormedThree(s: string, i: nat)
    requires i < |s| && Utf8Length(s, i) == 3
    ensures EscapeAt(s, i, false).1 == i + 3 && RepairAt(s, i) == s[i..i + 3]
  {
    assert s[i..i + 3] == [s[i], s[i + 1], s[i + 2]];
    NoShortEscape(s[i]);
    TailByte(s[i + 1]);
    TailByte(s[i + 2]);
    ThreeBytes(s[i] as int, s[i + 1] as int, s[i + 2] as int);
  }

  lemma WellFormedFour(s: string, i: nat)
    requires i < |s| && Utf8Length(s, i) == 4
    ensures EscapeAt(s, i, false).1 == i + 4 && RepairAt(s, i) == s[i..i + 4]
  {
    assert s[i..i + 4] == [s[i], s[i + 1], s[i + 2], s[i + 3]];
    NoShortEscape(s[i]);
    TailByte(s[i + 1]);
    TailByte(s[i + 2]);
    TailByte(s[i + 3]);
    FourBytes(s[i] as int, s[i + 1] as int, s[i + 2] as int, s[i + 3] as int);
  }

  lemma WellFormedUnit(s: string, i: nat)
    requires i < |s| && Utf8Length(s, i) > 0
    ensures EscapeAt(s, i, false).1 == i + Utf8Length(s, i)
    ensures RepairAt(s, i) == s[i..i + Utf8Length(s, i)]
  {
    match Utf8Length(s, i)
    case 1 => WellFormedOne(s, i);
    case 2 => WellFormedTwo(s, i);
    case 3 => WellFormedThree(s, i);
    case _ => WellFormedFour(s, i);
  }

  lemma ReplacementBytes()
    ensures CodePointToUtf8(REPLACEMENT_CHARACTER) == [0xEF as char, 0xBF as char, 0xBD as char]
  {
  }

  lemma LoneSurrogateLead(x: nat)
    requires 0xD800 <= x <= 0xDFFF
    ensures |CodePointToUtf8(x)| == 3 && CodePointToUtf8(x)[0] == 0xED as char
  {
  }

  lemma NotPrefix(t: string, s: string, i: nat, k: nat)
    requires i <= |s| && k < |t| && (i + k >= |s| || t[k] != s[i + k])
    ensures !(t <= s[i..])
  {
    if i + k < |s| {
      assert s[i..][k] == s[i + k];
    }
  }

  lemma IllFormedReplaced(s: string, i: nat)
    requires i < |s| && 0x80 <= s[i] as int && Utf8Length(s, i) == 0
    requires Utf8ToCodepoint(s, i).0 == REPLACEMENT_CHARACTER
    ensures !(RepairAt(s, i) <= s[i..])
  {
    NoShortEscape(s[i]);
    ReplacementBytes();
    var k := if s[i] as int != 0xEF then 0 else if i + 1 >= |s| || s[i + 1] as int != 0xBF then 1 else 2;
    NotPrefix(RepairAt(s, i), s, i, k);
  }

  lemma IllFormedTwo(s: string, i: nat)
    requires i < |s| && 0x80 <= s[i] as int < 0xE0 && Utf8Length(s, i) == 0
    requires Utf8ToCodepoint(s, i).0 != REPLACEMENT_CHARACTER
    ensures !(RepairAt(s, i) <= s[i..])
  {
    NoShortEscape(s[i]);
    Digits64(0, 0, s[i] as int % 32, s[i + 1] as int % 64);
    NotPrefix(RepairAt(s, i), s, i, if s[i] as int < 0xC0 then 0 else 1);
  }

  lemma IllFormedThree(s: string, i: nat)
    requires i < |s| && 0xE0 <= s[i] as int < 0xF0 && Utf8Length(s, i) == 0
    requires Utf8ToCodepoint(s, i).0 != REPLACEMENT_CHARACTER
    ensures !(RepairAt(s, i) <= s[i..])
  {
    NoShortEscape(s[i]);
    ThreeBytes(s[i] as int, s[i + 1] as int, s[i + 2] as int);
    NotPrefix(RepairAt(s, i), s, i, if !Tail(s[i + 1]) then 1 else 2);
  }

  lemma IllFormedFour(s: string, i: nat)
    requires i < |s| && 0xF0 <= s[i] as int && Utf8Length(s, i) == 0
    requires Utf8ToCodepoint(s, i).0 != REPLACEMENT_CHARACTER
    ensures !(RepairAt(s, i) <= s[i..])
  {
    var cp := Utf8ToCodepoint(s, i).0;
    NoShortEscape(s[i]);
    if cp > 0x10FFFF {
      LoneSurrogateLead((cp - 0x10000) / 1024 + 0xD800);
      NotPrefix(RepairAt(s, i), s, i, 0);
    } else {
      IllFormedFourInRange(s, i);
    }
  }

  lemma IllFormedFourInRange(s: string, i: nat)
    requires i < |s| && 0xF0 <= s[i] as int && Utf8Length(s, i) == 0
    requires Utf8ToCodepoint(s, i).0 != REPLACEMENT_CHARACTER && Utf8ToCodepoint(s, i).0 <= 0x10FFFF
    ensures !(RepairAt(s, i) <= s[i..])
  {
    var (b0, b1, b2, b3) := (s[i] as int, s[i + 1] as int, s[i + 2] as int, s[i + 3] as int);
    NoShortEscape(s[i]);
    FourBytes(b0, b1, b2, b3);
    if Tail(s[i + 1]) {
      LeadOfFour(b0, b1, b2, b3);
    }
    NotPrefix(RepairAt(s, i), s, i, if !Tail(s[i + 1]) then 1 else if !Tail(s[i + 2]) then 2 else 3);
  }

  /** In range, the first two bytes of a four-byte sequence obey the table of RFC 3629. */
  lemma LeadOfFour(b0: nat, b1: nat, b2: nat, b3: nat)
    requires 0xF0 <= b0 < 0xF8 && 0x80 <= b1 <= 0xBF
    requires 0x10000 <= b0 % 8 * 262144 + b1 % 64 * 4096 + b2 % 64 * 64 + b3 % 64 <= 0x10FFFF
    ensures (b0 == 0xF0 && 0x90 <= b1) || 0xF1 <= b0 <= 0xF3 || (b0 == 0xF4 && b1 <= 0x8F)
  {
  }

  lemma IllFormedUnit(s: string, i: nat)
    requires i < |s| && Utf8Length(s, i) == 0
    ensures !(RepairAt(s, i) <= s[i..])
  {
    if Utf8ToCodepoint(s, i).0 == REPLACEMENT_CHARACTER {
      IllFormedReplaced(s, i);
    } else if s[i] as int < 0xE0 {
      IllFormedTwo(s, i);
    } else if s[i] as int < 0xF0 {
      IllFormedThree(s, i);
    } else {
      IllFormedFour(s, i);
    }
  }

  lemma CancelPrefix(s: string, i: nat, n: nat, rest: string)
    requires i + n <= |s|
    ensures s[i..i + n] + rest == s[i..] <==> rest == s[i + n..]
  {
    assert s[i..] == s[i..i + n] + s[i + n..];
    assert (s[i..i + n] + rest)[n..] == rest && s[i..][n..] == s[i + n..];
  }

  lemma NotPrefixOfSum(t: string, rest: string, s: string)
    requires !(t <= s)
    ensures t + rest != s
  {
    assert t <= t + rest;
  }

  lemma {:induction false} RepairIsIdentityOnUtf8(s: string, i: nat)
    requires i <= |s|
    ensures RepairFrom(s, i) == s[i..] <==> ValidUtf8From(s, i)
    decreases |s| - i
  {
    hide EscapeAt, RepairAt, Utf8Length;
    if i < |s| {
      var n := Utf8Length(s, i);
      var rest := RepairFrom(s, EscapeAt(s, i, false).1);
      assert RepairFrom(s, i) == RepairAt(s, i) + rest;
      if n == 0 {
        IllFormedUnit(s, i);
        NotPrefixOfSum(RepairAt(s, i), rest, s[i..]);
      } else {
        WellFormedUnit(s, i);
        RepairIsIdentityOnUtf8(s, i + n);
        CancelPrefix(s, i, n, rest);
      }
    }
  }

  // ---------------------------------------------------------------- the quoted form is one token

  lemma {:induction false} ScanOver(doc: string, p: nat, t: string)
    requires At(doc, p, t) && forall k :: 0 <= k < |t| ==> t[k] != '\\' && t[k] != '\"'
    ensures ScanString(doc, p, '\"') == ScanString(doc, p + |t|, '\"')
    decreases |t|
  {
    if t != "" {
      AtChar(doc, p, t, 0);
      assert t == t[..1] + t[1..];
      AtSplit(doc, p, t[..1], t[1..]);
      ScanOver(doc, p + 1, t[1..]);
    }
  }

  lemma ScanUnicodeEscape(doc: string, p: nat, x: nat)
    requires At(doc, p, "\\u" + ToHex16(x))
    ensures ScanString(doc, p, '\"') == ScanString(doc, p + 6, '\"')
  {
    AtSplit(doc, p, "\\u", ToHex16(x));
    AtChar(doc, p, "\\u", 0);
    HexRoundTrip(x / 4096 % 16);
    HexRoundTrip(x / 256 % 16);
    HexRoundTrip(x / 16 % 16);
    HexRoundTrip(x % 16);
    ScanOver(doc, p + 2, ToHex16(x));
  }

  lemma ScanCodepoint(doc: string, p: nat, cp: nat)
    requires cp != '\"' as int && cp != '\\' as int && At(doc, p, EscapeCodepoint(cp))
    ensures ScanString(doc, p, '\"') == ScanString(doc, p + |EscapeCodepoint(cp)|, '\"')
  {
    if 0x20 <= cp <= 0x7F {
      AtChar(doc, p, EscapeCodepoint(cp), 0);
    } else if cp < 0x10000 {
      ScanUnicodeEscape(doc, p, cp);
    } else {
      var hi, lo := (cp - 0x10000) / 1024 + 0xD800, (cp - 0x10000) % 1024 + 0xDC00;
      AtSplit(doc, p, "\\u" + ToHex16(hi), "\\u" + ToHex16(lo));
      ScanUnicodeEscape(doc, p, hi);
      ScanUnicodeEscape(doc, p + 6, lo);
    }
  }

  lemma ScanUnit(doc: string, p: nat, s: string, i: nat, emitUtf8: bool)
    requires i < |s| && At(doc, p, EscapeAt(s, i, emitUtf8).0)
    ensures ScanString(doc, p, '\"') == ScanString(doc, p + |EscapeAt(s, i, emitUtf8).0|, '\"')
  {
    var e := EscapeAt(s, i, emitUtf8).0;
    if ShortEscape(s[i]) != '\0' || emitUtf8 {
      AtChar(doc, p, e, 0);
    } else {
      CodepointOfUnit(s, i);
      ScanCodepoint(doc, p, Utf8ToCodepoint(s, i).0);
    }
  }

  lemma {:induction false} ScanQuoteFrom(doc: string, p: nat, s: string, i: nat, emitUtf8: bool)
    requires i <= |s| && At(doc, p, QuoteFrom(s, i, emitUtf8) + "\"")
    ensures ScanString(doc, p, '\"') == (true, p + |QuoteFrom(s, i, emitUtf8)| + 1)
    decreases |s| - i
  {
    hide EscapeAt;
    if i == |s| {
      AtChar(doc, p, "" + "\"", 0);
    } else {
      var (e, next) := EscapeAt(s, i, emitUtf8);
      assert QuoteFrom(s, i, emitUtf8) + "\"" == e + (QuoteFrom(s, next, emitUtf8) + "\"");
      AtSplit(doc, p, e, QuoteFrom(s, next, emitUtf8) + "\"");
      ScanUnit(doc, p, s, i, emitUtf8);
      ScanQuoteFrom(doc, p + |e|, s, next, emitUtf8);
    }
  }

  /** Whatever text follows, the quoted form is scanned to exactly its closing quote. */
  lemma QuoteIsOneToken(doc: string, p: nat, s: string, emitUtf8: bool)
    requires At(doc, p, Quote(s, emitUtf8))
    ensures doc[p] == '\"' && ScanString(doc, p + 1, '\"') == (true, p + |Quote(s, emitUtf8)|)
    ensures doc[p + 1..p + |Quote(s, emitUtf8)| - 1] == QuoteFrom(s, 0, emitUtf8)
  {
    hide QuoteFrom, ScanString, At;
    var q := QuoteFrom(s, 0, emitUtf8);
    assert Quote(s, emitUtf8) == "\"" + (q + "\"");
    AtSplit(doc, p, "\"", q + "\"");
    AtChar(doc, p, "\"", 0);
    ScanQuoteFrom(doc, p + 1, s, 0, emitUtf8);
    AtSplit(doc, p + 1, q, "\"");
  }

  /** Decoding the quoted form gives the bytes back: always with emitUTF8, else exactly for well-formed UTF-8. */
  lemma QuoteRoundTrip(s: string, emitUtf8: bool)
    ensures DecodeString(QuoteFrom(s, 0, emitUtf8)).Text?
    ensures DecodeString(QuoteFrom(s, 0, emitUtf8)) == Text(s) <==> emitUtf8 || ValidUtf8(s)
  {
    var body := QuoteFrom(s, 0, emitUtf8);
    assert body[0..|body|] == body;
    assert s[0..] == s;
    if emitUtf8 {
      EmittedQuoteDecodes(body, 0, s, 0);
    } else {
      QuoteDecodesToRepair(body, 0, s, 0);
      RepairIsIdentityOnUtf8(s, 0);
    }
  }

  // ---------------------------------------------------------------- the loops of the source

  /** Quote, backslash, control characters and everything beyond ASCII. */
  predicate NeedsQuoting(c: char) { c == '\\' || c == '\"' || !(0x20 <= c as int < 0x80) }

  /** A byte needs quoting exactly if escaping it changes it. */
  lemma QuotingChanges(c: char)
    requires c as int < 0x100
    ensures NeedsQuoting(c) <==> EscapeAt([c], 0, false).0 != [c]
  {
    var cp := Utf8ToCodepoint([c], 0).0;
    assert cp == c as int || cp == REPLACEMENT_CHARACTER;
    assert |EscapeCodepoint(cp)| > 1 || EscapeCodepoint(cp) == [cp as char];
  }

  method IsAnyCharRequiredQuoting(s: string) returns (r: bool)
    ensures r <==> exists k :: 0 <= k < |s| && NeedsQuoting(s[k])
  {
    for k := 0 to |s|
      invariant forall j :: 0 <= j < k ==> !NeedsQuoting(s[j])
    {
      if s[k] == '\\' || s[k] == '\"' || s[k] as int < 0x20 || s[k] as int >= 0x80 {
        assert NeedsQuoting(s[k]);
        return true;
      }
    }
    return false;
  }

  lemma {:induction false} PlainTextUnchanged(s: string, i: nat, emitUtf8: bool)
    requires i <= |s| && forall k :: 0 <= k < |s| ==> !NeedsQuoting(s[k])
    ensures QuoteFrom(s, i, emitUtf8) == s[i..]
    decreases |s| - i
  {
    if i < |s| {
      assert EscapeAt(s, i, emitUtf8) == ([s[i]], i + 1);
      PlainTextUnchanged(s, i + 1, emitUtf8);
      assert s[i..] == [s[i]] + s[i + 1..];
    }
  }

  /** One round of the escaping loop, from the character at c. */
  method EscapeStep(value: string, c: nat, emitUtf8: bool) returns (text: string, next: nat)
    requires c < |value|
    ensures (text, next) == EscapeAt(value, c, emitUtf8)
  {
    var short := ShortEscape(value[c]);
    if short != '\0' {
      return ['\\', short], c + 1;
    }
    if emitUtf8 {
      return [value[c]], c + 1;
    }
    var (codepoint, last) := Utf8ToCodepoint(value, c);
    next := last + 1;
    if 0x20 <= codepoint <= 0x7F {
      text := [codepoint as char];
    } else if codepoint < 0x10000 {
      text := "\\u" + ToHex16(codepoint);
    } else {
      codepoint := codepoint - 0x10000;
      text := "\\u" + ToHex16(codepoint / 1024 + 0xD800);
      text := text + ("\\u" + ToHex16(codepoint % 1024 + 0xDC00));
    }
  }

  /** valueToQuotedStringN, with its short cut for plain text. */
  method ValueToQuotedStringN(value: string, emitUtf8: bool) returns (result: string)
    ensures result == Quote(value, emitUtf8)
  {
    var required := IsAnyCharRequiredQuoting(value);
    if !required {
      PlainTextUnchanged(value, 0, emitUtf8);
      assert value[0..] == value;
      return "\"" + value + "\"";
    }
    hide EscapeAt;
    var body := "";
    var c := 0;
    while c != |value|
      invariant 0 <= c <= |value|
      invariant body + QuoteFrom(value, c, emitUtf8) == QuoteFrom(value, 0, emitUtf8)
    {
      ghost var before := body;
      var text, next := EscapeStep(value, c, emitUtf8);
      body := body + text;
      assert before + (text + QuoteFrom(value, next, emitUtf8)) == body + QuoteFrom(value, next, emitUtf8);
      c := next;
    }
    assert body + "" == body;
    result := "\"" + body + "\"";
  }

  /** decodeUnicodeEscapeSequence. */
  method DecodeUnicodeEscapeSequence(body: string, i: nat) returns (r: Escape16)
    requires i <= |body|
    ensures r == DecodeHex4(body, i)
  {
    if |body| - i < 4 {
      return BadCode(FOUR_DIGITS);
    }
    var unicode := 0;
    ghost var (a, b, c, d) := (HexValue(body[i]), HexValue(body[i + 1]), HexValue(body[i + 2]), HexValue(body[i + 3]));
    for index := 0 to 4
      invariant (index > 0 ==> a >= 0) && (index > 1 ==> b >= 0) && (index > 2 ==> c >= 0) && (index > 3 ==> d >= 0)
      invariant unicode == match index case 0 => 0 case 1 => a case 2 => a * 16 + b case 3 => a * 256 + b * 16 + c
                                            case _ => a * 4096 + b * 256 + c * 16 + d
    {
      var digit := HexValue(body[i + index]);
      if digit < 0 {
        return BadCode(HEX_EXPECTED);
      }
      unicode := unicode * 16 + digit;
    }
    return Code(unicode);
  }

  /** decodeUnicodeCodePoint: also the position after what it used. */
  method DecodeUnicodeCodePoint(body: string, i: nat) returns (code: Escape16, current: nat)
    requires i <= |body|
    ensures code == DecodeCodePoint(body, i).0 && (code.Code? ==> current == DecodeCodePoint(body, i).1)
  {
    current := i;
    code := DecodeUnicodeEscapeSequence(body, current);
    if code.BadCode? {
      return;
    }
    current := current + 4;
    var unicode := code.code;
    if 0xD800 <= unicode <= 0xDBFF {
      if |body| - current < 6 {
        return BadCode(SIX_EXPECTED), current;
      }
      if body[current] != '\\' || body[current + 1] != 'u' {
        return BadCode(SECOND_HALF), current;
      }
      code := DecodeUnicodeEscapeSequence(body, current + 2);
      if code.BadCode? {
        return;
      }
      current := current + 6;
      code := Code(0x10000 + unicode % 1024 * 1024 + code.code % 1024);
    }
  }

  /** The loop of decodeString over the characters between the quotes. */
  method DecodeStringLoop(body: string) returns (r: Decoded)
    ensures r == DecodeString(body)
  {
    var decoded := "";
    var current := 0;
    while current != |body|
      invariant 0 <= current <= |body|
      invariant Prepend(decoded, DecodeFrom(body, current)) == DecodeString(body)
      decreases |body| - current
    {
      ghost var start, before := current, decoded;
      var c := body[current];
      current := current + 1;
      if c == '\"' {
        assert decoded + "" == decoded;
        return Text(decoded);
      }
      if c == '\\' {
        if current == |body| {
          return Bad(EMPTY_ESCAPE);
        }
        var escape := body[current];
        current := current + 1;
        if escape == 'u' {
          var code;
          code, current := DecodeUnicodeCodePoint(body, current);
          if code.BadCode? {
            return Bad(code.message);
          }
          decoded := decoded + CodePointToUtf8(code.code);
        } else if Unescape(escape) == '\0' {
          return Bad(BAD_ESCAPE);
        } else {
          decoded := decoded + [Unescape(escape)];
        }
      } else {
        decoded := decoded + [c];
      }
      PrependTwice(before, decoded[|before|..], DecodeFrom(body, current));
    }
    assert decoded + "" == decoded;
    return Text(decoded);
  }
}
