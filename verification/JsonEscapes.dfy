/**
 What stands between the quotes of a string: the units of section 7 of RFC 8259, their text and their meaning.
 */
module JsonEscapes {
  import opened JsonReader
  import opened JsonString
  import opened JsonValue

  /** A character for itself, a two-character escape, a code in four hexadecimal digits, or two of these as a pair. */
  datatype Unit =
    | Plain(c: char)
    | Short(c: char)
    | Coded(code: nat, hex: string)
    | Paired(high: nat, highHex: string, low: nat, lowHex: string)

  predicate IsNibble(c: char, n: nat) { n < 16 && (c == "0123456789abcdef"[n] || c == "0123456789ABCDEF"[n]) }

  /** Four hexadecimal digits, the highest first, letters in either case. */
  predicate Spells(hex: string, code: nat) {
    && |hex| == 4 && code < 0x10000
    && IsNibble(hex[0], code / 0x1000) && IsNibble(hex[1], code / 0x100 % 16)
    && IsNibble(hex[2], code / 0x10 % 16) && IsNibble(hex[3], code % 16)
  }

  /** The first half of a pair stands alone nowhere; the second half is any code at all. */
  predicate IsUnit(u: Unit) {
    match u
    case Plain(c) => c != '\"' && c != '\\'
    case Short(c) => c in "\"\\/bfnrt"
    case Coded(code, hex) => Spells(hex, code) && !(0xD800 <= code < 0xDC00)
    case Paired(high, highHex, low, lowHex) => Spells(highHex, high) && Spells(lowHex, low) && 0xD800 <= high < 0xDC00
  }

  function UnitText(u: Unit): string {
    match u
    case Plain(c) => [c]
    case Short(c) => ['\\', c]
    case Coded(_, hex) => "\\u" + hex
    case Paired(_, highHex, _, lowHex) => "\\u" + highHex + ("\\u" + lowHex)
  }

  /** The character an escape stands for. */
  function Escaped(c: char): char {
    if c == 'b' then '\U{8}' else if c == 't' then '\U{9}' else if c == 'n' then '\U{a}'
    else if c == 'f' then '\U{c}' else if c == 'r' then '\U{d}' else c
  }

  /** The code point of two halves. */
  function Joined(high: nat, low: nat): nat {
    0x10000 + (if high < 0xD800 then 0 else high - 0xD800) * 0x400 + low % 0x400
  }

  function Meaning(u: Unit): string {
    match u
    case Plain(c) => [c]
    case Short(c) => [Escaped(c)]
    case Coded(code, _) => CodePointToUtf8(code)
    case Paired(high, _, low, _) => CodePointToUtf8(Joined(high, low))
  }

  function TextOf(us: seq<Unit>): string { if us == [] then "" else UnitText(us[0]) + TextOf(us[1..]) }

  function MeaningOf(us: seq<Unit>): string { if us == [] then "" else Meaning(us[0]) + MeaningOf(us[1..]) }

  predicate AreUnits(us: seq<Unit>) { forall k :: 0 <= k < |us| ==> IsUnit(us[k]) }

  // ---------------------------------------------------------------- UTF-8 by its table

  predicate Continues(c: char) { 0x80 <= c as int < 0xC0 }

  /** codePointToUTF8 follows the table of section 3 of RFC 3629. */
  lemma Utf8Table(cp: nat)
    ensures var t := CodePointToUtf8(cp);
            if cp < 0x80 then t == [cp as char]
            else if cp < 0x800 then
              && |t| == 2 && 0xC0 <= t[0] as int < 0xE0 && Continues(t[1])
              && cp == (t[0] as int - 0xC0) * 0x40 + (t[1] as int - 0x80)
            else if cp < 0x10000 then
              && |t| == 3 && 0xE0 <= t[0] as int < 0xF0 && Continues(t[1]) && Continues(t[2])
              && cp == (t[0] as int - 0xE0) * 0x1000 + (t[1] as int - 0x80) * 0x40 + (t[2] as int - 0x80)
            else if cp < 0x110000 then
              && |t| == 4 && 0xF0 <= t[0] as int < 0xF8 && Continues(t[1]) && Continues(t[2]) && Continues(t[3])
              && cp == (t[0] as int - 0xF0) * 0x40000 + (t[1] as int - 0x80) * 0x1000
                       + (t[2] as int - 0x80) * 0x40 + (t[3] as int - 0x80)
            else t == ""
  {
    Digits64(cp);
    LeadDigit(cp);
  }

  lemma LeadDigit(v: nat)
    ensures v < 0x800 ==> v / 0x40 % 0x20 == v / 0x40
    ensures v < 0x10000 ==> v / 0x1000 % 0x10 == v / 0x1000
    ensures v < 0x110000 ==> v / 0x40000 % 8 == v / 0x40000
  {
  }

  lemma Digits64(v: nat)
    ensures v == v / 0x40 * 0x40 + v % 0x40
    ensures v == v / 0x1000 * 0x1000 + v / 0x40 % 0x40 * 0x40 + v % 0x40
    ensures v == v / 0x40000 * 0x40000 + v / 0x1000 % 0x40 * 0x1000 + v / 0x40 % 0x40 * 0x40 + v % 0x40
  {
    var (x, y) := (v / 0x40, v / 0x1000);
    assert x / 0x40 == y && y / 0x40 == v / 0x40000;
    assert v == x * 0x40 + v % 0x40 && x == y * 0x40 + x % 0x40 && y == y / 0x40 * 0x40 + y % 0x40;
  }

  // ---------------------------------------------------------------- units are decoded one by one

  lemma NibbleValue(c: char, n: nat)
    requires IsNibble(c, n)
    ensures HexValue(c) == n
  {
  }

  lemma SpelledValues(hex: string, code: nat)
    requires Spells(hex, code)
    ensures HexValue(hex[0]) == code / 0x1000 % 16 && HexValue(hex[1]) == code / 0x100 % 16
    ensures HexValue(hex[2]) == code / 0x10 % 16 && HexValue(hex[3]) == code % 16
  {
    assert code / 0x1000 % 16 == code / 0x1000;
    hide HexValue, IsNibble;
    NibbleValue(hex[0], code / 0x1000);
    NibbleValue(hex[1], code / 0x100 % 16);
    NibbleValue(hex[2], code / 0x10 % 16);
    NibbleValue(hex[3], code % 16);
  }

  lemma SpelledCode(body: string, i: nat, hex: string, code: nat)
    requires At(body, i, hex) && Spells(hex, code)
    ensures DecodeHex4(body, i) == Code(code)
  {
    assert |hex| == 4 && code < 0x10000;
    hide Spells, HexValue;
    SpelledValues(hex, code);
    AtChar(body, i, hex, 0);
    AtChar(body, i, hex, 1);
    AtChar(body, i, hex, 2);
    AtChar(body, i, hex, 3);
    HexDigitsOf(code);
  }

  lemma CodedDecodes(body: string, i: nat, hex: string, code: nat)
    requires At(body, i, "\\u" + hex) && Spells(hex, code) && !(0xD800 <= code < 0xDC00)
    ensures DecodeFrom(body, i) == Prepend(CodePointToUtf8(code), DecodeFrom(body, i + 6))
  {
    hide Spells, DecodeFrom, DecodeHex4, CodePointToUtf8;
    AtSplit(body, i, "\\u", hex);
    SpelledCode(body, i + 2, hex, code);
    UnicodeStep(body, i);
  }

  lemma TwoCodes(body: string, i: nat, high: nat, low: nat)
    requires i + 10 <= |body| && body[i + 4] == '\\' && body[i + 5] == 'u'
    requires DecodeHex4(body, i) == Code(high) && DecodeHex4(body, i + 6) == Code(low) && 0xD800 <= high < 0xDC00
    ensures DecodeCodePoint(body, i) == (Code(Joined(high, low)), i + 10)
  {
    hide DecodeHex4;
  }

  lemma PairedCodePoint(body: string, i: nat, highHex: string, high: nat, lowHex: string, low: nat)
    requires At(body, i, highHex) && At(body, i + 4, "\\u") && At(body, i + 6, lowHex)
    requires Spells(highHex, high) && Spells(lowHex, low) && 0xD800 <= high < 0xDC00
    ensures DecodeCodePoint(body, i) == (Code(Joined(high, low)), i + 10)
  {
    hide *;
    AtFits(body, i + 6, lowHex);
    SpellsFour(lowHex, low);
    SpelledCode(body, i, highHex, high);
    SpelledCode(body, i + 6, lowHex, low);
    AtChar(body, i + 4, "\\u", 0);
    AtChar(body, i + 4, "\\u", 1);
    TwoCodes(body, i, high, low);
  }

  lemma PairedDecodes(body: string, i: nat, highHex: string, high: nat, lowHex: string, low: nat)
    requires At(body, i, "\\u" + highHex + ("\\u" + lowHex))
    requires Spells(highHex, high) && Spells(lowHex, low) && 0xD800 <= high < 0xDC00
    ensures DecodeFrom(body, i) == Prepend(CodePointToUtf8(Joined(high, low)), DecodeFrom(body, i + 12))
  {
    assert |"\\u" + highHex| == 6;
    hide *;
    AtSplit(body, i, "\\u" + highHex, "\\u" + lowHex);
    AtSplit(body, i, "\\u", highHex);
    AtSplit(body, i + 6, "\\u", lowHex);
    PairedCodePoint(body, i + 2, highHex, high, lowHex, low);
    UnicodeStep(body, i);
  }

  lemma AtFits(body: string, i: nat, t: string)
    requires At(body, i, t)
    ensures i + |t| <= |body|
  {
  }

  lemma UnescapesShort(c: char)
    requires c in "\"\\/bfnrt"
    ensures c != 'u' && Unescape(c) == Escaped(c) && Unescape(c) != '\0'
  {
  }

  lemma ShortDecodes(body: string, i: nat, c: char)
    requires At(body, i, ['\\', c]) && c in "\"\\/bfnrt"
    ensures DecodeFrom(body, i) == Prepend([Escaped(c)], DecodeFrom(body, i + 2))
  {
    AtFits(body, i, ['\\', c]);
    AtChar(body, i, ['\\', c], 0);
    AtChar(body, i, ['\\', c], 1);
    UnescapesShort(c);
    hide At, DecodeCodePoint, CodePointToUtf8, Unescape, Escaped;
  }

  lemma PlainDecodes(body: string, i: nat, c: char)
    requires At(body, i, [c]) && c != '\"' && c != '\\'
    ensures DecodeFrom(body, i) == Prepend([c], DecodeFrom(body, i + 1))
  {
    AtFits(body, i, [c]);
    AtChar(body, i, [c], 0);
    hide At, DecodeCodePoint, CodePointToUtf8;
  }

  lemma CharDecodes(body: string, i: nat, u: Unit)
    requires At(body, i, UnitText(u)) && IsUnit(u) && (u.Plain? || u.Short?)
    ensures i + |UnitText(u)| <= |body|
    ensures DecodeFrom(body, i) == Prepend(Meaning(u), DecodeFrom(body, i + |UnitText(u)|))
  {
    AtFits(body, i, UnitText(u));
    hide At, Spells, Prepend, DecodeFrom;
    match u
    case Plain(c) => PlainDecodes(body, i, c);
    case Short(c) => ShortDecodes(body, i, c);
  }

  lemma CodedUnitDecodes(body: string, i: nat, u: Unit)
    requires At(body, i, UnitText(u)) && IsUnit(u) && u.Coded?
    ensures i + |UnitText(u)| <= |body|
    ensures DecodeFrom(body, i) == Prepend(Meaning(u), DecodeFrom(body, i + |UnitText(u)|))
  {
    hide At, Spells, Prepend, DecodeFrom, CodePointToUtf8, Joined;
    AtFits(body, i, UnitText(u));
    SpellsFour(u.hex, u.code);
    CodedDecodes(body, i, u.hex, u.code);
  }

  lemma PairedUnitDecodes(body: string, i: nat, u: Unit)
    requires At(body, i, UnitText(u)) && IsUnit(u) && u.Paired?
    ensures i + |UnitText(u)| <= |body|
    ensures DecodeFrom(body, i) == Prepend(Meaning(u), DecodeFrom(body, i + |UnitText(u)|))
  {
    hide At, Spells, Prepend, DecodeFrom, CodePointToUtf8, Joined;
    AtFits(body, i, UnitText(u));
    SpellsFour(u.highHex, u.high);
    SpellsFour(u.lowHex, u.low);
    PairedDecodes(body, i, u.highHex, u.high, u.lowHex, u.low);
  }

  lemma UnitDecodes(body: string, i: nat, u: Unit)
    requires At(body, i, UnitText(u)) && IsUnit(u)
    ensures i + |UnitText(u)| <= |body|
    ensures DecodeFrom(body, i) == Prepend(Meaning(u), DecodeFrom(body, i + |UnitText(u)|))
  {
    hide *;
    if u.Coded? {
      CodedUnitDecodes(body, i, u);
    } else if u.Paired? {
      PairedUnitDecodes(body, i, u);
    } else {
      CharDecodes(body, i, u);
    }
  }

  lemma SpellsFour(hex: string, code: nat)
    requires Spells(hex, code)
    ensures |hex| == 4
  {
  }

  /** A sequence of units, up to the end or to a bare quote, decodes to their meanings. */
  lemma {:induction false} UnitsDecode(body: string, i: nat, us: seq<Unit>)
    requires At(body, i, TextOf(us)) && AreUnits(us)
    requires i + |TextOf(us)| == |body| || body[i + |TextOf(us)|] == '\"'
    ensures DecodeFrom(body, i) == Text(MeaningOf(us))
    decreases |us|
  {
    hide UnitText, Meaning, IsUnit;
    if us == [] {
      hide At;
    } else {
      AtSplit(body, i, UnitText(us[0]), TextOf(us[1..]));
      hide At, DecodeFrom;
      UnitDecodes(body, i, us[0]);
      UnitsDecode(body, i + |UnitText(us[0])|, us[1..]);
    }
  }

  // ---------------------------------------------------------------- what is decoded consists of units

  predicate IsHex(c: char) { '0' <= c <= '9' || 'a' <= c <= 'f' || 'A' <= c <= 'F' }

  predicate BadHex(body: string, i: nat, m: string) {
    if i + 4 > |body| then m == "Bad unicode escape sequence in string: four digits expected."
    else
      && !(IsHex(body[i]) && IsHex(body[i + 1]) && IsHex(body[i + 2]) && IsHex(body[i + 3]))
      && m == "Bad unicode escape sequence in string: hexadecimal digit expected."
  }

  /** What is wrong behind "\u" at i. */
  ghost predicate BadCodeAt(body: string, i: nat, m: string) {
    BadHex(body, i, m) || exists high :: LonelyHalf(body, i, high, m)
  }

  predicate LonelyHalf(body: string, i: nat, high: nat, m: string) {
    && i + 4 <= |body| && Spells(body[i..i + 4], high) && 0xD800 <= high < 0xDC00
    && if i + 10 > |body| then m == "additional six characters expected to parse unicode surrogate pair."
       else if body[i + 4] != '\\' || body[i + 5] != 'u' then
         m == "expecting another \\u token to begin the second half of a unicode surrogate pair"
       else BadHex(body, i + 6, m)
  }

  /** At i stands a backslash that begins no unit, for the reason m. */
  ghost predicate Breaks(body: string, i: nat, m: string) {
    && i < |body| && body[i] == '\\'
    && if i + 1 == |body| then m == "Empty escape sequence in string"
       else if body[i + 1] == 'u' then BadCodeAt(body, i + 2, m)
       else body[i + 1] !in "\"\\/bfnrt" && m == "Bad escape sequence in string"
  }

  lemma HexNibble(c: char)
    ensures HexValue(c) >= 0 <==> IsHex(c)
    ensures HexValue(c) < 16 && (IsHex(c) ==> IsNibble(c, HexValue(c)))
  {
  }

  lemma FourNibbles(a: nat, b: nat, c: nat, d: nat)
    requires a < 16 && b < 16 && c < 16 && d < 16
    ensures var v := a * 4096 + b * 256 + c * 16 + d;
            v < 0x10000 && v / 0x1000 == a && v / 0x100 % 16 == b && v / 0x10 % 16 == c && v % 16 == d
  {
    var v := a * 4096 + b * 256 + c * 16 + d;
    assert v / 0x10 == a * 256 + b * 16 + c && v / 0x100 == a * 16 + b;
  }

  lemma NibblesSpell(t: string, a: nat, b: nat, c: nat, d: nat)
    requires |t| == 4 && IsNibble(t[0], a) && IsNibble(t[1], b) && IsNibble(t[2], c) && IsNibble(t[3], d)
    ensures Spells(t, a * 4096 + b * 256 + c * 16 + d)
  {
    assert a < 16 && b < 16 && c < 16 && d < 16;
    FourNibbles(a, b, c, d);
    hide IsNibble;
  }

  lemma SpelledNibbles(t: string)
    requires |t| == 4 && IsHex(t[0]) && IsHex(t[1]) && IsHex(t[2]) && IsHex(t[3])
    ensures var v := HexValue(t[0]) * 4096 + HexValue(t[1]) * 256 + HexValue(t[2]) * 16 + HexValue(t[3]);
            v >= 0 && Spells(t, v)
  {
    hide *;
    HexNibble(t[0]);
    HexNibble(t[1]);
    HexNibble(t[2]);
    HexNibble(t[3]);
    NibblesSpell(t, HexValue(t[0]), HexValue(t[1]), HexValue(t[2]), HexValue(t[3]));
  }

  lemma HexIsSpelled(body: string, i: nat)
    requires i <= |body|
    ensures match DecodeHex4(body, i)
            case Code(v) => i + 4 <= |body| && Spells(body[i..i + 4], v)
            case BadCode(m) => BadHex(body, i, m)
  {
    hide HexValue, IsHex, Spells;
    if i + 4 <= |body| {
      HexNibble(body[i]);
      HexNibble(body[i + 1]);
      HexNibble(body[i + 2]);
      HexNibble(body[i + 3]);
      if DecodeHex4(body, i).Code? {
        SpelledNibbles(body[i..i + 4]);
      }
    }
  }

  predicate TwoHalves(body: string, i: nat, high: nat, low: nat) {
    && i + 10 <= |body| && body[i + 4] == '\\' && body[i + 5] == 'u'
    && Spells(body[i..i + 4], high) && Spells(body[i + 6..i + 10], low) && 0xD800 <= high < 0xDC00
  }

  predicate OneCode(body: string, i: nat, code: nat) {
    i + 4 <= |body| && Spells(body[i..i + 4], code) && !(0xD800 <= code < 0xDC00)
  }

  /** What decodeUnicodeCodePoint does at i: a code alone, a pair, or a fault. */
  lemma CodePointCases(body: string, i: nat) returns (high: nat, low: nat)
    requires i <= |body|
    ensures match DecodeCodePoint(body, i).0
            case BadCode(m) => BadCodeAt(body, i, m)
            case Code(v) => OneCode(body, i, v) || TwoHalves(body, i, high, low)
  {
    HexIsSpelled(body, i);
    hide Spells, DecodeHex4, BadHex;
    high, low := 0, 0;
    var first := DecodeHex4(body, i);
    if first.Code? && 0xD800 <= first.code < 0xDC00 {
      high := first.code;
      if i + 10 <= |body| && body[i + 4] == '\\' && body[i + 5] == 'u' {
        HexIsSpelled(body, i + 6);
        var second := DecodeHex4(body, i + 6);
        if second.Code? {
          low := second.code;
        } else {
          assert LonelyHalf(body, i, high, second.message);
        }
      } else {
        assert LonelyHalf(body, i, high, DecodeCodePoint(body, i).0.message);
      }
    }
  }

  /** Where decoding goes on, a unit stands; where it fails, a fault. */
  lemma FirstUnit(body: string, i: nat) returns (u: Unit)
    requires i < |body| && body[i] != '\"'
    ensures (IsUnit(u) && At(body, i, UnitText(u)))
            || (DecodeFrom(body, i).Bad? && Breaks(body, i, DecodeFrom(body, i).message))
  {
    u := Plain(body[i]);
    if body[i] == '\\' {
      if i + 1 < |body| && body[i + 1] == 'u' {
        u := CodeUnit(body, i);
      } else if i + 1 < |body| {
        u := Short(body[i + 1]);
      }
    }
  }

  lemma CodeFails(body: string, i: nat, m: string)
    requires i + 1 < |body| && body[i] == '\\' && body[i + 1] == 'u'
    requires DecodeCodePoint(body, i + 2).0 == BadCode(m) && BadCodeAt(body, i + 2, m)
    ensures DecodeFrom(body, i) == Bad(m) && Breaks(body, i, m)
  {
    hide DecodeCodePoint, BadCodeAt;
  }

  lemma CodeUnit(body: string, i: nat) returns (u: Unit)
    requires i + 1 < |body| && body[i] == '\\' && body[i + 1] == 'u'
    ensures (IsUnit(u) && At(body, i, UnitText(u)))
            || (DecodeFrom(body, i).Bad? && Breaks(body, i, DecodeFrom(body, i).message))
  {
    hide Spells, DecodeCodePoint, BadCodeAt, DecodeFrom, Breaks;
    u := Plain('u');
    var high, low := CodePointCases(body, i + 2);
    match DecodeCodePoint(body, i + 2).0
    case BadCode(m) => CodeFails(body, i, m);
    case Code(v) =>
      if OneCode(body, i + 2, v) {
        u := Coded(v, body[i + 2..i + 6]);
        assert body[i..i + 6] == "\\u" + body[i + 2..i + 6];
      } else {
        u := Paired(high, body[i + 2..i + 6], low, body[i + 8..i + 12]);
        assert body[i..i + 12] == "\\u" + body[i + 2..i + 6] + ("\\u" + body[i + 8..i + 12]);
      }
  }

  /** Every body is units up to its end, to a bare quote or to the fault that is reported. */
  lemma {:induction false} DecodedUnits(body: string, i: nat) returns (us: seq<Unit>)
    requires i <= |body|
    ensures Decoded(body, i, us)
    decreases |body| - i
  {
    us := [];
    if i == |body| || body[i] == '\"' {
      NoUnits(body, i);
    } else {
      hide *;
      var u := FirstUnit(body, i);
      if IsUnit(u) && At(body, i, UnitText(u)) {
        NotEmpty(u);
        AtFits(body, i, UnitText(u));
        var later := DecodedUnits(body, i + |UnitText(u)|);
        us := [u] + later;
        OneMoreUnit(body, i, u, later);
      } else {
        FailsAtOnce(body, i);
      }
    }
  }

  /** The units us stand at i; what decodeString makes of the body from i on is their meaning, or it breaks there. */
  ghost predicate Decoded(body: string, i: nat, us: seq<Unit>)
    requires i <= |body|
  {
    && AreUnits(us) && At(body, i, TextOf(us))
    && var j := i + |TextOf(us)|;
       match DecodeFrom(body, i)
       case Text(t) => t == MeaningOf(us) && (j == |body| || body[j] == '\"')
       case Bad(m) => Breaks(body, j, m)
  }

  lemma NoUnits(body: string, i: nat)
    requires i <= |body| && (i == |body| || body[i] == '\"')
    ensures Decoded(body, i, [])
  {
  }

  lemma FailsAtOnce(body: string, i: nat)
    requires i <= |body| && DecodeFrom(body, i).Bad? && Breaks(body, i, DecodeFrom(body, i).message)
    ensures Decoded(body, i, [])
  {
    hide DecodeFrom, Breaks;
  }

  lemma UnitBefore(u: Unit, later: seq<Unit>)
    requires IsUnit(u) && AreUnits(later)
    ensures var us := [u] + later;
            AreUnits(us) && TextOf(us) == UnitText(u) + TextOf(later) && MeaningOf(us) == Meaning(u) + MeaningOf(later)
  {
    hide IsUnit, UnitText, Meaning;
    assert ([u] + later)[1..] == later;
  }

  lemma OneMoreUnit(body: string, i: nat, u: Unit, later: seq<Unit>)
    requires IsUnit(u) && At(body, i, UnitText(u))
    requires i + |UnitText(u)| <= |body| && Decoded(body, i + |UnitText(u)|, later)
    ensures Decoded(body, i, [u] + later)
  {
    hide IsUnit, Breaks, DecodeFrom, At, UnitText, Meaning, TextOf, MeaningOf, AreUnits;
    UnitDecodes(body, i, u);
    AtJoin(body, i, UnitText(u), TextOf(later));
    UnitBefore(u, later);
  }

  lemma NotEmpty(u: Unit)
    ensures UnitText(u) != ""
  {
  }

  // ---------------------------------------------------------------- a string token

  lemma HexIsPlain(doc: string, p: nat, hex: string, code: nat)
    requires At(doc, p, "\\u" + hex) && Spells(hex, code)
    ensures p + 6 <= |doc| && ScanString(doc, p, '\"') == ScanString(doc, p + 6, '\"')
  {
    AtFits(doc, p, "\\u" + hex);
    AtSplit(doc, p, "\\u", hex);
    AtChar(doc, p, "\\u", 0);
    hide At;
    ScanOver(doc, p + 2, hex);
  }

  lemma PairIsPlain(doc: string, p: nat, highHex: string, high: nat, lowHex: string, low: nat)
    requires At(doc, p, "\\u" + highHex + ("\\u" + lowHex)) && Spells(highHex, high) && Spells(lowHex, low)
    ensures p + 12 <= |doc| && ScanString(doc, p, '\"') == ScanString(doc, p + 12, '\"')
  {
    SpellsFour(highHex, high);
    assert |"\\u" + highHex| == 6;
    hide *;
    AtSplit(doc, p, "\\u" + highHex, "\\u" + lowHex);
    HexIsPlain(doc, p, highHex, high);
    HexIsPlain(doc, p + 6, lowHex, low);
  }

  lemma CharScanned(doc: string, p: nat, u: Unit)
    requires At(doc, p, UnitText(u)) && IsUnit(u) && (u.Plain? || u.Short?)
    ensures p + |UnitText(u)| <= |doc| && ScanString(doc, p, '\"') == ScanString(doc, p + |UnitText(u)|, '\"')
  {
    AtFits(doc, p, UnitText(u));
    AtChar(doc, p, UnitText(u), 0);
    hide At, Spells;
  }

  lemma CodesScanned(doc: string, p: nat, u: Unit)
    requires At(doc, p, UnitText(u)) && IsUnit(u) && (u.Coded? || u.Paired?)
    ensures p + |UnitText(u)| <= |doc| && ScanString(doc, p, '\"') == ScanString(doc, p + |UnitText(u)|, '\"')
  {
    hide At, Spells, ScanString;
    match u
    case Coded(code, hex) => SpellsFour(hex, code); HexIsPlain(doc, p, hex, code);
    case Paired(high, highHex, low, lowHex) =>
      SpellsFour(highHex, high);
      SpellsFour(lowHex, low);
      PairIsPlain(doc, p, highHex, high, lowHex, low);
  }

  lemma UnitScanned(doc: string, p: nat, u: Unit)
    requires At(doc, p, UnitText(u)) && IsUnit(u)
    ensures p + |UnitText(u)| <= |doc| && ScanString(doc, p, '\"') == ScanString(doc, p + |UnitText(u)|, '\"')
  {
    hide *;
    if u.Plain? || u.Short? {
      CharScanned(doc, p, u);
    } else {
      CodesScanned(doc, p, u);
    }
  }

  lemma TextSplits(us: seq<Unit>)
    requires us != [] && AreUnits(us)
    ensures TextOf(us) + "\"" == UnitText(us[0]) + (TextOf(us[1..]) + "\"")
    ensures |TextOf(us)| == |UnitText(us[0])| + |TextOf(us[1..])| && IsUnit(us[0]) && AreUnits(us[1..])
  {
    hide UnitText, IsUnit;
  }

  lemma QuoteEnds(doc: string, p: nat)
    requires At(doc, p, "" + "\"")
    ensures ScanString(doc, p, '\"') == (true, p + 1)
  {
    AtChar(doc, p, "" + "\"", 0);
  }

  lemma {:induction false} UnitsScanned(doc: string, p: nat, us: seq<Unit>)
    requires AreUnits(us) && At(doc, p, TextOf(us) + "\"")
    ensures ScanString(doc, p, '\"') == (true, p + |TextOf(us)| + 1)
    decreases |us|
  {
    hide At, UnitText, IsUnit, ScanString, AreUnits;
    if us == [] {
      QuoteEnds(doc, p);
    } else {
      hide TextOf;
      TextSplits(us);
      AtSplit(doc, p, UnitText(us[0]), TextOf(us[1..]) + "\"");
      UnitScanned(doc, p, us[0]);
      UnitsScanned(doc, p + |UnitText(us[0])|, us[1..]);
    }
  }

  lemma WholeBody(body: string, us: seq<Unit>)
    requires AreUnits(us) && body == TextOf(us)
    ensures DecodeString(body) == Text(MeaningOf(us))
  {
    assert body[0..|body|] == body;
    hide TextOf, MeaningOf, AreUnits, DecodeFrom;
    UnitsDecode(body, 0, us);
  }

  lemma StringValue(f: Features, doc: string, t: Token, held: Json, us: seq<Unit>)
    requires t.start + 2 <= t.end <= |doc| && t.kind.StringToken?
    requires AreUnits(us) && doc[t.start + 1..t.end - 1] == TextOf(us)
    ensures ScalarReading(f, doc, t, held) == Done(true, t.end, Str(MeaningOf(us)), [])
  {
    hide TextOf, MeaningOf, AreUnits, DecodeString;
    WholeBody(TokenBody(doc, t), us);
  }

  lemma QuotedAt(doc: string, p: nat, body: string)
    requires At(doc, p, "\"" + (body + "\""))
    ensures p + |body| + 2 <= |doc| && doc[p] == '\"'
    ensures doc[p + 1..p + 1 + |body|] == body && At(doc, p + 1, body + "\"")
  {
    AtChar(doc, p, "\"" + (body + "\""), 0);
    AtSplit(doc, p, "\"", body + "\"");
    AtSplit(doc, p + 1, body, "\"");
  }

  lemma StringStarts(f: Features, doc: string, p: nat, q: nat)
    requires p < |doc| && doc[p] == '\"' && ScanString(doc, p + 1, '\"') == (true, q)
    ensures ReadToken(f, doc, p) == Token(StringToken, p, q)
  {
    assert SkipSpaces(doc, p) == p;
  }

  /** Units in quotes are one token, whatever follows, and its value is their meaning. */
  lemma StringIsRead(f: Features, doc: string, p: nat, us: seq<Unit>, held: Json)
    requires AreUnits(us) && At(doc, p, "\"" + (TextOf(us) + "\""))
    ensures var t := Token(StringToken, p, p + |TextOf(us)| + 2);
            && t.end <= |doc| && ReadToken(f, doc, p) == t
            && ScalarReading(f, doc, t, held) == Done(true, t.end, Str(MeaningOf(us)), [])
  {
    hide *;
    QuotedAt(doc, p, TextOf(us));
    UnitsScanned(doc, p + 1, us);
    StringStarts(f, doc, p, p + |TextOf(us)| + 2);
    StringValue(f, doc, Token(StringToken, p, p + |TextOf(us)| + 2), held, us);
  }

  // ---------------------------------------------------------------- what the writer writes consists of units

  predicate IsLower(hex: string) { forall k :: 0 <= k < |hex| ==> '0' <= hex[k] <= '9' || 'a' <= hex[k] <= 'f' }

  /** Only ASCII unless emitUTF8 is set; a short escape where there is one; lower-case digits. */
  predicate IsWritten(u: Unit, emitUtf8: bool) {
    && IsUnit(u)
    && match u
       case Plain(c) => (emitUtf8 || 0x20 <= c as int <= 0x7F) && c as int !in {8, 9, 10, 12, 13}
       case Short(c) => c != '/'
       case Coded(code, hex) => !emitUtf8 && IsLower(hex) && (code < 0x20 || code > 0x7F) && code !in {8, 9, 10, 12, 13}
       case Paired(_, highHex, _, lowHex) => !emitUtf8 && IsLower(highHex) && IsLower(lowHex)
  }

  predicate AreWritten(us: seq<Unit>, emitUtf8: bool) { forall k :: 0 <= k < |us| ==> IsWritten(us[k], emitUtf8) }

  lemma DigitSpelled(n: nat)
    requires n < 16
    ensures IsNibble(HexDigit(n), n) && IsLower([HexDigit(n)])
  {
  }

  lemma FourSpelled(a: nat, b: nat, c: nat, d: nat)
    requires a < 16 && b < 16 && c < 16 && d < 16
    ensures var t := [HexDigit(a), HexDigit(b), HexDigit(c), HexDigit(d)];
            IsNibble(t[0], a) && IsNibble(t[1], b) && IsNibble(t[2], c) && IsNibble(t[3], d) && IsLower(t)
  {
    DigitSpelled(a);
    DigitSpelled(b);
    DigitSpelled(c);
    DigitSpelled(d);
    hide HexDigit, IsNibble;
    var t := [HexDigit(a), HexDigit(b), HexDigit(c), HexDigit(d)];
    assert t[0] == [HexDigit(a)][0] && t[1] == [HexDigit(b)][0] && t[2] == [HexDigit(c)][0] && t[3] == [HexDigit(d)][0];
  }

  lemma HexSpelled(code: nat)
    requires code < 0x10000
    ensures Spells(ToHex16(code), code) && IsLower(ToHex16(code))
  {
    FourSpelled(code / 4096 % 16, code / 256 % 16, code / 16 % 16, code % 16);
    hide HexDigit, IsNibble, IsLower;
    assert code / 4096 % 16 == code / 0x1000;
  }

  lemma OneText(u: Unit)
    ensures TextOf([u]) == UnitText(u)
  {
    hide UnitText;
    assert [u][1..] == [];
  }

  lemma TwoTexts(u: Unit, v: Unit)
    ensures TextOf([u, v]) == UnitText(u) + UnitText(v)
  {
    hide UnitText;
    OneText(v);
    assert [u, v][1..] == [v];
  }

  lemma WrittenCoded(code: nat)
    requires code < 0x10000 && !(0xD800 <= code < 0xDC00) && (code < 0x20 || code > 0x7F)
    requires code !in {8, 9, 10, 12, 13}
    ensures IsWritten(Coded(code, ToHex16(code)), false)
  {
    HexSpelled(code);
    hide Spells, ToHex16, IsLower;
  }

  lemma WrittenPair(high: nat, low: nat)
    requires 0xD800 <= high < 0xDC00 && low < 0x10000
    ensures IsWritten(Paired(high, ToHex16(high), low, ToHex16(low)), false)
  {
    HexSpelled(high);
    HexSpelled(low);
    hide Spells, ToHex16, IsLower;
  }

  lemma WrittenCode(cp: nat) returns (us: seq<Unit>)
    requires cp < 0x200000 && !(0xD800 <= cp <= 0xDFFF) && cp !in {8, 9, 10, 12, 13, 0x22, 0x5C}
    ensures TextOf(us) == EscapeCodepoint(cp) && AreWritten(us, false)
  {
    hide Spells, ToHex16, IsLower, TextOf;
    if 0x20 <= cp <= 0x7F {
      us := [Plain(cp as char)];
      OneText(us[0]);
    } else {
      hide IsWritten;
      if cp < 0x10000 {
        us := [Coded(cp, ToHex16(cp))];
        WrittenCoded(cp);
        OneText(us[0]);
      } else {
        var (high, low) := ((cp - 0x10000) / 1024 + 0xD800, (cp - 0x10000) % 1024 + 0xDC00);
        if high < 0xDC00 {
          us := [Paired(high, ToHex16(high), low, ToHex16(low))];
          WrittenPair(high, low);
          OneText(us[0]);
        } else {
          us := [Coded(high, ToHex16(high)), Coded(low, ToHex16(low))];
          WrittenCoded(high);
          WrittenCoded(low);
          TwoTexts(us[0], us[1]);
        }
      }
    }
  }

  lemma CodepointIsNoControl(s: string, i: nat)
    requires i < |s| && ShortEscape(s[i]) == '\0'
    ensures var cp := Utf8ToCodepoint(s, i).0;
            cp < 0x200000 && !(0xD800 <= cp <= 0xDFFF) && cp !in {8, 9, 10, 12, 13, 0x22, 0x5C}
  {
    CodepointOfUnit(s, i);
    var cp := Utf8ToCodepoint(s, i).0;
    assert cp == s[i] as int || cp >= 0x80;
  }

  lemma WrittenUnit(s: string, i: nat, emitUtf8: bool) returns (us: seq<Unit>)
    requires i < |s|
    ensures TextOf(us) == EscapeAt(s, i, emitUtf8).0 && AreWritten(us, emitUtf8)
  {
    hide Utf8ToCodepoint, EscapeCodepoint;
    if ShortEscape(s[i]) != '\0' {
      us := [Short(ShortEscape(s[i]))];
      OneText(us[0]);
    } else if emitUtf8 {
      us := [Plain(s[i])];
      OneText(us[0]);
    } else {
      CodepointIsNoControl(s, i);
      us := WrittenCode(Utf8ToCodepoint(s, i).0);
    }
  }

  lemma {:induction false} TextJoins(x: seq<Unit>, y: seq<Unit>)
    ensures TextOf(x + y) == TextOf(x) + TextOf(y)
    decreases |x|
  {
    hide UnitText;
    if x == [] {
      assert x + y == y;
    } else {
      assert (x + y)[1..] == x[1..] + y;
      TextJoins(x[1..], y);
    }
  }

  /** What valueToQuotedStringN writes between the quotes are units of these kinds. */
  lemma {:induction false} WrittenUnits(s: string, i: nat, emitUtf8: bool) returns (us: seq<Unit>)
    requires i <= |s|
    ensures TextOf(us) == QuoteFrom(s, i, emitUtf8) && AreWritten(us, emitUtf8)
    decreases |s| - i
  {
    hide IsWritten, EscapeAt;
    us := [];
    if i < |s| {
      var first := WrittenUnit(s, i, emitUtf8);
      var later := WrittenUnits(s, EscapeAt(s, i, emitUtf8).1, emitUtf8);
      us := first + later;
      TextJoins(first, later);
    }
  }
}
