/**
 The layout of printed values: which arrays stand on one line, and where the other lines begin.
 */
module JsonLayout {
  import opened JsonString
  import opened JsonNumber
  import opened JsonValue
  import opened JsonWriter

  // ---------------------------------------------------------------- arrays on one line

  predicate NoneOpens(items: seq<Json>) { forall j :: 0 <= j < |items| ==> !Opens(items[j]) }

  function Widths(st: Style, items: seq<Json>, k: nat): nat
    requires k <= |items| && NoneOpens(items)
  {
    if k == 0 then 0 else Widths(st, items, k - 1) + |AtomText(st, items[k - 1])|
  }

  /** The width of an array of these items on one line, brackets and spaces included. */
  function RowWidth(st: Style, items: seq<Json>): nat
    requires NoneOpens(items) && items != []
  {
    4 + 2 * (|items| - 1) + Widths(st, items, |items|)
  }

  lemma {:induction false} LengthCounts(st: Style, items: seq<Json>, k: nat)
    requires k <= |items| && items != [] && NoneOpens(items)
    ensures LineLength(st, items, k) == (4 + 2 * (|items| - 1) + Widths(st, items, k)) % 0x1_0000_0000
  {
    hide AtomText;
    if k > 0 {
      LengthCounts(st, items, k - 1);
      ModuloAdds(4 + 2 * (|items| - 1) + Widths(st, items, k - 1), |AtomText(st, items[k - 1])|);
    }
  }

  lemma ModuloAdds(x: nat, y: nat)
    ensures (x % 0x1_0000_0000 + y) % 0x1_0000_0000 == (x + y) % 0x1_0000_0000
  {
  }

  /**
   An array gets a line of its own for each item if comments are written, an item opens a bracket, there are 25 items or
   more, or it would be 74 characters wide or more; all of this counted in 32 bits.
   */
  lemma OneLineExactly(st: Style, items: seq<Json>)
    requires items != []
    ensures !IsMultiLine(st, items) <==>
              && st.comments.NoComments? && NoneOpens(items)
              && 3 * |items| % 0x1_0000_0000 < 74 && RowWidth(st, items) % 0x1_0000_0000 < 74
  {
    hide LineLength, AtomText;
    if NoneOpens(items) {
      LengthCounts(st, items, |items|);
    }
  }

  lemma {:induction false} RowIsWide(st: Style, items: seq<Json>, k: nat)
    requires k < |items| && NoneOpens(items) && st.indentation != ""
    ensures |RowText(st, items, k)| == Widths(st, items, |items|) - Widths(st, items, k) + 2 * (|items| - 1 - k)
    decreases |items| - k
  {
    hide AtomText;
    if k + 1 < |items| {
      RowIsWide(st, items, k + 1);
    }
  }

  /** What stands on one line is as wide as was counted. */
  lemma OneLineIsWide(st: Style, items: seq<Json>, indent: string, settled: bool)
    requires items != [] && !IsMultiLine(st, items) && st.indentation != ""
    ensures NoneOpens(items) && |ValueText(st, Arr(items), indent, settled)| == RowWidth(st, items)
  {
    OneLineExactly(st, items);
    RowIsWide(st, items, 0);
    hide RowText, Widths, LineLength, AtomText;
  }

  // ---------------------------------------------------------------- the other lines

  /** Where a line ends, the next one starts with this indentation. */
  predicate Indented(t: string, indent: string) {
    forall k :: 0 <= k < |t| && t[k] == '\n' ==> k + 1 + |indent| <= |t| && t[k + 1..k + 1 + |indent|] == indent
  }

  function LinesOf(t: string): nat
    decreases |t|
  {
    if t == "" then 0 else (if t[0] == '\n' then 1 else 0) + LinesOf(t[1..])
  }

  lemma {:induction false} LinesJoin(a: string, b: string)
    ensures LinesOf(a + b) == LinesOf(a) + LinesOf(b)
    decreases |a|
  {
    if a == "" {
      assert a + b == b;
    } else {
      assert (a + b)[1..] == a[1..] + b;
      LinesJoin(a[1..], b);
    }
  }

  lemma {:induction false} NoLines(t: string)
    requires forall k :: 0 <= k < |t| ==> t[k] != '\n'
    ensures LinesOf(t) == 0
    decreases |t|
  {
    if t != "" {
      NoLines(t[1..]);
    }
  }

  predicate Plain(t: string) { forall k :: 0 <= k < |t| ==> t[k] != '\n' }

  lemma PlainHasNoLines(t: string, indent: string)
    requires Plain(t)
    ensures LinesOf(t) == 0 && Indented(t, indent)
  {
    NoLines(t);
  }

  lemma IndentedJoin(a: string, b: string, indent: string)
    requires Indented(a, indent) && Indented(b, indent)
    ensures Indented(a + b, indent)
  {
    forall k | 0 <= k < |a + b| && (a + b)[k] == '\n'
      ensures k + 1 + |indent| <= |a + b| && (a + b)[k + 1..k + 1 + |indent|] == indent
    {
      if k < |a| {
        assert (a + b)[k + 1..k + 1 + |indent|] == a[k + 1..k + 1 + |indent|];
      } else {
        var j := k - |a|;
        assert (a + b)[k + 1..k + 1 + |indent|] == b[j + 1..j + 1 + |indent|];
      }
    }
  }

  lemma DeeperIsIndented(t: string, indent: string, more: string)
    requires Indented(t, indent + more)
    ensures Indented(t, indent)
  {
    forall k | 0 <= k < |t| && t[k] == '\n'
      ensures k + 1 + |indent| <= |t| && t[k + 1..k + 1 + |indent|] == indent
    {
      var deep := t[k + 1..k + 1 + |indent + more|];
      assert t[k + 1..k + 1 + |indent|] == deep[..|indent|] == indent;
    }
  }

  /** Text with this many line breaks, each followed by the indentation. */
  predicate Laid(t: string, lines: nat, indent: string) { LinesOf(t) == lines && Indented(t, indent) }

  lemma LaidJoin(a: string, m: nat, b: string, n: nat, indent: string)
    requires Laid(a, m, indent) && Laid(b, n, indent)
    ensures Laid(a + b, m + n, indent)
  {
    LinesJoin(a, b);
    IndentedJoin(a, b, indent);
  }

  lemma BreakLaid(indent: string)
    requires Plain(indent)
    ensures Laid("\n" + indent, 1, indent)
  {
    var t := "\n" + indent;
    assert t[1..] == indent;
    NoLines(indent);
  }

  // ---------------------------------------------------------------- quoted strings have no line breaks

  lemma UnitIsPlain(s: string, i: nat, emitUtf8: bool)
    requires i < |s|
    ensures Plain(EscapeAt(s, i, emitUtf8).0)
  {
  }

  lemma {:induction false} QuotedIsPlain(s: string, i: nat, emitUtf8: bool)
    requires i <= |s|
    ensures Plain(QuoteFrom(s, i, emitUtf8))
    decreases |s| - i
  {
    hide EscapeAt;
    if i < |s| {
      UnitIsPlain(s, i, emitUtf8);
      QuotedIsPlain(s, EscapeAt(s, i, emitUtf8).1, emitUtf8);
    }
  }

  lemma {:induction false} DigitsArePlain(n: nat)
    ensures Plain(UIntText(n))
    decreases n
  {
    if n >= 10 {
      DigitsArePlain(n / 10);
    }
  }

  predicate PlainStyle(st: Style) {
    st.indentation != "" && Plain(st.indentation) && Plain(st.colonSymbol) && Plain(st.nullSymbol)
  }

  predicate NoReals(v: Json) {
    match v
    case Real(_) => false
    case Arr(items) => forall k :: 0 <= k < |items| ==> NoReals(items[k])
    case Obj(members) => forall k :: 0 <= k < |members| ==> NoReals(members[k].value)
    case _ => true
  }

  lemma AtomIsPlain(st: Style, v: Json)
    requires PlainStyle(st) && NoReals(v) && !Opens(v)
    ensures Plain(AtomText(st, v))
  {
    hide QuoteFrom, UIntText;
    match v
    case Int(i) => DigitsArePlain(if i < 0 then -i else i);
    case UInt(u) => DigitsArePlain(if u < 0 then -u else u);
    case Str(s) => QuotedIsPlain(s, 0, st.emitUtf8);
    case _ =>
  }

  lemma {:induction false} RowIsPlain(st: Style, items: seq<Json>, k: nat)
    requires k < |items| && NoneOpens(items) && PlainStyle(st) && NoReals(Arr(items))
    ensures Plain(RowText(st, items, k))
    decreases |items| - k
  {
    AtomIsPlain(st, items[k]);
    hide AtomText;
    if k + 1 < |items| {
      RowIsPlain(st, items, k + 1);
    }
  }

  // ---------------------------------------------------------------- how many lines a value takes

  /** The line breaks in a value: one before each item or member, one before the closing bracket, one to get settled. */
  function Breaks(st: Style, v: Json, settled: bool): nat
    decreases v, 0
  {
    if !Opens(v) || (v.Arr? && !IsMultiLine(st, v.items)) then 0
    else
      (if settled then 0 else 1) + 1 + if v.Arr? then ItemBreaks(st, v.items, 0) else MemberBreaks(st, v.members, 0)
  }

  function ItemBreaks(st: Style, items: seq<Json>, k: nat): nat
    requires k <= |items|
    decreases items, |items| - k
  {
    if k == |items| then 0 else 1 + Breaks(st, items[k], true) + ItemBreaks(st, items, k + 1)
  }

  function MemberBreaks(st: Style, members: seq<Member>, k: nat): nat
    requires k <= |members|
    decreases members, |members| - k
  {
    if k == |members| then 0 else 1 + Breaks(st, members[k].value, false) + MemberBreaks(st, members, k + 1)
  }

  lemma CommaLaid(indent: string)
    ensures Laid(",", 0, indent) && Laid("", 0, indent) && Laid("[", 0, indent) && Laid("{", 0, indent)
    ensures Laid("]", 0, indent) && Laid("}", 0, indent)
  {
    PlainHasNoLines(",", indent);
    PlainHasNoLines("", indent);
    PlainHasNoLines("[", indent);
    PlainHasNoLines("{", indent);
    PlainHasNoLines("]", indent);
    PlainHasNoLines("}", indent);
  }

  /** The layout of any value: as many line breaks as counted, each followed by the indentation of the value. */
  lemma {:induction false} ValueLaid(st: Style, v: Json, indent: string, settled: bool)
    requires PlainStyle(st) && NoReals(v) && Plain(indent)
    ensures Laid(ValueText(st, v, indent, settled), Breaks(st, v, settled), indent)
    decreases v, 0
  {
    var text := ValueText(st, v, indent, settled);
    if !Opens(v) {
      AtomIsPlain(st, v);
      PlainHasNoLines(text, indent);
    } else if v.Arr? && !IsMultiLine(st, v.items) {
      RowIsPlain(st, v.items, 0);
      hide RowText;
      PlainHasNoLines(text, indent);
    } else {
      var inner, lead := indent + st.indentation, if settled then "" else NewLine(st, indent);
      CommaLaid(indent);
      BreakLaid(indent);
      if v.Arr? {
        ItemsLaid(st, v.items, 0, inner);
        var body := ItemsText(st, v.items, 0, inner);
        hide *;
        DeeperLaid(body, ItemBreaks(st, v.items, 0), indent, st.indentation);
        BlockLaid(lead, if settled then 0 else 1, "[", body, ItemBreaks(st, v.items, 0), "\n" + indent, "]", indent);
      } else {
        MembersLaid(st, v.members, 0, inner);
        var body := MembersText(st, v.members, 0, inner);
        hide *;
        DeeperLaid(body, MemberBreaks(st, v.members, 0), indent, st.indentation);
        BlockLaid(lead, if settled then 0 else 1, "{", body, MemberBreaks(st, v.members, 0), "\n" + indent, "}",
                  indent);
      }
    }
  }

  lemma DeeperLaid(t: string, n: nat, indent: string, more: string)
    requires Laid(t, n, indent + more)
    ensures Laid(t, n, indent)
  {
    DeeperIsIndented(t, indent, more);
  }

  lemma BlockLaid(lead: string, m: nat, open: string, body: string, n: nat, line: string, close: string, indent: string)
    requires Laid(lead, m, indent) && Laid(open, 0, indent) && Laid(body, n, indent)
    requires Laid(line, 1, indent) && Laid(close, 0, indent)
    ensures Laid(lead + (open + body + (line + close)), m + 1 + n, indent)
  {
    hide Laid;
    LaidJoin(open, 0, body, n, indent);
    LaidJoin(line, 1, close, 0, indent);
    LaidJoin(open + body, n, line + close, 1, indent);
    LaidJoin(lead, m, open + body + (line + close), n + 1, indent);
  }

  lemma {:induction false} ItemsLaid(st: Style, items: seq<Json>, k: nat, indent: string)
    requires PlainStyle(st) && NoReals(Arr(items)) && Plain(indent) && k < |items|
    ensures Laid(ItemsText(st, items, k, indent), ItemBreaks(st, items, k), indent)
    decreases items, |items| - k
  {
    ValueLaid(st, items[k], indent, true);
    BreakLaid(indent);
    CommaLaid(indent);
    hide ValueText, Breaks, Laid;
    var (line, value) := ("\n" + indent, ValueText(st, items[k], indent, true));
    LaidJoin(line, 1, value, Breaks(st, items[k], true), indent);
    if k + 1 == |items| {
      LaidJoin(line + value, 1 + Breaks(st, items[k], true), "", 0, indent);
    } else {
      ItemsLaid(st, items, k + 1, indent);
      var later := ItemsText(st, items, k + 1, indent);
      LaidJoin(",", 0, later, ItemBreaks(st, items, k + 1), indent);
      LaidJoin(line + value, 1 + Breaks(st, items[k], true), "," + later, ItemBreaks(st, items, k + 1), indent);
    }
  }

  lemma {:induction false} MembersLaid(st: Style, members: seq<Member>, k: nat, indent: string)
    requires PlainStyle(st) && NoReals(Obj(members)) && Plain(indent) && k < |members|
    ensures Laid(MembersText(st, members, k, indent), MemberBreaks(st, members, k), indent)
    decreases members, |members| - k
  {
    var m := members[k];
    ValueLaid(st, m.value, indent, false);
    KeyLaid(st, m.name, indent);
    CommaLaid(indent);
    hide ValueText, Breaks, Laid, Quote;
    var key := NewLine(st, indent) + Quote(m.name, st.emitUtf8) + st.colonSymbol;
    var value := ValueText(st, m.value, indent, false);
    LaidJoin(key, 1, value, Breaks(st, m.value, false), indent);
    if k + 1 == |members| {
      LaidJoin(key + value, 1 + Breaks(st, m.value, false), "", 0, indent);
    } else {
      MembersLaid(st, members, k + 1, indent);
      var later := MembersText(st, members, k + 1, indent);
      LaidJoin(",", 0, later, MemberBreaks(st, members, k + 1), indent);
      LaidJoin(key + value, 1 + Breaks(st, m.value, false), "," + later, MemberBreaks(st, members, k + 1), indent);
    }
  }

  lemma KeyLaid(st: Style, name: string, indent: string)
    requires PlainStyle(st) && Plain(indent)
    ensures Laid(NewLine(st, indent) + Quote(name, st.emitUtf8) + st.colonSymbol, 1, indent)
  {
    QuotedIsPlain(name, 0, st.emitUtf8);
    hide QuoteFrom;
    BreakLaid(indent);
    PlainHasNoLines(Quote(name, st.emitUtf8), indent);
    PlainHasNoLines(st.colonSymbol, indent);
    LaidJoin(NewLine(st, indent), 1, Quote(name, st.emitUtf8), 0, indent);
    LaidJoin(NewLine(st, indent) + Quote(name, st.emitUtf8), 1, st.colonSymbol, 0, indent);
  }
}
