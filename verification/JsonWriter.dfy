/**
 BuiltStyledStreamWriter of libdtuconfigure/jsoncpp.cpp, for values without comments: the text it produces as a
 function of the value, and the writer with its indentation and child-value state.
 */
module JsonWriter {
  import opened JsonString
  import opened JsonNumber
  import opened JsonValue

  datatype CommentStyle = NoComments | AllComments

  datatype Style = Style(indentation: string, comments: CommentStyle, colonSymbol: string, nullSymbol: string,
      emitUtf8: bool)

  const RIGHT_MARGIN := 74

  predicate Opens(v: Json) { IsContainer(v) && !IsEmptyContainer(v) }

  /** The text of a value that is written in one piece. A real stands as the text printed for it. */
  function AtomText(st: Style, v: Json): string
    requires !Opens(v)
  {
    match v
    case Null => st.nullSymbol
    case Bool(b) => if b then "true" else "false"
    case Int(i) => IntText(i)
    case UInt(u) => IntText(u)
    case Real(digits) => digits
    case Str(s) => Quote(s, st.emitUtf8)
    case Arr(_) => "[]"
    case Obj(_) => "{}"
  }

  function NewLine(st: Style, indent: string): string { if st.indentation == "" then "" else "\n" + indent }

  function Comma(st: Style): string { if st.indentation == "" then "," else ", " }

  function Pad(st: Style): string { if st.indentation == "" then "" else " " }

  /** The width of the array on one line counting its first k items, in 32-bit arithmetic. */
  function LineLength(st: Style, items: seq<Json>, k: nat): nat
    requires k <= |items| && items != [] && forall j :: 0 <= j < |items| ==> !Opens(items[j])
    decreases k
  {
    if k == 0 then (4 + (|items| - 1) * 2) % 0x1_0000_0000
    else (LineLength(st, items, k - 1) + |AtomText(st, items[k - 1])|) % 0x1_0000_0000
  }

  /** isMultilineArray. */
  predicate IsWide(st: Style, items: seq<Json>)
    requires items != []
  {
    || |items| * 3 % 0x1_0000_0000 >= RIGHT_MARGIN
    || (exists j :: 0 <= j < |items| && Opens(items[j]))
    || LineLength(st, items, |items|) >= RIGHT_MARGIN
  }

  predicate IsMultiLine(st: Style, items: seq<Json>)
    requires items != []
  {
    st.comments.AllComments? || IsWide(st, items)
  }

  /** What writeValue writes at an indentation; settled says that the cursor already stands where the value goes. */
  function ValueText(st: Style, v: Json, indent: string, settled: bool): string
    decreases v, 0
  {
    if !Opens(v) then AtomText(st, v)
    else if v.Arr? && !IsMultiLine(st, v.items) then "[" + Pad(st) + RowText(st, v.items, 0) + (Pad(st) + "]")
    else
      (if settled then "" else NewLine(st, indent))
      + (if v.Arr? then "[" + ItemsText(st, v.items, 0, indent + st.indentation) + (NewLine(st, indent) + "]")
         else "{" + MembersText(st, v.members, 0, indent + st.indentation) + (NewLine(st, indent) + "}"))
  }

  /** The items of an array on one line. */
  function RowText(st: Style, items: seq<Json>, k: nat): string
    requires k < |items| && forall j :: 0 <= j < |items| ==> !Opens(items[j])
    decreases |items| - k
  {
    AtomText(st, items[k]) + if k + 1 == |items| then "" else Comma(st) + RowText(st, items, k + 1)
  }

  function ItemText(st: Style, v: Json, indent: string): string
    decreases v, 1
  {
    NewLine(st, indent) + ValueText(st, v, indent, true)
  }

  /** The items of an array from k on, one a line. */
  function ItemsText(st: Style, items: seq<Json>, k: nat, indent: string): string
    requires k < |items|
    decreases items, |items| - k
  {
    ItemText(st, items[k], indent) + if k + 1 == |items| then "" else "," + ItemsText(st, items, k + 1, indent)
  }

  function MemberText(st: Style, m: Member, indent: string): string
    decreases m
  {
    NewLine(st, indent) + Quote(m.name, st.emitUtf8) + st.colonSymbol + ValueText(st, m.value, indent, false)
  }

  function MembersText(st: Style, members: seq<Member>, k: nat, indent: string): string
    requires k < |members|
    decreases members, |members| - k
  {
    MemberText(st, members[k], indent) + if k + 1 == |members| then ""
        else "," + MembersText(st, members, k + 1, indent)
  }

  /** indented_ after writeValue. */
  predicate Settled(st: Style, v: Json, settled: bool) {
    if Opens(v) && (v.Obj? || IsMultiLine(st, v.items)) then false else settled
  }

  // ---------------------------------------------------------------- the writer, step by step

  lemma Append3(o: string, a: string, b: string, c: string)
    ensures o + a + b + c == o + (a + b + c) == o + (a + (b + c))
  {
  }

  lemma Append4(o: string, a: string, b: string, c: string, d: string)
    ensures o + a + b + c + d == o + (a + b + c + d) == o + (a + (b + c + d))
  {
  }

  /** What the loop over a one-line array has still to write before item k. */
  function RestOfRow(st: Style, items: seq<Json>, k: nat): string
    requires k <= |items| && forall j :: 0 <= j < |items| ==> !Opens(items[j])
  {
    if k == |items| then "" else (if k > 0 then Comma(st) else "") + RowText(st, items, k)
  }

  lemma RestOfRowStarts(st: Style, items: seq<Json>)
    requires items != [] && forall j :: 0 <= j < |items| ==> !Opens(items[j])
    ensures RestOfRow(st, items, 0) == RowText(st, items, 0)
  {
    assert "" + RowText(st, items, 0) == RowText(st, items, 0);
  }

  lemma RestOfRowStep(st: Style, items: seq<Json>, k: nat)
    requires k < |items| && forall j :: 0 <= j < |items| ==> !Opens(items[j])
    ensures RestOfRow(st, items, k)
         == (if k > 0 then Comma(st) else "") + (AtomText(st, items[k]) + RestOfRow(st, items, k + 1))
  {
    hide AtomText;
  }

  class BuiltStyledStreamWriter {
    const st: Style
    var out: string
    var childValues: seq<string>
    var indentString: string
    var addChildValues: bool
    var indented: bool

    ghost predicate Valid() reads this { st.comments.AllComments? ==> childValues == [] }

    constructor (st: Style)
      ensures Valid() && this.st == st && out == ""
    {
      this.st := st;
      out, childValues, indentString, addChildValues, indented := "", [], "", false, false;
    }

    method PushValue(value: string)
      requires addChildValues ==> st.comments.NoComments?
      modifies `out, `childValues
      ensures old(Valid()) ==> Valid()
      ensures if addChildValues then out == old(out) && childValues == old(childValues) + [value]
              else out == old(out) + value && childValues == old(childValues)
    {
      if addChildValues {
        childValues := childValues + [value];
      } else {
        out := out + value;
      }
    }

    method WriteIndent()
      modifies `out
      ensures out == old(out) + NewLine(st, indentString)
    {
      if st.indentation != "" {
        out := out + "\n" + indentString;
      }
    }

    method WriteWithIndent(value: string)
      modifies `out, `indented
      ensures out == old(out) + (if old(indented) then "" else NewLine(st, indentString)) + value && !indented
    {
      if !indented {
        WriteIndent();
      }
      out := out + value;
      indented := false;
    }

    method Indent()
      modifies `indentString
      ensures indentString == old(indentString) + st.indentation
    {
      indentString := indentString + st.indentation;
    }

    method Unindent()
      requires |indentString| >= |st.indentation|
      modifies `indentString
      ensures indentString == old(indentString)[..|old(indentString)| - |st.indentation|]
    {
      indentString := indentString[..|indentString| - |st.indentation|];
    }

    method WriteAtom(v: Json)
      requires !Opens(v) && (addChildValues ==> st.comments.NoComments?)
      modifies `out, `childValues
      ensures old(Valid()) ==> Valid()
      ensures if addChildValues then out == old(out) && childValues == old(childValues) + [AtomText(st, v)]
              else out == old(out) + AtomText(st, v) && childValues == old(childValues)
    {
      match v
      case Null => PushValue(st.nullSymbol);
      case Bool(b) => PushValue(if b then "true" else "false");
      case Int(i) => PushValue(IntText(i));
      case UInt(u) => PushValue(IntText(u));
      case Real(digits) => PushValue(digits);
      case Str(s) =>
        var quoted := ValueToQuotedStringN(s, st.emitUtf8);
        PushValue(quoted);
      case Arr(_) => PushValue("[]");
      case Obj(_) => PushValue("{}");
    }

    method WriteValue(v: Json)
      requires Valid() && !addChildValues
      modifies `out, `childValues, `indentString, `addChildValues, `indented
      ensures Valid() && !addChildValues && indentString == old(indentString)
      ensures out == old(out) + ValueText(st, v, old(indentString), old(indented))
      ensures indented == Settled(st, v, old(indented))
      decreases v, 1
    {
      hide AtomText, MembersText, ItemsText, RowText, LineLength;
      if !Opens(v) {
        WriteAtom(v);
      } else if v.Arr? {
        WriteArrayValue(v);
      } else {
        ghost var o, lead := out, if indented then "" else NewLine(st, indentString);
        ghost var body := MembersText(st, v.members, 0, indentString + st.indentation);
        ghost var end := NewLine(st, indentString) + "}";
        WriteWithIndent("{");
        WriteMembers(v.members);
        WriteWithIndent("}");
        Append3(o + lead + "{" + body, NewLine(st, indentString), "}", "");
        Append4(o, lead, "{", body, end);
      }
    }

    method WriteMembers(members: seq<Member>)
      requires Valid() && !addChildValues && !indented && members != []
      modifies `out, `childValues, `indentString, `addChildValues, `indented
      ensures Valid() && !addChildValues && !indented && indentString == old(indentString)
      ensures out == old(out) + MembersText(st, members, 0, old(indentString) + st.indentation)
      decreases members, 1
    {
      Indent();
      ghost var goal, inner := out + MembersText(st, members, 0, indentString), indentString;
      var it := 0;
      while true
        invariant Valid() && !addChildValues && !indented && indentString == inner && 0 <= it < |members|
        invariant out + MembersText(st, members, it, inner) == goal
        decreases |members| - it
      {
        ghost var before, text := out, MemberText(st, members[it], inner);
        WriteMember(members[it]);
        it := it + 1;
        if it == |members| {
          Append3(before, text, "", "");
          break;
        }
        out := out + ",";
        Append3(before, text, ",", MembersText(st, members, it, inner));
      }
      Unindent();
      assert (old(indentString) + st.indentation)[..|old(indentString)|] == old(indentString);
    }

    method WriteMember(m: Member)
      requires Valid() && !addChildValues && !indented
      modifies `out, `childValues, `indentString, `addChildValues, `indented
      ensures Valid() && !addChildValues && !indented && indentString == old(indentString)
      ensures out == old(out) + MemberText(st, m, indentString)
      decreases m
    {
      ghost var o := out;
      var name := ValueToQuotedStringN(m.name, st.emitUtf8);
      WriteWithIndent(name);
      out := out + st.colonSymbol;
      WriteValue(m.value);
      Append4(o, NewLine(st, indentString), name, st.colonSymbol, ValueText(st, m.value, indentString, false));
    }

    method WriteArrayValue(v: Json)
      requires v.Arr? && Opens(v) && Valid() && !addChildValues
      modifies `out, `childValues, `indentString, `addChildValues, `indented
      ensures Valid() && !addChildValues && indentString == old(indentString)
      ensures out == old(out) + ValueText(st, v, old(indentString), old(indented))
      ensures indented == Settled(st, v, old(indented))
      decreases v, 0
    {
      hide AtomText, MembersText, ItemsText, RowText, IsWide, NewLine, Pad;
      var isMultiLine := st.comments.AllComments?;
      if !isMultiLine {
        isMultiLine := IsMultilineArray(v.items);
      }
      if isMultiLine {
        ghost var o, lead := out, if indented then "" else NewLine(st, indentString);
        ghost var body := ItemsText(st, v.items, 0, indentString + st.indentation);
        ghost var end := NewLine(st, indentString) + "]";
        WriteWithIndent("[");
        WriteItems(v.items);
        WriteWithIndent("]");
        Append3(o + lead + "[" + body, NewLine(st, indentString), "]", "");
        Append4(o, lead, "[", body, end);
      } else {
        WriteRow(v.items);
      }
    }

    ghost predicate ChildValuesOf(items: seq<Json>)
      reads this
    {
      |childValues| == |items| && forall k :: 0 <= k < |items| ==>
        !Opens(items[k]) && childValues[k] == AtomText(st, items[k])
    }

    method IsMultilineArray(items: seq<Json>) returns (isMultiLine: bool)
      requires items != [] && st.comments.NoComments? && !addChildValues
      modifies `out, `childValues, `addChildValues
      ensures Valid() && !addChildValues && out == old(out)
      ensures isMultiLine == IsWide(st, items)
      ensures ChildValuesOf(items) || (isMultiLine && childValues == [])
    {
      hide AtomText;
      var size := |items|;
      isMultiLine := size * 3 % 0x1_0000_0000 >= RIGHT_MARGIN;
      childValues := [];
      var index := 0;
      while index < size && !isMultiLine
        invariant 0 <= index <= size
        invariant isMultiLine ==> IsWide(st, items)
        invariant !isMultiLine ==>
                    size * 3 % 0x1_0000_0000 < RIGHT_MARGIN && forall k :: 0 <= k < index ==> !Opens(items[k])
      {
        isMultiLine := Opens(items[index]);
        index := index + 1;
      }
      if !isMultiLine {
        addChildValues := true;
        var lineLength := (4 + (size - 1) * 2) % 0x1_0000_0000;
        for index := 0 to size
          invariant addChildValues && out == old(out)
          invariant |childValues| == index && forall k :: 0 <= k < index ==> childValues[k] == AtomText(st, items[k])
          invariant lineLength == LineLength(st, items, index)
        {
          WriteAtom(items[index]);
          lineLength := (lineLength + |childValues[index]|) % 0x1_0000_0000;
        }
        addChildValues := false;
        isMultiLine := lineLength >= RIGHT_MARGIN;
      }
    }

    method WriteItems(items: seq<Json>)
      requires Valid() && !addChildValues && !indented && items != []
      requires ChildValuesOf(items) || childValues == []
      modifies `out, `childValues, `indentString, `addChildValues, `indented
      ensures Valid() && !addChildValues && !indented && indentString == old(indentString)
      ensures out == old(out) + ItemsText(st, items, 0, old(indentString) + st.indentation)
      decreases items, 1
    {
      hide ItemText, ValueText, AtomText, MembersText, RowText, IsMultiLine;
      Indent();
      ghost var goal, inner := out + ItemsText(st, items, 0, indentString), indentString;
      var hasChildValue := childValues != [];
      var index := 0;
      while true
        invariant Valid() && !addChildValues && !indented && indentString == inner && 0 <= index < |items|
        invariant hasChildValue ==> ChildValuesOf(items)
        invariant out + ItemsText(st, items, index, inner) == goal
        decreases |items| - index
      {
        ghost var before, text := out, ItemText(st, items[index], inner);
        WriteItem(items, index, hasChildValue);
        index := index + 1;
        if index == |items| {
          Append3(before, text, "", "");
          break;
        }
        out := out + ",";
        Append3(before, text, ",", ItemsText(st, items, index, inner));
      }
      Unindent();
      assert (old(indentString) + st.indentation)[..|old(indentString)|] == old(indentString);
    }

    method WriteItem(items: seq<Json>, index: nat, hasChildValue: bool)
      requires Valid() && !addChildValues && !indented && index < |items|
      requires hasChildValue ==> ChildValuesOf(items)
      modifies `out, `childValues, `indentString, `addChildValues, `indented
      ensures Valid() && !addChildValues && !indented && indentString == old(indentString)
      ensures hasChildValue ==> ChildValuesOf(items)
      ensures out == old(out) + ItemText(st, items[index], indentString)
      decreases items, 0
    {
      ghost var o := out;
      if hasChildValue {
        WriteWithIndent(childValues[index]);
      } else {
        if !indented {
          WriteIndent();
        }
        indented := true;
        WriteValue(items[index]);
        indented := false;
      }
      Append3(o, NewLine(st, indentString), ValueText(st, items[index], indentString, true), "");
    }

    method WriteRow(items: seq<Json>)
      requires Valid() && items != [] && ChildValuesOf(items)
      modifies `out
      ensures Valid() && out == old(out) + ("[" + Pad(st) + RowText(st, items, 0) + (Pad(st) + "]"))
    {
      ghost var o := out;
      out := out + "[";
      out := out + if st.indentation != "" then " " else "";
      WriteRowItems(items);
      ghost var row := out;
      out := out + if st.indentation != "" then " " else "";
      out := out + "]";
      Append3(row, Pad(st), "]", "");
      Append4(o, "[", Pad(st), RowText(st, items, 0), Pad(st) + "]");
    }

    method WriteRowItems(items: seq<Json>)
      requires Valid() && items != [] && ChildValuesOf(items)
      modifies `out
      ensures Valid() && out == old(out) + RowText(st, items, 0)
    {
      hide AtomText, RowText;
      ghost var goal := out + RowText(st, items, 0);
      var index := 0;
      RestOfRowStarts(st, items);
      while index < |items|
        invariant 0 <= index <= |items| && Valid() && ChildValuesOf(items)
        invariant out + RestOfRow(st, items, index) == goal
      {
        ghost var before, lead := out, if index > 0 then Comma(st) else "";
        RestOfRowStep(st, items, index);
        out := out + if index == 0 then "" else if st.indentation != "" then ", " else ",";
        out := out + childValues[index];
        Append3(before, lead, childValues[index], RestOfRow(st, items, index + 1));
        index := index + 1;
      }
      assert out + "" == out;
    }

    /** write: appends the document to what the stream holds. */
    method Write(root: Json)
      requires Valid()
      modifies this
      ensures Valid() && out == old(out) + ValueText(st, root, "", true)
    {
      addChildValues := false;
      indented := true;
      indentString := "";
      WriteValue(root);
    }
  }
}
