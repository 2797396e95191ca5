/** Writing types and interface descriptions (lib/type.c, lib/interface.c), proved against the functions of `Idl`. */
module IdlWriter {
  import opened Text
  import opened Tokens
  import opened Idl
  import Json
  import JsonWriter
  import IdlReader

  /** Documentation, line by line. */
  method WriteDocstring(doc: string, indent: int) returns (out: string)
    ensures out == DocLines(doc, indent)
  {
    hide DocLines, DocLine, Json.Margin, LineEnd;
    out := "";
    var start := 0;
    assert doc[0..] == doc && "" + DocLines(doc, indent) == DocLines(doc, indent);
    while start < |doc|
      invariant start <= |doc| && out + DocLines(doc[start..], indent) == DocLines(doc, indent)
    {
      LineOut(doc, start, indent, out);
      var end := IdlReader.FindLineEnd(doc, start);
      var margin := JsonWriter.Indent(indent);
      out := out + margin + "#";
      if end > start {
        out := out + " " + doc[start..end];
      }
      out := out + "\n";
      if end == |doc| {
        return;
      }
      start := end + 1;
    }
    NoDoc(doc[start..], indent);
  }

  lemma NoDoc(doc: string, indent: int)
    requires doc == ""
    ensures DocLines(doc, indent) == ""
  {
  }

  lemma {:induction false} LineEndSuffix(s: string, start: nat, i: nat)
    requires start <= i <= |s|
    ensures LineEnd(s, i) == start + LineEnd(s[start..], i - start)
    decreases |s| - i
  {
    if At(s, i) != '\n' && At(s, i) != '\0' {
      LineEndSuffix(s, start, i + 1);
    }
  }

  lemma LineOut(doc: string, start: nat, indent: int, out: string)
    requires start < |doc|
    ensures
      var end := LineEnd(doc, start);
      out + DocLines(doc[start..], indent) ==
      out + Json.Margin(indent) + "#" + (if end > start then " " + doc[start..end] else "") + "\n"
      + (if end < |doc| then DocLines(doc[end+1..], indent) else "")
  {
    hide DocLines, Json.Margin, LineEnd;
    var s := doc[start..];
    var end := LineEnd(doc, start);
    LineEndSuffix(doc, start, start);
    LinesUnfold(s, indent);
    var e := LineEnd(s, 0);
    assert e + start == end;
    assert s[..e] == doc[start..end];
    assert e < |s| ==> s[e+1..] == doc[end+1..];
    Spread(out, Json.Margin(indent), if end > start then " " + doc[start..end]
      else "", if end < |doc| then DocLines(doc[end+1..], indent) else "");
  }

  lemma LinesUnfold(s: string, indent: int)
    requires s != ""
    ensures
      var e := LineEnd(s, 0);
      DocLines(s, indent) == Json.Margin(indent) + (("#" + (if e > 0 then " " + s[..e] else "")) + ("\n"
        + (if e < |s| then DocLines(s[e+1..], indent) else "")))
  {
    hide Json.Margin;
  }

  lemma Spread(out: string, margin: string, line: string, rest: string)
    ensures out + (margin + (("#" + line) + ("\n" + rest))) == out + margin + "#" + line + "\n" + rest
  {
  }

  /** Whether an object or enum takes several lines; its text in one line decides last. */
  method ChooseMultiline(ty: Type) returns (multiline: bool)
    requires ty.Record?
    ensures multiline == IsMultiline(ty)
    decreases ty, 2
  {
    hide PrintType;
    if |ty.fields| == 0 {
      return false;
    }
    if !ty.isEnum && |ty.fields| > 2 {
      return true;
    }
    for i := 0 to |ty.fields|
      invariant forall j :: 0 <= j < i ==>
        && ty.fields[j].doc.None?
        && !(!ty.isEnum && ty.fields[j].typ.Some? && ty.fields[j].typ.value.Record?)
    {
      var f := ty.fields[i];
      if f.doc.Some? {
        return true;
      }
      if !ty.isEnum && f.typ.Some? && f.typ.value.Record? {
        return true;
      }
    }
    var text := WriteType(ty, -1);
    multiline := |text| > 40;
  }

  method WriteType(ty: Type, indent: int) returns (out: string)
    ensures out == PrintType(ty, indent)
    decreases ty, if indent >= 0 then 3 else 1
  {
    hide PrintFields, IsMultiline;
    match ty {
      case Bool => out := "bool";
      case Int => out := "int";
      case Float => out := "float";
      case String => out := "string";
      case ForeignObject => out := "object";
      case Array(e) =>
        out := WriteType(e, indent);
        out := "[]" + out;
      case Map(e) =>
        out := WriteType(e, indent);
        out := "[string]" + out;
      case Maybe(e) =>
        out := WriteType(e, indent);
        out := "?" + out;
      case Alias(name) => out := name;
      case Record(isEnum, fields) =>
        var multiline := false;
        if indent >= 0 {
          multiline := ChooseMultiline(ty);
        }
        out := WriteFields(ty, indent, multiline);
        out := "(" + out;
    }
  }

  /** The fields with what is between them. */
  method WriteFields(ty: Type, indent: int, multiline: bool) returns (out: string)
    requires ty.Record?
    ensures out == PrintFields(ty.fields, ty.isEnum, indent, multiline, true, false)
    decreases ty, 0
  {
    hide PrintFields, PrintType, DocLines, Json.Margin, Json.Deeper, FieldTypeText, BeforeField, AfterField;
    var fields := ty.fields;
    ghost var whole := PrintFields(fields, ty.isEnum, indent, multiline, true, false);
    out := "";
    var docstringPrinted := false;
    assert fields[0..] == fields && "" + whole == whole;
    for i := 0 to |fields|
      invariant out + PrintFields(fields[i..], ty.isEnum, indent, multiline, i == 0, docstringPrinted) == whole
    {
      var f := fields[i];
      FieldOut(fields[i..], ty.isEnum, indent, multiline, i == 0, docstringPrinted, out);
      assert fields[i..][1..] == fields[i+1..];
      var front := WriteFront(f, indent, multiline, i == 0, docstringPrinted);
      docstringPrinted := f.doc.Some?;
      var text := WriteFieldType(f, ty.isEnum, indent);
      var tail := WriteTail(f, multiline, i + 1 == |fields|);
      out := out + front + f.name + text + tail;
    }
    assert fields[|fields|..] == [];
    NoFields(ty.isEnum, indent, multiline, |fields| == 0, docstringPrinted);
    if multiline {
      var margin := JsonWriter.Indent(indent);
      out := out + ("\n" + margin + ")");
    } else {
      out := out + ")";
    }
  }

  method WriteFieldType(f: TypeField, isEnum: bool, indent: int) returns (out: string)
    ensures out == FieldTypeText(f, isEnum, indent)
    decreases f, 0
  {
    hide PrintType, Json.Deeper;
    if isEnum || f.typ.None? {
      return "";
    }
    out := WriteType(f.typ.value, Json.Deeper(indent));
    out := ": " + out;
  }

  /** What separates a field from the next one. */
  method WriteTail(f: TypeField, multiline: bool, last: bool) returns (out: string)
    ensures out == AfterField(f, multiline, last)
  {
    out := "";
    if !last {
      out := ",";
      if !multiline {
        out := out + " ";
      }
      if multiline && f.doc.Some? {
        out := out + "\n";
      }
    }
    assert "," + "" == ",";
  }

  lemma NoFields(isEnum: bool, indent: int, multiline: bool, first: bool, described: bool)
    ensures PrintFields([], isEnum, indent, multiline, first, described) ==
      if multiline then "\n" + Json.Margin(indent) + ")" else ")"
  {
    assert "" + ")" == ")";
  }

  lemma FieldOut(fs: seq<TypeField>, isEnum: bool, indent: int, multiline: bool, first: bool, described: bool,
      out: string)
    requires fs != []
    ensures
      var f := fs[0];
      out + PrintFields(fs, isEnum, indent, multiline, first, described) ==
      out + BeforeField(f, indent, multiline, first, described) + f.name + FieldTypeText(f, isEnum, indent)
      + AfterField(f, multiline, |fs| == 1) + PrintFields(fs[1..], isEnum, indent, multiline, false, f.doc.Some?)
  {
    hide BeforeField, FieldTypeText, AfterField;
    var f := fs[0];
    var a, b, c := BeforeField(f, indent, multiline, first, described), f.name, FieldTypeText(f, isEnum, indent);
    var d, e := AfterField(f, multiline, |fs| == 1),
      PrintFields(fs[1..], isEnum, indent, multiline, false, f.doc.Some?);
    assert out + (a + (b + (c + (d + e)))) == out + a + b + c + d + e;
  }

  /** The start of a line with its documentation. */
  method WriteFront(f: TypeField, indent: int, multiline: bool, first: bool, described: bool) returns (out: string)
    ensures out == BeforeField(f, indent, multiline, first, described)
  {
    hide DocLines, Json.Margin;
    if !multiline {
      return "";
    }
    out := "\n";
    var doc := "";
    if f.doc.Some? {
      if !first && !described {
        out := out + "\n";
      }
      doc := WriteDocstring(f.doc.value, indent + 1);
    }
    var margin := JsonWriter.Indent(indent + 1);
    ghost var gap := if f.doc.Some? && !first && !described then "\n" else "";
    assert "\n" + gap + doc + margin == "\n" + (gap + (doc + margin));
    assert out == "\n" + gap;
    out := out + doc + margin;
  }

  /** What follows the name of a member. */
  method WriteKind(kind: MemberKind, indent: int) returns (out: string)
    ensures out == KindText(kind, indent)
  {
    hide PrintType;
    match kind {
      case AliasOf(ty) =>
        out := WriteType(ty, indent);
        out := " " + out;
      case ErrorOf(ty) =>
        out := WriteType(ty, indent);
        out := " " + out;
      case MethodOf(i, o) =>
        var input := WriteType(i, indent);
        var output := WriteType(o, indent);
        out := input + (" -> " + output);
    }
  }

  method WriteDoc(doc: Option<string>, indent: int) returns (out: string)
    ensures out == DocText(doc, indent)
  {
    if doc.None? {
      return "";
    }
    out := WriteDocstring(doc.value, indent);
  }

  /** The description of an interface. */
  method WriteDescription(i: Interface, indent: int) returns (out: string)
    ensures out == PrintInterface(i, indent)
  {
    hide DocText, Json.Margin, PrintMembers, KindText;
    out := WriteDoc(i.doc, indent);
    var margin := JsonWriter.Indent(indent);
    ghost var doc := out;
    out := out + margin + "interface" + " " + i.name;
    HeadOut(i, indent);
    assert i.members[0..] == i.members;
    for j := 0 to |i.members|
      invariant out + PrintMembers(i.members[j..], indent) == PrintInterface(i, indent)
    {
      var m := i.members[j];
      MemberOut(i.members[j..], indent, out);
      assert i.members[j..][1..] == i.members[j+1..];
      var text := WriteDoc(m.doc, indent);
      var pad := JsonWriter.Indent(indent);
      var kind := WriteKind(m.kind, indent);
      out := out + "\n\n" + text + pad + Keyword(m.kind) + " " + m.name + kind;
    }
    NoMembers(i.members[|i.members|..], indent);
    margin := JsonWriter.Indent(indent);
    out := out + (margin + "\n");
  }

  lemma NoMembers(ms: seq<Member>, indent: int)
    requires ms == []
    ensures PrintMembers(ms, indent) == Json.Margin(indent) + "\n"
  {
  }

  lemma HeadOut(i: Interface, indent: int)
    ensures PrintInterface(i, indent) ==
      DocText(i.doc, indent) + Json.Margin(indent) + "interface" + " " + i.name + PrintMembers(i.members, indent)
  {
    hide DocText, Json.Margin, PrintMembers;
    var a, b, c, d := DocText(i.doc, indent), Json.Margin(indent), i.name, PrintMembers(i.members, indent);
    assert a + (b + ("interface" + (" " + (c + d)))) == a + b + "interface" + " " + c + d;
  }

  lemma MemberOut(ms: seq<Member>, indent: int, out: string)
    requires ms != []
    ensures
      var m := ms[0];
      out + PrintMembers(ms, indent) ==
      out + "\n\n" + DocText(m.doc, indent) + Json.Margin(indent) + Keyword(m.kind) + " " + m.name
        + KindText(m.kind, indent)
      + PrintMembers(ms[1..], indent)
  {
    hide DocText, Json.Margin, Keyword, KindText;
    var m := ms[0];
    var a, b, c, d, e := DocText(m.doc, indent), Json.Margin(indent), Keyword(m.kind), m.name, KindText(m.kind, indent);
    var f := PrintMembers(ms[1..], indent);
    assert out + ("\n\n" + (a + (b + (c + (" " + (d + (e + f))))))) == out + "\n\n" + a + b + c + " " + d + e + f;
  }
}
