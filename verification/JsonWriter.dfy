/** Writing JSON (lib/value.c, lib/object.c, lib/array.c): the loops that append to a stream, proved against the
    functions of `Json`; and whole documents, from text to object and back. */
module JsonWriter {
  import opened Text
  import opened Tokens
  import opened Literals
  import opened Json
  import opened JsonRoundTrip
  import opened Scanning
  import opened Containers
  import opened JsonReader
  import AvlShape
  import Utf8

  /** A run of spaces, one indentation step after the other. */
  method Indent(indent: int) returns (out: string)
    ensures out == Margin(indent)
  {
    out := "";
    var l := 0;
    while l < indent
      invariant 0 <= l && (indent >= 0 ==> l <= indent) && (indent < 0 ==> l == 0)
      invariant out == Spaces(2 * l)
    {
      out := out + "  ";
      l := l + 1;
    }
  }

  method WriteValue(v: Value, indent: int) returns (out: string)
    requires WellFormed(v)
    ensures out == Print(v, indent)
    decreases v, 0
  {
    hide PrintFields, PrintElements;
    match v {
      case Float(f) => out := FloatText(f);
      case Null => out := "null";
      case Bool(b) => out := if b then "true" else "false";
      case Int(i) => out := DecimalText(i);
      case Str(s) =>
        var body := WriteString(s);
        out := "\"" + body + "\"";
      case Arr(es) => out := WriteArray(es, indent);
      case Obj(fs) => out := WriteFields(fs, indent);
    }
  }

  method WriteArray(es: seq<Value>, indent: int) returns (out: string)
    requires forall i :: 0 <= i < |es| ==> WellFormed(es[i])
    ensures out == Print(Arr(es), indent)
    decreases es, 1
  {
    hide Print, PrintElements;
    ghost var whole := Print(Arr(es), indent);
    ArrayText(es, indent);
    if |es| == 0 {
      return "[]";
    }
    out := "[" + Newline(indent);
    for i := 0 to |es|
      invariant out + PrintElements(es[i..], indent, i == 0) == whole
    {
      ElementText(es[i..], indent, i == 0, out);
      assert es[i..][1..] == es[i+1..];
      out := out + Separator(indent, i == 0) + ElementMargin(indent);
      var text := WriteValue(es[i], Deeper(indent));
      out := out + text;
    }
    assert es[|es|..] == [];
    LastElementText(indent, |es| == 0);
    out := out + ArrayEnd(indent);
  }

  lemma ArrayText(es: seq<Value>, indent: int)
    ensures Print(Arr(es), indent) ==
      if es == [] then "[]" else "[" + Newline(indent) + PrintElements(es, indent, true)
  {
    hide PrintElements;
    if es != [] {
      assert es[0..] == es;
      assert "[" + (Newline(indent) + PrintElements(es, indent, true)) ==
        "[" + Newline(indent) + PrintElements(es, indent, true);
    }
  }

  lemma LastElementText(indent: int, first: bool)
    ensures PrintElements([], indent, first) == ArrayEnd(indent)
  {
  }

  lemma ElementText(es: seq<Value>, indent: int, first: bool, out: string)
    requires es != []
    ensures out + PrintElements(es, indent, first) ==
      out + Separator(indent, first) + ElementMargin(indent) + Print(es[0], Deeper(indent))
        + PrintElements(es[1..], indent, false)
  {
    hide Print, Separator, ElementMargin, Deeper;
    var a, b, c, d := Separator(indent, first), ElementMargin(indent), Print(es[0], Deeper(indent)),
      PrintElements(es[1..], indent, false);
    assert out + (a + (b + (c + d))) == out + a + b + c + d;
  }

  method WriteFields(fs: seq<Field>, indent: int) returns (out: string)
    requires forall i :: 0 <= i < |fs| ==> WellFormedField(fs[i])
    ensures out == PrintObject(fs, indent)
    decreases fs, 1
  {
    hide Print, PrintFields;
    if |fs| == 0 {
      return "{}";
    }
    out := "{" + Newline(indent);
    assert out + PrintFields(fs, indent, true) == PrintObject(fs, indent);
    for i := 0 to |fs|
      invariant out + PrintFields(fs[i..], indent, i == 0) == PrintObject(fs, indent)
    {
      FieldText(fs[i..], indent, i == 0, out);
      assert fs[i..][1..] == fs[i+1..];
      out := out + Separator(indent, i == 0);
      var margin := Indent(Deeper(indent));
      out := out + margin + "\"" + fs[i].name + "\"" + Colon(indent);
      var text := WriteValue(fs[i].value, Deeper(indent));
      out := out + text;
    }
    assert fs[|fs|..] == [];
    LastFieldText(indent, |fs| == 0, out);
    out := out + Newline(indent);
    var margin := Indent(indent);
    out := out + margin + "}";
  }

  lemma LastFieldText(indent: int, first: bool, out: string)
    ensures out + PrintFields([], indent, first) == out + Newline(indent) + Margin(indent) + "}"
  {
    hide Newline, Margin;
    assert out + (Newline(indent) + Margin(indent) + "}") == out + Newline(indent) + Margin(indent) + "}";
  }

  lemma FieldText(fs: seq<Field>, indent: int, first: bool, out: string)
    requires fs != []
    ensures out + PrintFields(fs, indent, first) ==
      out + Separator(indent, first) + Margin(Deeper(indent)) + "\"" + fs[0].name + "\"" + Colon(indent)
      + Print(fs[0].value, Deeper(indent)) + PrintFields(fs[1..], indent, false)
  {
    hide Print, Separator, Margin, Deeper, Colon;
    var a, b, c, d := Separator(indent, first), Margin(Deeper(indent)), "\"" + fs[0].name + "\"", Colon(indent);
    var e, f := Print(fs[0].value, Deeper(indent)), PrintFields(fs[1..], indent, false);
    assert out + (a + (b + (c + (d + (e + f))))) == out + a + b + c + d + e + f;
    assert out + a + b + c == out + a + b + "\"" + fs[0].name + "\"";
  }

  // ---------------------------------------------------------------- documents

  /** The text of an object: it looks up every field under the names it lists. */
  method ToJson(obj: VarlinkObject, indent: int) returns (out: string)
    requires obj.Valid() && forall f <- obj.Fields() :: WellFormedField(f)
    ensures out == PrintObject(obj.Fields(), indent)
  {
    var fs := obj.Collect();
    out := WriteFields(fs, indent);
  }

  /** Reads a document. */
  method FromJson(json: string) returns (obj: VarlinkObject?)
    requires Utf8.AllBytes(json)
    ensures obj == null <==> Parse(json) == None
    ensures obj != null ==> obj.Valid() && fresh(obj.Repr()) && Parse(json) == Some(obj.Fields())
  {
    hide Json.ReadObject, VarlinkObject.Valid, Skip;
    var s := new Scanner(json, false);
    obj := JsonReader.ReadObject(s, 0);
    if obj == null {
      return null;
    }
    BlanksSkip(s.text, s.Here());
    assert allocated(AvlShape.Nodes(obj.fields.shape)) && s !in obj.Repr();
    var c := s.Peek();
    if c != '\0' {
      return null;
    }
  }
}
