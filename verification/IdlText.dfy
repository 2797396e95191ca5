/** What descriptions of interfaces never contain. */
module IdlText {
  import opened Text
  import opened Tokens
  import opened Idl
  import opened IdlRoundTrip
  import Json
  import JsonText

  lemma {:induction false} LinesNulFree(doc: string, indent: int)
    requires NulFree(doc)
    ensures NulFree(DocLines(doc, indent))
    decreases |doc|
  {
    hide LineEnd;
    if doc != "" {
      var e := LineEnd(doc, 0);
      var rest := if e < |doc| then DocLines(doc[e+1..], indent) else "";
      if e < |doc| {
        LinesNulFree(doc[e+1..], indent);
      }
      JsonText.LayoutNulFree(indent, true);
      JsonText.NulFreeConcat(" ", doc[..e]);
      JsonText.NulFreeConcat("#", if doc[..e] != "" then " " + doc[..e] else "");
      JsonText.NulFreeConcat("\n", rest);
      JsonText.NulFreeConcat(DocLine(doc[..e]), "\n" + rest);
      JsonText.NulFreeConcat(Json.Margin(indent), DocLine(doc[..e]) + ("\n" + rest));
    }
  }

  lemma DocNulFree(doc: Option<string>, indent: int)
    requires GoodDoc(doc)
    ensures NulFree(DocText(doc, indent)) && NulFree(Json.Margin(indent))
  {
    hide DocLines, Json.Margin;
    JsonText.LayoutNulFree(indent, true);
    if doc.Some? {
      LinesNulFree(doc.value, indent);
    }
  }

  lemma NamesNulFree(w: string)
    ensures FieldName(w) || MemberName(w) || InterfaceName(w) || TypeName(w) ==> NulFree(w)
  {
    hide FirstUpper;
    if FieldName(w) {
      forall i | 0 <= i < |w| ensures w[i] != '\0' {
        assert FieldChar(w, i);
      }
    }
    if InterfaceName(w) {
      InterfaceNameNulFree(w);
    }
    if TypeName(w) && !MemberName(w) {
      var i := FirstUpper(w);
      InterfaceNameNulFree(w[..i-1]);
      assert w == w[..i-1] + [w[i-1]] + w[i..];
    }
  }

  lemma InterfaceNameNulFree(w: string)
    requires InterfaceName(w)
    ensures NulFree(w)
  {
    forall i | 0 <= i < |w| ensures w[i] != '\0' {
      assert InterfaceChar(w, i);
    }
  }

  lemma {:induction false} TypeNulFree(ty: Type, indent: int)
    requires GoodType(ty)
    ensures NulFree(PrintType(ty, indent))
    decreases ty, 0
  {
    hide IsMultiline, TypeName, DistinctFields, GoodField, PrintFields;
    match ty
    case Array(e) =>
      TypeNulFree(e, indent);
      JsonText.NulFreeConcat("[]", PrintType(e, indent));
    case Map(e) =>
      TypeNulFree(e, indent);
      JsonText.NulFreeConcat("[string]", PrintType(e, indent));
    case Maybe(e) =>
      TypeNulFree(e, indent);
      JsonText.NulFreeConcat("?", PrintType(e, indent));
    case Alias(name) => NamesNulFree(name);
    case Record(isEnum, fields) =>
      var multiline := indent >= 0 && IsMultiline(ty);
      FieldsNulFree(fields, isEnum, indent, multiline, true, false);
      JsonText.NulFreeConcat("(", PrintFields(fields, isEnum, indent, multiline, true, false));
    case _ =>
  }

  lemma {:induction false} FieldsNulFree(fs: seq<TypeField>, isEnum: bool, indent: int, multiline: bool, first: bool,
      described: bool)
    requires forall i :: 0 <= i < |fs| ==> GoodField(fs[i], isEnum)
    ensures NulFree(PrintFields(fs, isEnum, indent, multiline, first, described))
    decreases fs, 0
  {
    hide PrintType, GoodDoc, FieldName, FieldTypeText, AfterField, BeforeField, RecordEnd;
    if fs == [] {
      EndNulFree(indent, multiline);
    } else {
      var f, rest := fs[0], PrintFields(fs[1..], isEnum, indent, multiline, false, fs[0].doc.Some?);
      var ty, after := FieldTypeText(f, isEnum, indent), AfterField(f, multiline, |fs| == 1);
      assert forall i :: 0 <= i < |fs[1..]| ==> fs[1..][i] == fs[i + 1];
      FieldsNulFree(fs[1..], isEnum, indent, multiline, false, fs[0].doc.Some?);
      if isEnum {
        NoTypeText(f, indent);
      } else {
        TypeNulFree(f.typ.value, Json.Deeper(indent));
        TypeTextNulFree(f, indent);
      }
      AroundNulFree(f, indent, multiline, first, described, |fs| == 1);
      NamesNulFree(f.name);
      JsonText.NulFreeConcat(after, rest);
      JsonText.NulFreeConcat(ty, after + rest);
      JsonText.NulFreeConcat(f.name, ty + (after + rest));
      JsonText.NulFreeConcat(BeforeField(f, indent, multiline, first, described), f.name + (ty + (after + rest)));
    }
  }

  lemma NoTypeText(f: TypeField, indent: int)
    ensures NulFree(FieldTypeText(f, true, indent))
  {
  }

  lemma TypeTextNulFree(f: TypeField, indent: int)
    requires f.typ.Some? && NulFree(PrintType(f.typ.value, Json.Deeper(indent)))
    ensures NulFree(FieldTypeText(f, false, indent))
  {
    hide PrintType;
    JsonText.NulFreeConcat(": ", PrintType(f.typ.value, Json.Deeper(indent)));
  }

  lemma EndNulFree(indent: int, multiline: bool)
    ensures NulFree(RecordEnd(indent, multiline))
  {
    hide Json.Margin;
    JsonText.LayoutNulFree(indent, true);
    JsonText.NulFreeConcat("\n", Json.Margin(indent));
    JsonText.NulFreeConcat(if multiline then "\n" + Json.Margin(indent) else "", ")");
  }

  lemma AroundNulFree(f: TypeField, indent: int, multiline: bool, first: bool, described: bool, last: bool)
    requires GoodDoc(f.doc)
    ensures NulFree(BeforeField(f, indent, multiline, first, described)) && NulFree(AfterField(f, multiline, last))
  {
    hide DocText, Json.Margin;
    DocNulFree(f.doc, indent + 1);
    var gap := if f.doc.Some? && !first && !described then "\n" else "";
    var doc, margin := DocText(f.doc, indent + 1), Json.Margin(indent + 1);
    JsonText.NulFreeConcat(doc, margin);
    JsonText.NulFreeConcat(gap, doc + margin);
    JsonText.NulFreeConcat("\n", gap + (doc + margin));
  }

  lemma KindNulFree(kind: MemberKind, indent: int)
    requires GoodKind(kind)
    ensures NulFree(KindText(kind, indent)) && NulFree(Keyword(kind))
  {
    hide PrintType;
    match kind
    case MethodOf(i, o) =>
      TypeNulFree(i, indent);
      TypeNulFree(o, indent);
      JsonText.NulFreeConcat(" -> ", PrintType(o, indent));
      JsonText.NulFreeConcat(PrintType(i, indent), " -> " + PrintType(o, indent));
    case AliasOf(ty) =>
      TypeNulFree(ty, indent);
      JsonText.NulFreeConcat(" ", PrintType(ty, indent));
    case ErrorOf(ty) =>
      TypeNulFree(ty, indent);
      JsonText.NulFreeConcat(" ", PrintType(ty, indent));
  }

  lemma {:induction false} MembersNulFree(ms: seq<Member>, indent: int)
    requires forall i :: 0 <= i < |ms| ==> GoodMember(ms[i])
    ensures NulFree(PrintMembers(ms, indent))
  {
    hide GoodKind, GoodDoc, MemberName, DocText, Json.Margin, Keyword, KindText;
    JsonText.LayoutNulFree(indent, true);
    if ms == [] {
      JsonText.NulFreeConcat(Json.Margin(indent), "\n");
    } else {
      var m, rest := ms[0], PrintMembers(ms[1..], indent);
      assert GoodMember(m) && forall i :: 0 <= i < |ms[1..]| ==> ms[1..][i] == ms[i + 1];
      MembersNulFree(ms[1..], indent);
      DocNulFree(m.doc, indent);
      KindNulFree(m.kind, indent);
      NamesNulFree(m.name);
      var a, b := m.name + (KindText(m.kind, indent) + rest), Keyword(m.kind);
      JsonText.NulFreeConcat(KindText(m.kind, indent), rest);
      JsonText.NulFreeConcat(m.name, KindText(m.kind, indent) + rest);
      JsonText.NulFreeConcat(" ", a);
      JsonText.NulFreeConcat(b, " " + a);
      JsonText.NulFreeConcat(Json.Margin(indent), b + (" " + a));
      JsonText.NulFreeConcat(DocText(m.doc, indent), Json.Margin(indent) + (b + (" " + a)));
      JsonText.NulFreeConcat("\n\n", DocText(m.doc, indent) + (Json.Margin(indent) + (b + (" " + a))));
    }
  }

  /** A description is a C string. */
  lemma InterfaceNulFree(i: Interface, indent: int)
    requires Writable(i)
    ensures NulFree(PrintInterface(i, indent))
  {
    hide GoodMember, GoodDoc, InterfaceName, DocText, Json.Margin, PrintMembers;
    DocNulFree(i.doc, indent);
    MembersNulFree(i.members, indent);
    NamesNulFree(i.name);
    var rest := i.name + PrintMembers(i.members, indent);
    JsonText.NulFreeConcat(i.name, PrintMembers(i.members, indent));
    JsonText.NulFreeConcat(" ", rest);
    JsonText.NulFreeConcat("interface", " " + rest);
    JsonText.NulFreeConcat(Json.Margin(indent), "interface" + (" " + rest));
    JsonText.NulFreeConcat(DocText(i.doc, indent), Json.Margin(indent) + ("interface" + (" " + rest)));
  }
}
