/** Reading back printed interfaces: whatever layout the printer chooses, nothing but what it leaves out is lost. */
module IdlRoundTrip {
  import opened Text
  import opened Tokens
  import opened Idl
  import opened IdlReferences
  import Json

  // ---------------------------------------------------------------- which interfaces

  /** Documentation as the scanner collects it: whole lines. */
  ghost predicate GoodDoc(doc: Option<string>) {
    doc.Some? ==> doc.value != "" && NulFree(doc.value) && doc.value[|doc.value|-1] == '\n'
  }

  ghost predicate GoodType(ty: Type) {
    match ty
    case Array(e) => GoodType(e)
    case Map(e) => GoodType(e)
    case Maybe(e) => GoodType(e) && !e.Maybe?
    case Alias(name) => TypeName(name)
    case Record(isEnum, fields) =>
      && (isEnum ==> fields != [])
      && DistinctFields(fields)
      && forall i :: 0 <= i < |fields| ==> GoodField(fields[i], isEnum)
    case _ => true
  }

  ghost predicate GoodField(f: TypeField, isEnum: bool) {
    && FieldName(f.name) && GoodDoc(f.doc)
    && if isEnum then f.typ.None? else f.typ.Some? && GoodType(f.typ.value)
  }

  ghost predicate DistinctFields(fields: seq<TypeField>) {
    forall i, j :: 0 <= i < j < |fields| ==> fields[i].name != fields[j].name
  }

  predicate IsObject(ty: Type) {
    ty.Record? && !ty.isEnum
  }

  ghost predicate GoodKind(kind: MemberKind) {
    match kind
    case AliasOf(ty) => ty.Record? && GoodType(ty)
    case MethodOf(i, o) => IsObject(i) && IsObject(o) && GoodType(i) && GoodType(o)
    case ErrorOf(ty) => IsObject(ty) && GoodType(ty)
  }

  ghost predicate GoodMember(m: Member) {
    MemberName(m.name) && GoodDoc(m.doc) && GoodKind(m.kind)
  }

  /** An interface that can be written, whether or not all types it refers to are there. */
  ghost predicate Writable(i: Interface) {
    && InterfaceName(i.name) && GoodDoc(i.doc)
    && (forall j :: 0 <= j < |i.members| ==> GoodMember(i.members[j]))
    && (forall j, k :: 0 <= j < k < |i.members| ==> i.members[j].name != i.members[k].name)
  }

  ghost predicate GoodInterface(i: Interface) {
    Writable(i) && AllDefined(i.members)
  }

  // ---------------------------------------------------------------- what the compact form leaves out

  /** A type with or without the documentation of its fields. */
  function Expected(ty: Type, docs: bool): Type {
    match ty
    case Array(e) => Array(Expected(e, docs))
    case Map(e) => Map(Expected(e, docs))
    case Maybe(e) => Maybe(Expected(e, docs))
    case Record(isEnum, fields) => Record(isEnum, ExpectedFields(fields, docs))
    case _ => ty
  }

  function ExpectedField(f: TypeField, docs: bool): TypeField {
    TypeField(f.name, if f.typ.Some? then Some(Expected(f.typ.value, docs)) else None, if docs then f.doc else None)
  }

  function ExpectedFields(fields: seq<TypeField>, docs: bool): seq<TypeField> {
    if fields == [] then [] else [ExpectedField(fields[0], docs)] + ExpectedFields(fields[1..], docs)
  }

  // ---------------------------------------------------------------- blanks and comments

  /** No comment is pending. */
  predicate Fresh(c: Cursor) {
    c.comment == None && c.line <= c.p
  }

  predicate Token(ch: char) {
    !IsBlank(ch) && ch != '#'
  }

  lemma AtToken(t: string, c: Cursor)
    requires c.p <= |t| && Token(At(t, c.p))
    ensures Blanks(t, true, c) == c
  {
  }

  /** Blanks that are skipped while no comment is pending. */
  lemma {:induction false} OverBlank(t: string, c: Cursor, b: string) returns (d: Cursor)
    requires Fresh(c) && Has(t, c.p, b) && forall i :: 0 <= i < |b| ==> IsBlank(b[i])
    ensures Fresh(d) && d.p == c.p + |b| <= |t| && Blanks(t, true, c) == Blanks(t, true, d)
    decreases b
  {
    if b == "" {
      d := c;
    } else {
      HasTail(t, c.p, b);
      var next := if b[0] == '\n' then Cursor(c.p + 1, c.p + 1, None) else c.(p := c.p + 1);
      d := OverBlank(t, next, b[1..]);
    }
  }

  /** Spaces that are skipped whether or not a comment is pending. */
  lemma {:induction false} OverSpaces(t: string, c: Cursor, b: string)
    requires Has(t, c.p, b) && forall i :: 0 <= i < |b| ==> b[i] == ' '
    ensures c.p + |b| <= |t| && Blanks(t, true, c) == Blanks(t, true, c.(p := c.p + |b|))
    ensures SkipLeading(t, c.p) == SkipLeading(t, c.p + |b|)
    decreases b
  {
    if b != "" {
      HasTail(t, c.p, b);
      OverSpaces(t, c.(p := c.p + 1), b[1..]);
    }
  }

  lemma {:induction false} LineEndAt(t: string, p: nat, s: string)
    requires Has(t, p, s) && At(t, p + |s|) == '\n' && forall i :: 0 <= i < |s| ==> s[i] != '\n' && s[i] != '\0'
    ensures LineEnd(t, p) == p + |s|
    decreases s
  {
    if s != "" {
      HasTail(t, p, s);
      LineEndAt(t, p + 1, s[1..]);
    }
  }

  lemma {:induction false} LineEndClean(s: string, i: nat)
    requires i <= |s|
    ensures forall j :: i <= j < LineEnd(s, i) ==> s[j] != '\n' && s[j] != '\0'
    decreases |s| - i
  {
    if At(s, i) != '\n' && At(s, i) != '\0' {
      LineEndClean(s, i + 1);
    }
  }

  /** The first line of some documentation and the rest. */
  lemma FirstLine(doc: string, indent: int) returns (line: string, rest: string)
    requires doc != "" && GoodDoc(Some(doc))
    ensures doc == line + "\n" + rest && (forall i :: 0 <= i < |line| ==> line[i] != '\n' && line[i] != '\0')
    ensures rest != "" ==> GoodDoc(Some(rest))
    ensures DocLines(doc, indent) == Json.Margin(indent) + (DocLine(line) + ("\n" + DocLines(rest, indent)))
  {
    hide Json.Margin, DocLine;
    var e := LineEnd(doc, 0);
    LineEndClean(doc, 0);
    line := doc[..e];
    LineStops(doc, 0);
    rest := doc[e+1..];
    assert doc == doc[..e] + [doc[e]] + doc[e+1..];
  }

  /** In documentation every line ends with a line break. */
  lemma {:induction false} LineStops(s: string, i: nat)
    requires i < |s| && NulFree(s) && s[|s|-1] == '\n'
    ensures LineEnd(s, i) < |s| && s[LineEnd(s, i)] == '\n'
    decreases |s| - i
  {
    if s[i] != '\n' {
      LineStops(s, i + 1);
    }
  }

  /** One comment line, from its mark to the start of the next line. */
  lemma OverLine(t: string, c: Cursor, line: string)
    requires c.line <= c.p && Has(t, c.p, DocLine(line)) && At(t, c.p + |DocLine(line)|) == '\n'
    requires forall i :: 0 <= i < |line| ==> line[i] != '\n' && line[i] != '\0'
    ensures
      var n := c.p + |DocLine(line)| + 1;
      && n <= |t|
      && Blanks(t, true, c) == Blanks(t, true, Cursor(n, n, if c.comment.Some? then c.comment else Some(c.p)))
      && CommentText(t, c.p) == line + "\n" + CommentText(t, SkipLeading(t, n))
  {
    hide Has;
    var s := DocLine(line);
    HasTail(t, c.p, s);
    LineEndAt(t, c.p, s);
    if line == "" {
      assert s[1..] == "";
      LineEndAt(t, c.p + 1, "");
    } else {
      assert s[1..] == " " + line && (" " + line)[1..] == line;
      HasTail(t, c.p + 1, " " + line);
      LineEndAt(t, c.p + 2, line);
      HasSlice(t, c.p + 2, line);
    }
  }

  /** Documentation and the margin of the line behind it: the cursor remembers where the comment starts. */
  lemma {:induction false} OverDoc(t: string, c: Cursor, doc: string, indent: int, margin: string)
    requires c.line <= c.p && (doc == "" || GoodDoc(Some(doc))) && (forall i :: 0 <= i < |margin| ==> margin[i] == ' ')
    requires Has(t, c.p, DocLines(doc, indent) + margin) && Token(At(t, c.p + |DocLines(doc, indent)| + |margin|))
    ensures
      var d := Blanks(t, true, c);
      && d.p == c.p + |DocLines(doc, indent)| + |margin| <= |t| && d.line <= d.p
      && d.comment == (if c.comment.Some? || doc == "" then c.comment else Some(SkipLeading(t, c.p)))
      && CommentText(t, SkipLeading(t, c.p)) == doc
    decreases |doc|
  {
    hide Has, DocLines, CommentText, Json.Margin, GoodDoc, SkipLeading, Blanks;
    NoLines(indent);
    if doc == "" {
      assert "" + margin == margin;
      OverSpaces(t, c, margin);
      AtToken(t, c.(p := c.p + |margin|));
      NoComment(t, c.p + |margin|);
    } else {
      var line, rest := FirstLine(doc, indent);
      var m, more := Json.Margin(indent), DocLines(rest, indent);
      MarginSpaces(indent);
      assert DocLines(doc, indent) + margin == m + (DocLine(line) + ("\n" + (more + margin)));
      HasConcat(t, c.p, m, DocLine(line) + ("\n" + (more + margin)));
      HasConcat(t, c.p + |m|, DocLine(line), "\n" + (more + margin));
      HasConcat(t, c.p + |m| + |DocLine(line)|, "\n", more + margin);
      HasAt(t, c.p + |m| + |DocLine(line)|, "\n", 0);
      OverSpaces(t, c, m);
      var h := c.(p := c.p + |m|);
      HasAt(t, h.p, DocLine(line), 0);
      AtHash(t, h.p);
      OverLine(t, h, line);
      var n := h.p + |DocLine(line)| + 1;
      OverDoc(t, Cursor(n, n, if c.comment.Some? then c.comment else Some(h.p)), rest, indent, margin);
    }
  }

  lemma AtHash(t: string, p: nat)
    requires p <= |t| && At(t, p) == '#'
    ensures SkipLeading(t, p) == p
  {
  }

  lemma NoLines(indent: int)
    ensures DocLines("", indent) == ""
  {
  }

  lemma NoComment(t: string, p: nat)
    requires p <= |t| && Token(At(t, p))
    ensures SkipLeading(t, p) == p && CommentText(t, p) == ""
  {
  }

  lemma MarginSpaces(indent: int)
    ensures forall i :: 0 <= i < |Json.Margin(indent)| ==> Json.Margin(indent)[i] == ' '
  {
  }

  // ---------------------------------------------------------------- words

  /** A word that is printed where no letter follows is read as it is. */
  lemma ReadsWord(t: string, p: nat, w: string)
    requires w != "" && Has(t, p, w) && IsAlpha(w[0]) && (forall i :: 0 <= i < |w| ==> IsWordChar(w[i]))
    requires !IsWordChar(At(t, p + |w|))
    ensures p + |w| <= |t| && WordOf(t, p) == w && WordLength(t, p) == |w| && Token(At(t, p))
  {
    WordAt(t, p, w);
    HasSlice(t, p, w);
    HasAt(t, p, w, 0);
  }

  lemma FieldNameWord(w: string)
    requires FieldName(w)
    ensures w != "" && IsAlpha(w[0]) && forall i :: 0 <= i < |w| ==> IsWordChar(w[i])
  {
    forall i | 0 <= i < |w| ensures IsWordChar(w[i]) {
      assert FieldChar(w, i);
    }
  }

  lemma MemberNameWord(w: string)
    requires MemberName(w)
    ensures w != "" && IsAlpha(w[0]) && forall i :: 0 <= i < |w| ==> IsWordChar(w[i])
  {
    assert IsWordChar(w[0]);
  }

  lemma InterfaceNameWord(w: string)
    requires InterfaceName(w)
    ensures w != "" && IsAlpha(w[0]) && forall i :: 0 <= i < |w| ==> IsWordChar(w[i])
  {
    forall i | 0 <= i < |w| ensures IsWordChar(w[i]) {
      assert InterfaceChar(w, i);
    }
  }

  lemma TypeNameWord(w: string)
    requires TypeName(w)
    ensures w != "" && IsAlpha(w[0]) && forall i :: 0 <= i < |w| ==> IsWordChar(w[i])
    ensures exists i :: 0 <= i < |w| && IsUpper(w[i])
  {
    if MemberName(w) {
      MemberNameWord(w);
      assert IsUpper(w[0]);
    } else {
      var i := FirstUpper(w);
      InterfaceNameWord(w[..i-1]);
      MemberNameWord(w[i..]);
      assert forall j :: 0 <= j < i - 1 ==> w[j] == w[..i-1][j];
      assert forall j :: i <= j < |w| ==> w[j] == w[i..][j - i];
    }
  }

  // ---------------------------------------------------------------- what reading gives

  /** Reading yields `ty` and ends at `end`, with no comment pending. */
  ghost predicate Reads(r: Option<(Type, Cursor)>, ty: Type, end: nat) {
    r.Some? && r.value.0 == ty && r.value.1.p == end && Fresh(r.value.1)
  }

  /** The first character of a printed type. */
  lemma TypeStarts(ty: Type, indent: int)
    requires GoodType(ty)
    ensures var s := PrintType(ty, indent); s != "" && Token(s[0]) && s[0] != ')'
  {
    hide PrintFields, IsMultiline;
    if ty.Alias? {
      TypeNameWord(ty.name);
    }
  }

  // ---------------------------------------------------------------- documentation

  /** Optional documentation in front of a token, behind blanks and in front of a margin. */
  lemma DocReads(t: string, c: Cursor, b: string, doc: Option<string>, indent: int, margin: string)
    requires Fresh(c) && GoodDoc(doc) && (forall i :: 0 <= i < |b| ==> IsBlank(b[i]))
    requires forall i :: 0 <= i < |margin| ==> margin[i] == ' '
    requires Has(t, c.p, b + (DocText(doc, indent) + margin))
    requires Token(At(t, c.p + |b + (DocText(doc, indent) + margin)|))
    ensures
      var end := c.p + |b + (DocText(doc, indent) + margin)|;
      var r := ReadDoc(t, c);
      && r.0 == doc && r.1.p == end && Fresh(r.1)
      && Blanks(t, true, c).p == end
  {
    hide Blanks, Has, DocLines, CommentText;
    HasConcat(t, c.p, b, DocText(doc, indent) + margin);
    var d := OverBlank(t, c, b);
    NoLines(indent);
    OverDoc(t, d, if doc.Some? then doc.value else "", indent, margin);
  }

  // ---------------------------------------------------------------- types

  /** What lies between two fields: the comma and the blanks behind it. */
  function Lead(first: bool, fs: seq<TypeField>, pad: string): string {
    if first || fs == [] then "" else "," + pad
  }

  lemma RecordEndReads(t: string, c: Cursor, indent: int, multiline: bool, isEnum: bool, done: seq<TypeField>)
    requires Fresh(c) && Has(t, c.p, RecordEnd(indent, multiline))
    ensures c.p + |RecordEnd(indent, multiline)| <= |t| && !IsWordChar(At(t, c.p))
    ensures Reads(ReadFields(t, c, isEnum, done), Record(isEnum, done), c.p + |RecordEnd(indent, multiline)|)
  {
    hide Has, Blanks, Json.Margin;
    var b := if multiline then "\n" + Json.Margin(indent) else "";
    MarginSpaces(indent);
    HasConcat(t, c.p, b, ")");
    HasAt(t, c.p, RecordEnd(indent, multiline), 0);
    HasAt(t, c.p + |b|, ")", 0);
    var d := OverBlank(t, c, b);
    AtToken(t, d);
    HasSlice(t, c.p + |b|, ")");
  }

  /** The name of a field with its documentation, from behind the comma on. */
  lemma NameReads(t: string, c: Cursor, pad: string, f: TypeField, indent: int, multiline: bool, first: bool,
      described: bool)
    requires Fresh(c) && FieldName(f.name) && GoodDoc(f.doc) && (forall i :: 0 <= i < |pad| ==> IsBlank(pad[i]))
    requires Has(t, c.p, pad + (BeforeField(f, indent, multiline, first, described) + f.name))
    requires !IsWordChar(At(t, c.p + |pad + (BeforeField(f, indent, multiline, first, described) + f.name)|))
    ensures
      var start := c.p + |pad| + |BeforeField(f, indent, multiline, first, described)|;
      var r := ReadDoc(t, c);
      && r.0 == (if multiline then f.doc else None) && r.1.p == start && Fresh(r.1)
      && start + |f.name| <= |t| && WordOf(t, start) == f.name && Token(At(t, start)) && At(t, start) != ')'
      && Blanks(t, true, c).p == start
  {
    hide Has, Blanks, DocText, Json.Margin, FieldName, ReadDoc, WordOf;
    var before := BeforeField(f, indent, multiline, first, described);
    HasConcat(t, c.p, pad, before + f.name);
    HasConcat(t, c.p + |pad|, before, f.name);
    FieldNameWord(f.name);
    ReadsWord(t, c.p + |pad| + |before|, f.name);
    HasAt(t, c.p + |pad| + |before|, f.name, 0);
    var b := pad + if !multiline then "" else if f.doc.Some? && !first && !described then "\n\n" else "\n";
    var m := if multiline then Json.Margin(indent + 1) else "";
    MarginSpaces(indent + 1);
    var doc := if multiline then f.doc else None;
    BeforeSplits(f, indent, multiline, first, described, pad);
    HasConcat(t, c.p, pad, before);
    DocReads(t, c, b, doc, indent + 1, m);
  }

  lemma BeforeSplits(f: TypeField, indent: int, multiline: bool, first: bool, described: bool, pad: string)
    ensures
      var b := pad + if !multiline then "" else if f.doc.Some? && !first && !described then "\n\n" else "\n";
      var m := if multiline then Json.Margin(indent + 1) else "";
      pad + BeforeField(f, indent, multiline, first, described) ==
        b + (DocText(if multiline then f.doc else None, indent + 1) + m)
  {
    hide DocLines, Json.Margin;
    var text := DocText(f.doc, indent + 1) + Json.Margin(indent + 1);
    assert pad + ("\n" + ("\n" + text)) == pad + "\n\n" + text;
    assert pad + ("\n" + ("" + text)) == pad + "\n" + text;
  }

  lemma BlanksIdempotent(t: string, c: Cursor)
    requires c.p <= |t|
    ensures Blanks(t, true, Blanks(t, true, c)) == Blanks(t, true, c)
  {
    BlanksTwice(t, true, c);
  }

  /** The loop goes on with the name of the next field. */
  lemma NameStep(t: string, c: Cursor, isEnum: bool, done: seq<TypeField>)
    requires c.p <= |t|
    requires if done == [] then At(t, Blanks(t, true, c).p) != ')' else At(t, c.p) == ','
    ensures
      var (doc, e) := ReadDoc(t, if done == [] then c else c.(p := c.p + 1));
      ReadFields(t, c, isEnum, done) == ReadField(t, e, doc, isEnum, done)
  {
    hide Blanks, ReadField;
    BlanksIdempotent(t, c);
    if done != [] {
      AtToken(t, c);
    }
  }

  /** An item of an enum. */
  lemma ItemStep(t: string, e: Cursor, doc: Option<string>, isEnum: bool, done: seq<TypeField>, name: string)
    requires e.p + |name| <= |t| && FieldName(name) && WordOf(t, e.p) == name && !Known(done, name)
    requires if done == [] then At(t, Blanks(t, true, e.(p := e.p + |name|)).p) != ':' else isEnum
    ensures ReadField(t, e, doc, isEnum, done) ==
      ReadFields(t, e.(p := e.p + |name|), true, done + [TypeField(name, None, doc)])
  {
    hide Blanks, WordOf, FieldName, Known, ReadFieldsAt;
    BlanksIdempotent(t, e.(p := e.p + |name|));
  }

  /** A field of an object. */
  lemma FieldStep(t: string, e: Cursor, doc: Option<string>, done: seq<TypeField>, name: string, ty: Type, end: nat)
    requires e.p + |name| + 1 <= |t| && FieldName(name) && WordOf(t, e.p) == name && !Known(done, name)
    requires At(t, e.p + |name|) == ':' && Reads(ReadType(t, e.(p := e.p + |name| + 1)), ty, end)
    ensures
      var h := ReadType(t, e.(p := e.p + |name| + 1)).value.1;
      ReadField(t, e, doc, false, done) == ReadFields(t, h, false, done + [TypeField(name, Some(ty), doc)])
  {
    hide Blanks, WordOf, FieldName, Known, ReadFields, ReadType, ReadFieldType;
    AtToken(t, e.(p := e.p + |name|));
    FieldTypeStep(t, e.(p := e.p + |name|), doc, done, name, ty, end);
  }

  lemma FieldTypeStep(t: string, n: Cursor, doc: Option<string>, done: seq<TypeField>, name: string, ty: Type, end: nat)
    requires n.p + 1 <= |t| && !Known(done, name)
    requires At(t, n.p) == ':' && Reads(ReadType(t, n.(p := n.p + 1)), ty, end)
    ensures
      var h := ReadType(t, n.(p := n.p + 1)).value.1;
      ReadFieldType(t, n, name, doc, done) == ReadFields(t, h, false, done + [TypeField(name, Some(ty), doc)])
  {
    hide Blanks, Known, ReadFields, ReadType, Take, Fresh;
    TakeHere(t, n, ':');
  }

  lemma TakeHere(t: string, c: Cursor, ch: char)
    requires c.p <= |t| && At(t, c.p) == ch && Token(ch) && ch != '\0'
    ensures c.p + 1 <= |t| && Take(t, c, ch) == Some(c.(p := c.p + 1))
  {
    AtToken(t, c);
  }

  /** The pieces of the printed fields. */
  lemma FieldLayout(t: string, p: nat, fs: seq<TypeField>, isEnum: bool, indent: int, multiline: bool, first: bool,
      described: bool, pad: string)
    requires fs != [] && Has(t, p, Lead(first, fs, pad) + PrintFields(fs, isEnum, indent, multiline, first, described))
    requires GoodField(fs[0], isEnum)
    ensures
      var f := fs[0];
      var before, text, next := BeforeField(f, indent, multiline, first, described),
        FieldTypeText(f, isEnum, indent), Pad(f, multiline);
      var rest := Lead(false, fs[1..], next) + PrintFields(fs[1..], isEnum, indent, multiline, false, f.doc.Some?);
      var q := p + |Lead(first, fs, pad)|;
      var n := q + |before| + |f.name|;
      && (!first ==> At(t, p) == ',' && Has(t, p + 1, pad + (before + f.name)) && p < |t|)
      && (first ==> Has(t, p, before + f.name))
      && Has(t, n, text) && Has(t, n + |text|, rest)
      && n + |text| + |rest| == p + |Lead(first, fs, pad)
        + PrintFields(fs, isEnum, indent, multiline, first, described)| <= |t|
      && !IsWordChar(At(t, n)) && !IsWordChar(At(t, n + |text|)) && At(t, n + |text|) != ':' && At(t, n + |text|) != '#'
  {
    hide Has, PrintFields, BeforeField, FieldTypeText, PrintType, GoodType, FieldName, GoodDoc, Pad, IsWordChar;
    var f := fs[0];
    var lead, before, text := Lead(first, fs, pad), BeforeField(f, indent, multiline, first, described),
      FieldTypeText(f, isEnum, indent);
    var rest := Lead(false, fs[1..], Pad(f, multiline))
      + PrintFields(fs[1..], isEnum, indent, multiline, false, f.doc.Some?);
    FieldsSplit(fs, isEnum, indent, multiline, first, described);
    Pieces(t, p, lead, before, f.name, text, rest);
    var n := p + |lead| + |before| + |f.name|;
    RestStarts(t, n + |text|, fs[1..], isEnum, indent, multiline, f.doc.Some?, Pad(f, multiline));
    TextStarts(t, n, f, isEnum, indent);
    Punctuation();
    if first {
      assert "" + (before + f.name) == before + f.name;
    } else {
      assert lead + (before + f.name) == "," + (pad + (before + f.name));
      HasConcat(t, p, ",", pad + (before + f.name));
      HasAt(t, p, ",", 0);
    }
  }

  lemma Punctuation()
    ensures !IsWordChar(':') && !IsWordChar(',') && !IsWordChar(' ') && !IsWordChar('\n') && !IsWordChar(')')
      && !IsWordChar('(')
  {
  }

  lemma FieldsSplit(fs: seq<TypeField>, isEnum: bool, indent: int, multiline: bool, first: bool, described: bool)
    requires fs != []
    ensures
      var f := fs[0];
      var rest := Lead(false, fs[1..], Pad(f, multiline))
        + PrintFields(fs[1..], isEnum, indent, multiline, false, f.doc.Some?);
      PrintFields(fs, isEnum, indent, multiline, first, described) ==
      BeforeField(f, indent, multiline, first, described) + (f.name + (FieldTypeText(f, isEnum, indent) + rest))
  {
    hide BeforeField, FieldTypeText, RecordEnd;
    AfterIsLead(fs, isEnum, indent, multiline);
  }

  /** Consecutive pieces of a text. */
  lemma Pieces(t: string, p: nat, a: string, b: string, c: string, d: string, e: string)
    requires Has(t, p, a + (b + (c + (d + e))))
    ensures Has(t, p, a + (b + c)) && Has(t, p + |a| + |b| + |c|, d) && Has(t, p + |a| + |b| + |c| + |d|, e)
    ensures |a + (b + (c + (d + e)))| == |a| + |b| + |c| + |d| + |e| && p + |a| + |b| + |c| + |d| + |e| <= |t|
  {
    hide Has;
    HasPieces(t, p, a, b, c, d, e);
    HasConcat(t, p + |a|, b, c);
    HasConcat(t, p, a, b + c);
  }

  function Pad(f: TypeField, multiline: bool): string {
    if !multiline then " " else if f.doc.Some? then "\n" else ""
  }

  lemma AfterIsLead(fs: seq<TypeField>, isEnum: bool, indent: int, multiline: bool)
    requires fs != []
    ensures AfterField(fs[0], multiline, |fs| == 1) == Lead(false, fs[1..], Pad(fs[0], multiline))
  {
  }

  lemma RestStarts(t: string, p: nat, fs: seq<TypeField>, isEnum: bool, indent: int, multiline: bool,
      described: bool, pad: string)
    requires Has(t, p, Lead(false, fs, pad) + PrintFields(fs, isEnum, indent, multiline, false, described))
    ensures !IsWordChar(At(t, p)) && At(t, p) != ':' && At(t, p) != '#'
  {
    hide Has, BeforeField, FieldTypeText, Json.Margin;
    HasAt(t, p, Lead(false, fs, pad) + PrintFields(fs, isEnum, indent, multiline, false, described), 0);
  }

  lemma TextStarts(t: string, p: nat, f: TypeField, isEnum: bool, indent: int)
    requires Has(t, p, FieldTypeText(f, isEnum, indent)) && (!isEnum ==> f.typ.Some?)
    ensures !isEnum ==>
              && At(t, p) == ':'
              && FieldTypeText(f, isEnum, indent) == ":" + (" " + PrintType(f.typ.value, Json.Deeper(indent)))
    ensures isEnum ==> FieldTypeText(f, isEnum, indent) == ""
  {
    hide PrintType;
    if !isEnum {
      HasAt(t, p, FieldTypeText(f, isEnum, indent), 0);
      assert ": " + PrintType(f.typ.value, Json.Deeper(indent)) ==
        ":" + (" " + PrintType(f.typ.value, Json.Deeper(indent)));
    }
  }

  /** Behind an item of an enum there is no colon. */
  lemma NoColon(t: string, c: Cursor, fs: seq<TypeField>, isEnum: bool, indent: int, multiline: bool,
      described: bool, pad: string)
    requires Fresh(c) && Has(t, c.p, Lead(false, fs, pad)
      + PrintFields(fs, isEnum, indent, multiline, false, described))
    ensures c.p <= |t| && At(t, Blanks(t, true, c).p) != ':'
  {
    hide Has, Blanks, BeforeField, FieldTypeText, Json.Margin;
    var s := Lead(false, fs, pad) + PrintFields(fs, isEnum, indent, multiline, false, described);
    HasSlice(t, c.p, s);
    if fs == [] {
      assert s == RecordEnd(indent, multiline);
      var b := if multiline then "\n" + Json.Margin(indent) else "";
      MarginSpaces(indent);
      HasConcat(t, c.p, b, ")");
      HasAt(t, c.p + |b|, ")", 0);
      var d := OverBlank(t, c, b);
      AtToken(t, d);
    } else {
      HasAt(t, c.p, s, 0);
      AtToken(t, c);
    }
  }

  /** What can be told of the fields that are still to be read. */
  ghost predicate Ahead(fs: seq<TypeField>, done: seq<TypeField>, isEnum: bool, indent: int, multiline: bool) {
    && (forall i :: 0 <= i < |fs| ==> GoodField(fs[i], isEnum) && !Known(done, fs[i].name))
    && DistinctFields(fs)
    && (multiline ==> indent >= 0)
    && (indent >= 0 && !multiline ==> forall i :: 0 <= i < |fs| ==> fs[i].doc.None?)
    && (isEnum ==> fs != [] || done != [])
  }

  lemma AheadStep(fs: seq<TypeField>, done: seq<TypeField>, x: TypeField, isEnum: bool, indent: int, multiline: bool)
    requires fs != [] && Ahead(fs, done, isEnum, indent, multiline) && x.name == fs[0].name
    ensures Ahead(fs[1..], done + [x], isEnum, indent, multiline)
    ensures GoodField(fs[0], isEnum) && !Known(done, fs[0].name)
    ensures (if multiline then fs[0].doc else None) == ExpectedField(fs[0], indent >= 0).doc
  {
    hide GoodField;
    forall i | 0 <= i < |fs[1..]| ensures !Known(done + [x], fs[1..][i].name) {
      assert fs[0].name != fs[i+1].name && !Known(done, fs[i+1].name);
    }
  }

  lemma {:induction false} ReadPrintedFields(fs: seq<TypeField>, done: seq<TypeField>, t: string, c: Cursor,
      isEnum: bool, indent: int, multiline: bool, described: bool, pad: string)
    requires Fresh(c) && Ahead(fs, done, isEnum, indent, multiline) && (forall i :: 0 <= i < |pad| ==> IsBlank(pad[i]))
    requires Has(t, c.p, Lead(done == [], fs, pad) + PrintFields(fs, isEnum, indent, multiline, done == [], described))
    ensures
      var s := Lead(done == [], fs, pad) + PrintFields(fs, isEnum, indent, multiline, done == [], described);
      && c.p + |s| <= |t|
      && Reads(ReadFields(t, c, if done == [] then false else isEnum, done),
        Record(isEnum, done + ExpectedFields(fs, indent >= 0)), c.p + |s|)
    decreases fs, 2
  {
    hide Has, Blanks, PrintFields, BeforeField, FieldTypeText, GoodField, Known, WordOf, ReadFields, ReadField,
      Expected, IsWordChar, DistinctFields, RecordEnd;
    if fs == [] {
      NoFieldsText(done == [], pad, isEnum, indent, multiline, described);
      RecordEndReads(t, c, indent, multiline, if done == [] then false else isEnum, done);
      assert done + [] == done;
    } else {
      hide Fresh, Ahead, ExpectedField;
      var f := fs[0];
      var x, next := FieldReads(fs, done, t, c, isEnum, indent, multiline, described, pad);
      ReadPrintedFields(fs[1..], done + [x], t, next, isEnum, indent, multiline, f.doc.Some?, Pad(f, multiline));
      assert done + [x] + ExpectedFields(fs[1..], indent >= 0) == done + ExpectedFields(fs, indent >= 0);
    }
  }

  /** One printed field is read, and the others follow behind it. */
  lemma {:induction false} FieldReads(fs: seq<TypeField>, done: seq<TypeField>, t: string, c: Cursor,
      isEnum: bool, indent: int, multiline: bool, described: bool, pad: string) returns (x: TypeField, next: Cursor)
    requires fs != [] && Fresh(c) && Ahead(fs, done, isEnum, indent, multiline)
    requires forall i :: 0 <= i < |pad| ==> IsBlank(pad[i])
    requires Has(t, c.p, Lead(done == [], fs, pad) + PrintFields(fs, isEnum, indent, multiline, done == [], described))
    ensures x == ExpectedField(fs[0], indent >= 0) && Fresh(next)
    ensures Ahead(fs[1..], done + [x], isEnum, indent, multiline)
    ensures forall i :: 0 <= i < |Pad(fs[0], multiline)| ==> IsBlank(Pad(fs[0], multiline)[i])
    ensures
      var rest := Lead(false, fs[1..], Pad(fs[0], multiline))
        + PrintFields(fs[1..], isEnum, indent, multiline, false, fs[0].doc.Some?);
      && Has(t, next.p, rest)
      && next.p + |rest| ==
         c.p + |Lead(done == [], fs, pad) + PrintFields(fs, isEnum, indent, multiline, done == [], described)| <= |t|
    ensures ReadFields(t, c, if done == [] then false else isEnum, done) == ReadFields(t, next, isEnum, done + [x])
    decreases fs, 1
  {
    hide Has, Blanks, PrintFields, BeforeField, FieldTypeText, GoodField, Known, WordOf, ReadFields, ReadField,
      Expected, IsWordChar, DistinctFields, RecordEnd, Fresh;
    var f, first := fs[0], done == [];
    var arg := if first then false else isEnum;
    x := ExpectedField(f, indent >= 0);
    AheadStep(fs, done, x, isEnum, indent, multiline);
    FieldLayout(t, c.p, fs, isEnum, indent, multiline, first, described, pad);
    var e := ReadsFieldName(t, c, fs, done, arg, isEnum, indent, multiline, described, pad);
    next := ReadsFieldType(t, e, fs, done, arg, isEnum, indent, multiline);
  }

  lemma NoFieldsText(first: bool, pad: string, isEnum: bool, indent: int, multiline: bool, described: bool)
    ensures Lead(first, [], pad) + PrintFields([], isEnum, indent, multiline, first, described) ==
      RecordEnd(indent, multiline)
  {
    assert "" + RecordEnd(indent, multiline) == RecordEnd(indent, multiline);
  }

  lemma GoodFieldParts(f: TypeField, isEnum: bool)
    requires GoodField(f, isEnum)
    ensures FieldName(f.name) && GoodDoc(f.doc)
      && (if isEnum then f.typ.None? else f.typ.Some? && GoodType(f.typ.value))
  {
  }

  /** Reading comes to the name of the next field and has its documentation. */
  lemma ReadsFieldName(t: string, c: Cursor, fs: seq<TypeField>, done: seq<TypeField>, arg: bool,
      isEnum: bool, indent: int, multiline: bool, described: bool, pad: string) returns (e: Cursor)
    requires fs != [] && Fresh(c) && Ahead(fs, done, isEnum, indent, multiline)
      && (forall i :: 0 <= i < |pad| ==> IsBlank(pad[i]))
    requires Has(t, c.p, Lead(done == [], fs, pad) + PrintFields(fs, isEnum, indent, multiline, done == [], described))
    ensures
      var f := fs[0];
      && e.p == c.p + |Lead(done == [], fs, pad)| + |BeforeField(f, indent, multiline, done == [], described)|
      && Fresh(e) && e.p + |f.name| <= |t| && WordOf(t, e.p) == f.name
      && ReadFields(t, c, arg, done) == ReadField(t, e, ExpectedField(f, indent >= 0).doc, arg, done)
  {
    hide Has, Blanks, PrintFields, BeforeField, FieldTypeText, GoodField, GoodType, GoodDoc, Known, FieldName,
      ReadFields, ReadField, ReadDoc, WordOf, ExpectedFields, IsWordChar, IsMultiline, DistinctFields, DocText;
    var f, first := fs[0], done == [];
    FieldLayout(t, c.p, fs, isEnum, indent, multiline, first, described, pad);
    AheadStep(fs, done, f, isEnum, indent, multiline);
    GoodFieldParts(f, isEnum);
    var k := if first then c else c.(p := c.p + 1);
    var space := if first then "" else pad;
    ghost var heading := BeforeField(f, indent, multiline, first, described) + f.name;
    assert first ==> "" + heading == heading;
    NameReads(t, k, space, f, indent, multiline, first, described);
    NameStep(t, c, arg, done);
    e := ReadDoc(t, k).1;
  }

  /** Reading comes to the end of the next field, whose name is at `e`. */
  lemma {:induction false} ReadsFieldType(t: string, e: Cursor, fs: seq<TypeField>, done: seq<TypeField>, arg: bool,
      isEnum: bool, indent: int, multiline: bool) returns (next: Cursor)
    requires fs != [] && Fresh(e) && Ahead(fs, done, isEnum, indent, multiline) && arg == (done != [] && isEnum)
    requires e.p + |fs[0].name| <= |t| && WordOf(t, e.p) == fs[0].name
    requires
      var f := fs[0];
      var n, text := e.p + |f.name|, FieldTypeText(f, isEnum, indent);
      && Has(t, n, text)
      && Has(t, n + |text|, Lead(false, fs[1..], Pad(f, multiline))
        + PrintFields(fs[1..], isEnum, indent, multiline, false, f.doc.Some?))
      && !IsWordChar(At(t, n)) && !IsWordChar(At(t, n + |text|))
    ensures
      var f := fs[0];
      var x := ExpectedField(f, indent >= 0);
      && Fresh(next) && next.p == e.p + |f.name| + |FieldTypeText(f, isEnum, indent)| <= |t|
      && ReadField(t, e, x.doc, arg, done) == ReadFields(t, next, isEnum, done + [x])
    decreases fs, 0
  {
    hide Has, Blanks, PrintFields, PrintType, GoodField, GoodType, GoodDoc, Known, FieldName, ReadFields, ReadField,
      ReadType, WordOf, ExpectedFields, Expected, IsWordChar;
    var f := fs[0];
    var x := ExpectedField(f, indent >= 0);
    AheadStep(fs, done, x, isEnum, indent, multiline);
    GoodFieldParts(f, isEnum);
    var n := e.(p := e.p + |f.name|);
    TextStarts(t, n.p, f, isEnum, indent);
    if isEnum {
      next := n;
      NoColon(t, n, fs[1..], isEnum, indent, multiline, f.doc.Some?, Pad(f, multiline));
      ItemStep(t, e, x.doc, arg, done, f.name);
    } else {
      var ty, text := f.typ.value, PrintType(f.typ.value, Json.Deeper(indent));
      HasConcat(t, n.p, ":", " " + text);
      HasConcat(t, n.p + 1, " ", text);
      HasSlice(t, n.p, ":");
      var d := OverBlank(t, n.(p := n.p + 1), " ");
      ReadPrintedType(ty, t, d, Json.Deeper(indent));
      SameType(t, n.(p := n.p + 1), d);
      FieldStep(t, e, x.doc, done, f.name, x.typ.value, d.p + |text|);
      next := ReadType(t, n.(p := n.p + 1)).value.1;
    }
  }

  lemma SameType(t: string, c: Cursor, d: Cursor)
    requires c.p <= |t| && d.p <= |t| && Blanks(t, true, c) == Blanks(t, true, d)
    ensures ReadType(t, c) == ReadType(t, d)
  {
    hide Blanks, ReadTypeAt;
  }

  /** Reading a printed type gives the type, without the documentation of its fields if it was printed in one line. */
  lemma {:induction false} ReadPrintedType(ty: Type, t: string, c: Cursor, indent: int)
    requires GoodType(ty) && Fresh(c) && Has(t, c.p, PrintType(ty, indent))
      && !IsWordChar(At(t, c.p + |PrintType(ty, indent)|))
    ensures c.p + |PrintType(ty, indent)| <= |t|
    ensures Reads(ReadType(t, c), Expected(ty, indent >= 0), c.p + |PrintType(ty, indent)|)
    decreases ty, 2
  {
    hide Has, Blanks, ReadTypeAt, PrintFields, IsMultiline, IsWordChar, FieldName, ExpectedFields, GoodField,
      TypeName, DistinctFields, Ahead, Simple, Token, ReadFields;
    TypeStarts(ty, indent);
    var s := PrintType(ty, indent);
    HasSlice(t, c.p, s);
    HasAt(t, c.p, s, 0);
    AtToken(t, c);
    match ty
    case Array(e) =>
      HasConcat(t, c.p, "[]", PrintType(e, indent));
      ArrayStep(t, c, false);
      ReadPrintedType(e, t, c.(p := c.p + 2), indent);
    case Map(e) =>
      HasConcat(t, c.p, "[string]", PrintType(e, indent));
      ArrayStep(t, c, true);
      ReadPrintedType(e, t, c.(p := c.p + 8), indent);
    case Maybe(e) =>
      HasConcat(t, c.p, "?", PrintType(e, indent));
      MaybeStep(t, c);
      ReadPrintedType(e, t, c.(p := c.p + 1), indent);
      ExpectedKind(e, indent >= 0);
    case Alias(name) => AliasReads(t, c, name);
    case Record(_, _) => ReadPrintedRecord(ty, t, c, indent);
    case _ => SimpleReads(t, c, ty);
  }

  lemma {:induction false} ReadPrintedRecord(ty: Type, t: string, c: Cursor, indent: int)
    requires ty.Record? && GoodType(ty) && Fresh(c) && Has(t, c.p, PrintType(ty, indent))
    ensures Reads(ReadTypeAt(t, c), Expected(ty, indent >= 0), c.p + |PrintType(ty, indent)|)
    decreases ty, 1
  {
    hide Has, Blanks, ReadTypeAt, PrintFields, IsMultiline, ExpectedFields, GoodField, DistinctFields, Ahead,
      ReadFields;
    var Record(isEnum, fields) := ty;
    var multiline := indent >= 0 && IsMultiline(ty);
    var text := PrintFields(fields, isEnum, indent, multiline, true, false);
    HasSlice(t, c.p, PrintType(ty, indent));
    HasConcat(t, c.p, "(", text);
    RecordStep(t, c);
    AllAhead(ty, indent);
    assert Lead(true, fields, "") + text == text;
    ReadPrintedFields(fields, [], t, c.(p := c.p + 1), isEnum, indent, multiline, false, "");
    assert [] + ExpectedFields(fields, indent >= 0) == ExpectedFields(fields, indent >= 0);
  }

  lemma ExpectedKind(ty: Type, docs: bool)
    ensures Expected(ty, docs).Maybe? <==> ty.Maybe?
  {
  }

  lemma AllAhead(ty: Type, indent: int)
    requires ty.Record? && GoodType(ty)
    ensures Ahead(ty.fields, [], ty.isEnum, indent, indent >= 0 && IsMultiline(ty))
  {
    hide GoodField, PrintType;
  }

  lemma NoWord(t: string, p: nat)
    requires p <= |t| && !IsAlpha(At(t, p))
    ensures Simple(t, p) == None && !KeywordAt(t, p, "string")
  {
  }

  lemma ArrayStep(t: string, c: Cursor, isMap: bool)
    requires Has(t, c.p, if isMap then "[string]" else "[]")
    ensures
      var end := c.(p := c.p + if isMap then 8 else 2);
      end.p <= |t|
      && ReadTypeAt(t, c) == match ReadType(t, end)
         case None => None
         case Some((e, f)) => Some((if isMap then Map(e) else Array(e), f))
  {
    hide ReadType, Simple, KeywordAt;
    var s := if isMap then "[string]" else "[]";
    HasSlice(t, c.p, s);
    HasAt(t, c.p, s, 0);
    var inside := c.(p := c.p + 1);
    if isMap {
      assert s == "[" + ("string" + "]");
      HasConcat(t, c.p, "[", "string" + "]");
      HasConcat(t, c.p + 1, "string", "]");
      HasAt(t, c.p + 7, "]", 0);
      KeywordReads(t, c.p + 1, "string");
      AtToken(t, inside);
      AtToken(t, inside.(p := c.p + 7));
    } else {
      HasAt(t, c.p, s, 1);
      AtToken(t, inside);
      NoWord(t, c.p + 1);
    }
  }

  /** A keyword that is not continued is recognized, and no other. */
  lemma KeywordReads(t: string, p: nat, w: string)
    requires w != "" && Has(t, p, w) && (forall i :: 0 <= i < |w| ==> 'a' <= w[i] <= 'z') && !IsWordChar(At(t, p + |w|))
    ensures p <= |t| && KeywordAt(t, p, w) && Token(At(t, p)) && IsAlpha(At(t, p))
    ensures forall k :: KeywordAt(t, p, k) ==> k == w
  {
    assert IsAlpha(w[0]) && forall i :: 0 <= i < |w| ==> IsWordChar(w[i]);
    ReadsWord(t, p, w);
    HasAt(t, p, w, 0);
  }

  lemma MaybeStep(t: string, c: Cursor)
    requires Has(t, c.p, "?")
    ensures c.p + 1 <= |t|
    ensures ReadTypeAt(t, c) == match ReadType(t, c.(p := c.p + 1))
      case None => None
      case Some((e, end)) => if e.Maybe? then None else Some((Maybe(e), end))
  {
    hide ReadType, Simple;
    HasAt(t, c.p, "?", 0);
  }

  lemma RecordStep(t: string, c: Cursor)
    requires Has(t, c.p, "(")
    ensures c.p + 1 <= |t| && ReadTypeAt(t, c) == ReadFields(t, c.(p := c.p + 1), false, [])
  {
    hide ReadFields, Simple;
    HasAt(t, c.p, "(", 0);
    NoWord(t, c.p);
  }

  lemma SimpleReads(t: string, c: Cursor, ty: Type)
    requires ty in {Bool, Int, Float, String, ForeignObject} && Fresh(c)
    requires Has(t, c.p, PrintType(ty, -1)) && !IsWordChar(At(t, c.p + |PrintType(ty, -1)|))
    ensures c.p <= |t| && Reads(ReadTypeAt(t, c), ty, c.p + |PrintType(ty, -1)|)
  {
    hide KeywordAt, Has, IsWordChar;
    KeywordReads(t, c.p, PrintType(ty, -1));
    assert "bool" != "int" && "bool" != "float" && "int" != "float" && |"string"| == |"object"| == 6
      && "string"[0] != "object"[0];
  }

  lemma AliasReads(t: string, c: Cursor, name: string)
    requires TypeName(name) && Fresh(c) && Has(t, c.p, name) && !IsWordChar(At(t, c.p + |name|))
    ensures c.p <= |t| && Reads(ReadTypeAt(t, c), Alias(name), c.p + |name|)
  {
    hide TypeName, Has;
    TypeNameWord(name);
    ReadsWord(t, c.p, name);
    HasAt(t, c.p, name, 0);
    NotSimple(t, c.p, name);
  }

  lemma NotSimple(t: string, p: nat, name: string)
    requires p + |name| <= |t| && WordOf(t, p) == name && exists i :: 0 <= i < |name| && IsUpper(name[i])
    ensures Simple(t, p) == None
  {
    NotKeyword(t, p, name, "bool");
    NotKeyword(t, p, name, "int");
    NotKeyword(t, p, name, "float");
    NotKeyword(t, p, name, "string");
    NotKeyword(t, p, name, "object");
  }

  lemma NotKeyword(t: string, p: nat, name: string, k: string)
    requires p + |name| <= |t| && WordOf(t, p) == name && exists i :: 0 <= i < |name| && IsUpper(name[i])
    requires forall i :: 0 <= i < |k| ==> 'a' <= k[i] <= 'z'
    ensures !KeywordAt(t, p, k)
  {
    KeywordIsWord(t, p, k);
    assert k != name;
  }

  lemma KeywordIsWord(t: string, p: nat, k: string)
    requires p <= |t|
    ensures KeywordAt(t, p, k) ==> WordOf(t, p) == k
  {
  }

  // ---------------------------------------------------------------- members

  function ExpectedKindOf(kind: MemberKind, docs: bool): MemberKind {
    match kind
    case AliasOf(ty) => AliasOf(Expected(ty, docs))
    case MethodOf(i, o) => MethodOf(Expected(i, docs), Expected(o, docs))
    case ErrorOf(ty) => ErrorOf(Expected(ty, docs))
  }

  function ExpectedMembers(ms: seq<Member>, docs: bool): (r: seq<Member>)
    ensures |r| == |ms|
    ensures forall i :: 0 <= i < |ms| ==> r[i] == Member(ms[i].name, ms[i].doc, ExpectedKindOf(ms[i].kind, docs))
  {
    if ms == [] then []
    else [Member(ms[0].name, ms[0].doc, ExpectedKindOf(ms[0].kind, docs))] + ExpectedMembers(ms[1..], docs)
  }

  lemma ExpectedRecord(ty: Type, docs: bool)
    ensures Expected(ty, docs).Record? <==> ty.Record?
    ensures ty.Record? ==> Expected(ty, docs).isEnum == ty.isEnum
  {
  }

  /** The type behind blanks. */
  lemma SpacedTypeReads(t: string, c: Cursor, b: string, ty: Type, indent: int) returns (d: Cursor)
    requires Fresh(c) && GoodType(ty) && (forall i :: 0 <= i < |b| ==> IsBlank(b[i]))
    requires Has(t, c.p, b + PrintType(ty, indent)) && !IsWordChar(At(t, c.p + |b + PrintType(ty, indent)|))
    ensures c.p <= |t| && ReadType(t, c) == Some((Expected(ty, indent >= 0), d))
    ensures Fresh(d) && d.p == c.p + |b + PrintType(ty, indent)| <= |t|
  {
    hide Has, Blanks, PrintType, GoodType, Expected, ReadType, IsWordChar;
    HasConcat(t, c.p, b, PrintType(ty, indent));
    var e := OverBlank(t, c, b);
    ReadPrintedType(ty, t, e, indent);
    SameType(t, c, e);
    d := ReadType(t, c).value.1;
  }

  lemma KindReads(t: string, c: Cursor, kind: MemberKind, indent: int) returns (d: Cursor)
    requires Fresh(c) && GoodKind(kind)
    requires Has(t, c.p, KindText(kind, indent)) && !IsWordChar(At(t, c.p + |KindText(kind, indent)|))
    ensures c.p <= |t| && ReadKind(t, c, Keyword(kind)) == Some((ExpectedKindOf(kind, indent >= 0), d))
    ensures Fresh(d) && d.p == c.p + |KindText(kind, indent)| <= |t|
  {
    hide Has, Blanks, PrintType, GoodType, Expected, ReadType, IsWordChar, Fresh;
    assert "type" != "error" && "type" != "method" && "error" != "method";
    match kind
    case AliasOf(ty) =>
      d := SpacedTypeReads(t, c, " ", ty, indent);
      ExpectedRecord(ty, indent >= 0);
    case ErrorOf(ty) =>
      d := SpacedTypeReads(t, c, " ", ty, indent);
      ExpectedRecord(ty, indent >= 0);
    case MethodOf(i, o) => d := MethodReads(t, c, i, o, indent);
  }

  lemma MethodReads(t: string, c: Cursor, i: Type, o: Type, indent: int) returns (d: Cursor)
    requires Fresh(c) && GoodKind(MethodOf(i, o))
    requires Has(t, c.p, KindText(MethodOf(i, o), indent))
      && !IsWordChar(At(t, c.p + |KindText(MethodOf(i, o), indent)|))
    ensures c.p <= |t| && ReadKind(t, c, "method") == Some((ExpectedKindOf(MethodOf(i, o), indent >= 0), d))
    ensures Fresh(d) && d.p == c.p + |KindText(MethodOf(i, o), indent)| <= |t|
  {
    hide Has, Blanks, PrintType, GoodType, Expected, ReadType, IsWordChar;
    assert "type" != "error" && "type" != "method" && "error" != "method";
    var input, output := PrintType(i, indent), PrintType(o, indent);
    assert input + (" -> " + output) == input + (" " + ("->" + (" " + output)));
    HasConcat(t, c.p, input, " " + ("->" + (" " + output)));
    var p := c.p + |input|;
    HasConcat(t, p, " ", "->" + (" " + output));
    HasConcat(t, p + 1, "->", " " + output);
    HasAt(t, p, " ", 0);
    HasAt(t, p + 1, "->", 0);
    Punctuation();
    assert "" + input == input;
    var e := SpacedTypeReads(t, c, "", i, indent);
    var f := OverBlank(t, e, " ");
    AtToken(t, f);
    HasSlice(t, p + 1, "->");
    d := SpacedTypeReads(t, f.(p := f.p + 2), " ", o, indent);
    ExpectedRecord(i, indent >= 0);
    ExpectedRecord(o, indent >= 0);
  }

  /** Documentation is kept while a keyword behind it is read. */
  lemma DocBehindKeyword(t: string, c: Cursor, keyword: string)
    requires c.p <= |t| && Has(t, Blanks(t, true, c).p, keyword + " ")
    requires Token(At(t, Blanks(t, true, c).p + |keyword| + 1))
    ensures
      var d := Blanks(t, true, c);
      && d.p + |keyword| + 1 <= |t|
      && ReadDoc(t, d.(p := d.p + |keyword|)) == (ReadDoc(t, c).0, ReadDoc(t, c).1.(p := d.p + |keyword| + 1))
  {
    hide Has, Blanks;
    var d := Blanks(t, true, c);
    HasConcat(t, d.p, keyword, " ");
    OverSpaces(t, d.(p := d.p + |keyword|), " ");
    AtToken(t, d.(p := d.p + |keyword| + 1));
  }

  /** Documentation, a keyword and a name. */
  lemma HeadingReads(t: string, c: Cursor, b: string, doc: Option<string>, indent: int, keyword: string, name: string)
    requires Fresh(c) && GoodDoc(doc) && (forall i :: 0 <= i < |b| ==> IsBlank(b[i]))
    requires keyword != "" && forall i :: 0 <= i < |keyword| ==> 'a' <= keyword[i] <= 'z'
    requires name != "" && IsAlpha(name[0]) && forall i :: 0 <= i < |name| ==> IsWordChar(name[i])
    requires Has(t, c.p, (b + (DocText(doc, indent) + Json.Margin(indent))) + (keyword + (" " + name)))
    requires !IsWordChar(At(t, c.p + |(b + (DocText(doc, indent) + Json.Margin(indent))) + (keyword + (" " + name))|))
    ensures
      var q := c.p + |b + (DocText(doc, indent) + Json.Margin(indent))|;
      var n := q + |keyword| + 1;
      && c.p <= q < n < n + |name| <= |t|
      && Blanks(t, true, c).p == q && At(t, q) != '\0' && KeywordAt(t, q, keyword)
        && (forall k :: KeywordAt(t, q, k) ==> k == keyword)
      && ReadDoc(t, c).0 == doc && ReadDoc(t, c).1.p == q && Fresh(ReadDoc(t, c).1)
      && ReadDoc(t, Blanks(t, true, c).(p := q + |keyword|)).0 == doc
      && ReadDoc(t, Blanks(t, true, c).(p := q + |keyword|)).1.p == n
      && Fresh(ReadDoc(t, Blanks(t, true, c).(p := q + |keyword|)).1)
      && WordOf(t, n) == name && Token(At(t, n))
  {
    hide Has, Blanks, DocText, Json.Margin, IsWordChar, WordOf, KeywordAt, ReadDoc;
    var front := b + (DocText(doc, indent) + Json.Margin(indent));
    HasConcat(t, c.p, front, keyword + (" " + name));
    var q := c.p + |front|;
    HasConcat(t, q, keyword, " " + name);
    HasConcat(t, q + |keyword|, " ", name);
    HasConcat(t, q, keyword, " ");
    HasAt(t, q + |keyword|, " ", 0);
    Punctuation();
    KeywordReads(t, q, keyword);
    MarginSpaces(indent);
    DocReads(t, c, b, doc, indent, Json.Margin(indent));
    ReadsWord(t, q + |keyword| + 1, name);
    DocBehindKeyword(t, c, keyword);
  }

  lemma KeywordLetters(kind: MemberKind)
    ensures Keyword(kind) != "" && forall i :: 0 <= i < |Keyword(kind)| ==> 'a' <= Keyword(kind)[i] <= 'z'
  {
  }

  lemma MembersStart(t: string, p: nat, ms: seq<Member>, indent: int)
    requires Has(t, p, PrintMembers(ms, indent))
    ensures !IsWordChar(At(t, p))
  {
    HasAt(t, p, PrintMembers(ms, indent), 0);
  }

  /** One round of the loop over the members. */
  lemma MemberStep(t: string, c: Cursor, done: seq<Member>, keyword: string, doc: Option<string>, name: string,
      kind: MemberKind, end: Cursor)
    requires c.p <= |t| && At(t, Blanks(t, true, c).p) != '\0'
    requires keyword in {"type", "method", "error"}
    requires KeywordAt(t, Blanks(t, true, c).p, keyword)
      && (forall k :: KeywordAt(t, Blanks(t, true, c).p, k) ==> k == keyword)
    requires
      var d := Blanks(t, true, c);
      var (x, e) := ReadDoc(t, d.(p := d.p + |keyword|));
      && x == doc && WordOf(t, e.p) == name && MemberName(name)
      && ReadKind(t, e.(p := e.p + |name|), keyword) == Some((kind, end))
    requires !HasMember(done, name)
    ensures ReadMembers(t, c, done) == ReadMembers(t, end, done + [Member(name, doc, kind)])
  {
    hide Blanks, KeywordAt, ReadDoc, ReadKind, WordOf, MemberName, HasMember;
    assert "type" != "error" && "type" != "method" && "error" != "method";
  }

  ghost predicate MembersAhead(ms: seq<Member>, done: seq<Member>) {
    && (forall i :: 0 <= i < |ms| ==> GoodMember(ms[i]) && !HasMember(done, ms[i].name))
    && (forall i, j :: 0 <= i < j < |ms| ==> ms[i].name != ms[j].name)
  }

  lemma MembersAheadStep(ms: seq<Member>, done: seq<Member>, x: Member)
    requires ms != [] && MembersAhead(ms, done) && x.name == ms[0].name
    ensures MembersAhead(ms[1..], done + [x]) && GoodMember(ms[0]) && !HasMember(done, x.name)
  {
    hide GoodMember;
    forall i | 0 <= i < |ms[1..]| ensures !HasMember(done + [x], ms[1..][i].name) {
      assert ms[0].name != ms[i+1].name && !HasMember(done, ms[i+1].name);
    }
  }

  lemma GoodMemberParts(m: Member)
    requires GoodMember(m)
    ensures MemberName(m.name) && GoodDoc(m.doc) && GoodKind(m.kind)
  {
  }

  lemma MembersSplit(ms: seq<Member>, indent: int)
    requires ms != []
    ensures
      var m := ms[0];
      PrintMembers(ms, indent) ==
      (("\n\n" + (DocText(m.doc, indent) + Json.Margin(indent))) + (Keyword(m.kind) + (" " + m.name)))
      + (KindText(m.kind, indent) + PrintMembers(ms[1..], indent))
  {
    hide DocText, Json.Margin, Keyword, KindText;
    var m := ms[0];
    var a, b, c, d := DocText(m.doc, indent), Json.Margin(indent), Keyword(m.kind), m.name;
    var e := KindText(m.kind, indent) + PrintMembers(ms[1..], indent);
    assert "\n\n" + (a + (b + (c + (" " + (d + e))))) == (("\n\n" + (a + b)) + (c + (" " + d))) + e;
  }

  /** One printed member is read, and the others follow behind it. */
  lemma MemberReads(ms: seq<Member>, done: seq<Member>, t: string, c: Cursor, indent: int)
    returns (x: Member, d: Cursor)
    requires ms != [] && Fresh(c) && MembersAhead(ms, done)
    requires Has(t, c.p, PrintMembers(ms, indent)) && c.p + |PrintMembers(ms, indent)| == |t|
    ensures x == Member(ms[0].name, ms[0].doc, ExpectedKindOf(ms[0].kind, indent >= 0))
    ensures Fresh(d) && Has(t, d.p, PrintMembers(ms[1..], indent)) && d.p + |PrintMembers(ms[1..], indent)| == |t|
    ensures ReadMembers(t, c, done) == ReadMembers(t, d, done + [x]) && MembersAhead(ms[1..], done + [x])
  {
    hide Has, Blanks, PrintMembers, DocText, Json.Margin, GoodMember, GoodDoc, GoodKind, MemberName, HasMember,
      ReadMembers,
      ReadKind, ReadDoc, WordOf, KeywordAt, KindText, Expected, IsWordChar, Token, MembersAhead;
    var m := ms[0];
    x := Member(m.name, m.doc, ExpectedKindOf(m.kind, indent >= 0));
    MembersAheadStep(ms, done, x);
    GoodMemberParts(m);
    MembersSplit(ms, indent);
    var heading := ("\n\n" + (DocText(m.doc, indent) + Json.Margin(indent))) + (Keyword(m.kind) + (" " + m.name));
    var kind, rest := KindText(m.kind, indent), PrintMembers(ms[1..], indent);
    HasConcat(t, c.p, heading, kind + rest);
    HasConcat(t, c.p + |heading|, kind, rest);
    MembersStart(t, c.p + |heading| + |kind|, ms[1..], indent);
    KindStarts(t, c.p + |heading|, m.kind, indent);
    KeywordLetters(m.kind);
    MemberNameWord(m.name);
    HeadingReads(t, c, "\n\n", m.doc, indent, Keyword(m.kind), m.name);
    var e := ReadDoc(t, Blanks(t, true, c).(p := Blanks(t, true, c).p + |Keyword(m.kind)|)).1;
    d := KindReads(t, e.(p := e.p + |m.name|), m.kind, indent);
    MemberStep(t, c, done, Keyword(m.kind), m.doc, m.name, x.kind, d);
  }

  lemma {:induction false} ReadPrintedMembers(ms: seq<Member>, done: seq<Member>, t: string, c: Cursor, indent: int)
    requires Fresh(c) && MembersAhead(ms, done)
    requires Has(t, c.p, PrintMembers(ms, indent)) && c.p + |PrintMembers(ms, indent)| == |t|
    ensures ReadMembers(t, c, done) == Some(done + ExpectedMembers(ms, indent >= 0))
    decreases ms
  {
    hide Has, PrintMembers, ReadMembers, MembersAhead, Fresh, ExpectedKindOf;
    if ms == [] {
      EndReads(t, c, done, indent);
    } else {
      var x, d := MemberReads(ms, done, t, c, indent);
      ReadPrintedMembers(ms[1..], done + [x], t, d, indent);
      assert done + [x] + ExpectedMembers(ms[1..], indent >= 0) == done + ExpectedMembers(ms, indent >= 0);
    }
  }

  lemma KindStarts(t: string, p: nat, kind: MemberKind, indent: int)
    requires GoodKind(kind) && Has(t, p, KindText(kind, indent))
    ensures !IsWordChar(At(t, p))
  {
    hide PrintFields, IsMultiline, GoodType;
    HasAt(t, p, KindText(kind, indent), 0);
  }

  lemma EndReads(t: string, c: Cursor, done: seq<Member>, indent: int)
    requires Fresh(c) && Has(t, c.p, PrintMembers([], indent)) && c.p + |PrintMembers([], indent)| == |t|
    ensures ReadMembers(t, c, done) == Some(done + ExpectedMembers([], indent >= 0))
  {
    hide Has, Blanks, Json.Margin;
    MarginSpaces(indent);
    var d := OverBlank(t, c, Json.Margin(indent) + "\n");
    AtToken(t, d);
    assert done + [] == done;
  }

  /** Which types are needed does not depend on documentation. */
  lemma {:induction false} NeededExpected(ty: Type, docs: bool)
    ensures Needed(Expected(ty, docs)) == Needed(ty)
    decreases ty, 0
  {
    match ty
    case Array(e) => NeededExpected(e, docs);
    case Map(e) => NeededExpected(e, docs);
    case Record(isEnum, fields) => NeededFieldsExpected(fields, docs);
    case _ =>
  }

  lemma {:induction false} NeededFieldsExpected(fields: seq<TypeField>, docs: bool)
    ensures NeededFields(ExpectedFields(fields, docs)) == NeededFields(fields)
    decreases fields, 1
  {
    if fields != [] {
      var x, rest := ExpectedField(fields[0], docs), ExpectedFields(fields[1..], docs);
      assert ([x] + rest)[1..] == rest;
      if fields[0].typ.Some? {
        NeededExpected(fields[0].typ.value, docs);
      }
      NeededFieldsExpected(fields[1..], docs);
    }
  }

  lemma DefinesExpected(members: seq<Member>, name: string, docs: bool)
    ensures Defines(ExpectedMembers(members, docs), name) == Defines(members, name)
  {
    var es := ExpectedMembers(members, docs);
    if i :| 0 <= i < |members| && members[i].name == name && members[i].kind.AliasOf? {
      assert es[i] in es && es[i].name == name && es[i].kind.AliasOf?;
    }
    if m :| m in es && m.name == name && m.kind.AliasOf? {
      var i :| 0 <= i < |es| && es[i] == m;
      assert members[i] in members;
    }
  }

  lemma {:induction false} ExpectedFieldsAt(fields: seq<TypeField>, docs: bool)
    ensures |ExpectedFields(fields, docs)| == |fields|
    ensures forall i :: 0 <= i < |fields| ==> ExpectedFields(fields, docs)[i] == ExpectedField(fields[i], docs)
  {
    if fields != [] {
      ExpectedFieldsAt(fields[1..], docs);
    }
  }

  lemma AllDefinedExpected(members: seq<Member>, docs: bool)
    ensures AllDefined(ExpectedMembers(members, docs)) <==> AllDefined(members)
  {
    hide Needed, Expected, Defines;
    var es := ExpectedMembers(members, docs);
    forall i | 0 <= i < |es| ensures NeededBy(es[i].kind) == NeededBy(members[i].kind) {
      match members[i].kind
      case AliasOf(ty) => NeededExpected(ty, docs);
      case ErrorOf(ty) => NeededExpected(ty, docs);
      case MethodOf(a, b) =>
        NeededExpected(a, docs);
        NeededExpected(b, docs);
    }
    forall name ensures Defines(es, name) == Defines(members, name) {
      DefinesExpected(members, name, docs);
    }
  }

  // ---------------------------------------------------------------- interfaces

  /** Reading the printed description of an interface gives back its name, its members in their order, their types
      and all documentation, whatever layout is chosen for each type; printed compactly, it gives back all but the
      documentation of fields. If only a type that a member refers to is missing, the description is refused. */
  lemma InterfaceRoundTrip(i: Interface, indent: int)
    requires Writable(i)
    ensures ReadInterface(PrintInterface(i, indent)) ==
      if AllDefined(i.members) then Some(Interface(i.name, i.doc, ExpectedMembers(i.members, indent >= 0))) else None
  {
    hide Has, Blanks, PrintMembers, DocText, Json.Margin, GoodMember, GoodDoc, InterfaceName, AllResolved, AllDefined,
      ReadMembers, ExpectedMembers, ReadDoc, KeywordAt, WordOf, IsWordChar, Token, PrintInterface, Keyword;
    var t := PrintInterface(i, indent);
    var front := "" + (DocText(i.doc, indent) + Json.Margin(indent));
    var heading, rest := front + ("interface" + (" " + i.name)), PrintMembers(i.members, indent);
    InterfaceSplit(i, indent);
    HasWhole(t);
    var c := Cursor(0, 0, None);
    HasConcat(t, 0, heading, rest);
    MembersStart(t, |heading|, i.members, indent);
    InterfaceNameWord(i.name);
    HeadingReads(t, c, "", i.doc, indent, "interface", i.name);
    var d := ReadDoc(t, c).1;
    AtLetter(t, d.p);
    AtToken(t, d);
    HasConcat(t, |front|, "interface", " " + i.name);
    HasConcat(t, 0, front, "interface" + (" " + i.name));
    HasConcat(t, |front| + 9, " ", i.name);
    var e := OverBlank(t, d.(p := d.p + 9), " ");
    AtToken(t, e);
    NothingDone(i);
    ReadPrintedMembers(i.members, [], t, e.(p := e.p + |i.name|), indent);
    assert [] + ExpectedMembers(i.members, indent >= 0) == ExpectedMembers(i.members, indent >= 0);
    ResolvedIffDefined(ExpectedMembers(i.members, indent >= 0));
    AllDefinedExpected(i.members, indent >= 0);
  }

  lemma InterfaceSplit(i: Interface, indent: int)
    ensures
      var front := "" + (DocText(i.doc, indent) + Json.Margin(indent));
      PrintInterface(i, indent) == (front + ("interface" + (" " + i.name))) + PrintMembers(i.members, indent)
  {
    hide DocText, Json.Margin, PrintMembers;
    var a, b, rest := DocText(i.doc, indent), Json.Margin(indent), PrintMembers(i.members, indent);
    assert a + (b + ("interface" + (" " + (i.name + rest)))) ==
      (("" + (a + b)) + ("interface" + (" " + i.name))) + rest;
  }

  lemma AtLetter(t: string, p: nat)
    requires p <= |t| && KeywordAt(t, p, "interface")
    ensures Token(At(t, p))
  {
  }

  lemma NothingDone(i: Interface)
    requires Writable(i)
    ensures MembersAhead(i.members, [])
  {
    hide GoodMember;
  }

  /** With its documentation kept, everything is as before. */
  lemma {:induction false} ExpectedSame(ty: Type)
    ensures Expected(ty, true) == ty
  {
    match ty
    case Array(e) => ExpectedSame(e);
    case Map(e) => ExpectedSame(e);
    case Maybe(e) => ExpectedSame(e);
    case Record(isEnum, fields) =>
      ExpectedFieldsAt(fields, true);
      forall i | 0 <= i < |fields| ensures ExpectedField(fields[i], true) == fields[i] {
        if fields[i].typ.Some? {
          ExpectedSame(fields[i].typ.value);
        }
      }
      assert ExpectedFields(fields, true) == fields;
    case _ =>
  }

  /** Printed over several lines, an interface is read back unchanged. */
  lemma PrettyRoundTrip(i: Interface, indent: nat)
    requires GoodInterface(i)
    ensures ReadInterface(PrintInterface(i, indent)) == Some(i)
  {
    hide Writable, AllDefined, ReadInterface, PrintInterface, Expected;
    InterfaceRoundTrip(i, indent);
    var es := ExpectedMembers(i.members, true);
    forall j | 0 <= j < |i.members| ensures es[j] == i.members[j] {
      match i.members[j].kind
      case AliasOf(ty) => ExpectedSame(ty);
      case ErrorOf(ty) => ExpectedSame(ty);
      case MethodOf(a, b) =>
        ExpectedSame(a);
        ExpectedSame(b);
    }
    assert es == i.members;
  }
}
