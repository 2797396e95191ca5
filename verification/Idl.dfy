/** The interface description language: names, types, interfaces, how they are printed and how they are read
    (lib/scanner.c, lib/type.c, lib/interface.c). */
module Idl {
  import opened Text
  import opened Tokens
  import Json

  datatype Type =
    | Bool
    | Int
    | Float
    | String
    | ForeignObject
    | Array(element: Type)
    | Map(element: Type)
    | Maybe(element: Type)
    | Alias(name: string)
    | Record(isEnum: bool, fields: seq<TypeField>)

  /** A field of an object, or an item of an enum, which has no type. */
  datatype TypeField = TypeField(name: string, typ: Option<Type>, doc: Option<string>)

  datatype Member = Member(name: string, doc: Option<string>, kind: MemberKind)

  datatype MemberKind = AliasOf(typ: Type) | MethodOf(input: Type, output: Type) | ErrorOf(typ: Type)

  datatype Interface = Interface(name: string, doc: Option<string>, members: seq<Member>)

  // ---------------------------------------------------------------- names

  /** No two underscores in a row. */
  predicate FieldChar(w: string, i: nat)
    requires i < |w|
  {
    IsAlnum(w[i]) || (w[i] == '_' && i > 0 && w[i-1] != '_')
  }

  predicate FieldName(w: string) {
    && w != "" && IsAlpha(w[0]) && IsAlnum(w[|w|-1])
    && forall i :: 0 <= i < |w| ==> FieldChar(w, i)
  }

  predicate MemberName(w: string) {
    && w != "" && IsUpper(w[0])
    && forall i :: 1 <= i < |w| ==> IsAlnum(w[i])
  }

  /** No dot or dash behind a dot, no dot behind a dash. */
  predicate InterfaceChar(w: string, i: nat)
    requires i < |w|
  {
    || IsAlnum(w[i])
    || (w[i] == '-' && !(i > 0 && w[i-1] == '.'))
    || (w[i] == '.' && !(i > 0 && (w[i-1] == '.' || w[i-1] == '-')))
  }

  /** Letters, digits, dashes and at least one dot. */
  predicate InterfaceName(w: string) {
    && 3 <= |w| <= 255 && IsAlpha(w[0]) && IsAlnum(w[|w|-1])
    && (forall i :: 0 <= i < |w| ==> InterfaceChar(w, i))
    && exists i :: 0 <= i < |w| && w[i] == '.'
  }

  /** The first upper-case letter, or the length. */
  function FirstUpper(w: string): (i: nat)
    ensures i <= |w| && (i < |w| ==> IsUpper(w[i])) && forall j :: 0 <= j < i ==> !IsUpper(w[j])
  {
    if w == "" || IsUpper(w[0]) then 0 else 1 + FirstUpper(w[1..])
  }

  /** A member name, or one qualified by the name of an interface, whose letters are then all lower-case. */
  predicate TypeName(w: string) {
    || MemberName(w)
    || (var i := FirstUpper(w);
        |w| >= 3 && 0 < i < |w| && w[i-1] == '.' && InterfaceName(w[..i-1]) && MemberName(w[i..]))
  }

  // ---------------------------------------------------------------- printing

  function DocLine(line: string): string {
    "#" + (if line != "" then " " + line else "")
  }

  /** A documentation string, one comment line for each of its lines. */
  function DocLines(doc: string, indent: int): string
    decreases |doc|
  {
    if doc == "" then ""
    else
      var e := LineEnd(doc, 0);
      Json.Margin(indent) + (DocLine(doc[..e]) + ("\n" + if e < |doc| then DocLines(doc[e+1..], indent) else ""))
  }

  function DocText(doc: Option<string>, indent: int): string {
    if doc.Some? then DocLines(doc.value, indent) else ""
  }

  /** Whether an object or enum is printed on several lines: more than two fields of an object, any documentation,
      a nested object or enum, or a text that is too long. */
  predicate IsMultiline(ty: Type)
    requires ty.Record?
    decreases ty, 1
  {
    && ty.fields != []
    && ((!ty.isEnum && |ty.fields| > 2)
        || (exists i :: 0 <= i < |ty.fields| &&
              (ty.fields[i].doc.Some? || (!ty.isEnum && ty.fields[i].typ.Some? && ty.fields[i].typ.value.Record?)))
        || |PrintType(ty, -1)| > 40)
  }

  function PrintType(ty: Type, indent: int): string
    decreases ty, if indent >= 0 then 2 else 0
  {
    match ty
    case Bool => "bool"
    case Int => "int"
    case Float => "float"
    case String => "string"
    case ForeignObject => "object"
    case Array(e) => "[]" + PrintType(e, indent)
    case Map(e) => "[string]" + PrintType(e, indent)
    case Maybe(e) => "?" + PrintType(e, indent)
    case Alias(name) => name
    case Record(isEnum, fields) =>
      "(" + PrintFields(fields, isEnum, indent, indent >= 0 && IsMultiline(ty), true, false)
  }

  /** What is printed in front of a field. Documentation is set off by an empty line. */
  function BeforeField(f: TypeField, indent: int, multiline: bool, first: bool, described: bool): string {
    if multiline then
      "\n" + ((if f.doc.Some? && !first && !described then "\n" else "")
        + (DocText(f.doc, indent + 1) + Json.Margin(indent + 1)))
    else ""
  }

  function FieldTypeText(f: TypeField, isEnum: bool, indent: int): string
    decreases f
  {
    if isEnum || f.typ.None? then "" else ": " + PrintType(f.typ.value, Json.Deeper(indent))
  }

  function AfterField(f: TypeField, multiline: bool, last: bool): string {
    if last then ""
    else "," + (if !multiline then " " else if f.doc.Some? then "\n" else "")
  }

  function RecordEnd(indent: int, multiline: bool): string {
    (if multiline then "\n" + Json.Margin(indent) else "") + ")"
  }

  /** The fields from some field on, up to the closing parenthesis. */
  function PrintFields(fs: seq<TypeField>, isEnum: bool, indent: int, multiline: bool, first: bool,
      described: bool): string
    decreases fs
  {
    if fs == [] then RecordEnd(indent, multiline)
    else
      BeforeField(fs[0], indent, multiline, first, described)
      + (fs[0].name + (FieldTypeText(fs[0], isEnum, indent) + (AfterField(fs[0], multiline, |fs| == 1)
      + PrintFields(fs[1..], isEnum, indent, multiline, false, fs[0].doc.Some?))))
  }

  function Keyword(kind: MemberKind): string {
    match kind
    case AliasOf(_) => "type"
    case MethodOf(_, _) => "method"
    case ErrorOf(_) => "error"
  }

  function KindText(kind: MemberKind, indent: int): string {
    match kind
    case AliasOf(ty) => " " + PrintType(ty, indent)
    case MethodOf(i, o) => PrintType(i, indent) + (" -> " + PrintType(o, indent))
    case ErrorOf(ty) => " " + PrintType(ty, indent)
  }

  function PrintMembers(ms: seq<Member>, indent: int): string {
    if ms == [] then Json.Margin(indent) + "\n"
    else
      "\n\n" + (DocText(ms[0].doc, indent) + (Json.Margin(indent) + (Keyword(ms[0].kind) + (" " + (ms[0].name
      + (KindText(ms[0].kind, indent) + PrintMembers(ms[1..], indent)))))))
  }

  /** The description of an interface. */
  function PrintInterface(i: Interface, indent: int): string {
    DocText(i.doc, indent) + (Json.Margin(indent) + ("interface" + (" " + (i.name + PrintMembers(i.members, indent)))))
  }

  // ---------------------------------------------------------------- reading

  /** Spaces and tabs. */
  function SkipLeading(t: string, p: nat): (q: nat)
    requires p <= |t|
    ensures p <= q <= |t|
    decreases |t| - p
  {
    if At(t, p) == ' ' || At(t, p) == '\t' then SkipLeading(t, p + 1) else p
  }

  /** The text of the comment lines from `p` on, without their marks. */
  function CommentText(t: string, p: nat): string
    decreases |t| - p
  {
    if At(t, p) != '#' then ""
    else
      var start := if At(t, p + 1) == ' ' then p + 2 else p + 1;
      var e := LineEnd(t, start);
      if At(t, e) != '\n' then t[start..e]
      else t[start..e] + "\n" + CommentText(t, SkipLeading(t, e + 1))
  }

  lemma CommentUnfolds(t: string, p: nat)
    requires At(t, p) == '#'
    ensures
      var start := if At(t, p + 1) == ' ' then p + 2 else p + 1;
      && start <= |t|
      && var e := LineEnd(t, start);
      CommentText(t, p) == if At(t, e) != '\n' then t[start..e]
        else t[start..e] + "\n" + CommentText(t, SkipLeading(t, e + 1))
  {
    hide LineEnd, SkipLeading;
  }

  /** Moves on to the next token; the comment in front of it is its documentation, and is used up. */
  function ReadDoc(t: string, c: Cursor): (r: (Option<string>, Cursor))
    requires c.p <= |t|
    ensures c.p <= r.1.p <= |t| && r.1.comment == None
  {
    var d := Blanks(t, true, c);
    (if d.comment.Some? then Some(CommentText(t, d.comment.value)) else None, d.(comment := None))
  }

  /** The word at `p`. */
  function WordOf(t: string, p: nat): (w: string)
    requires p <= |t|
    ensures p + |w| <= |t| && w == t[p..p + |w|]
  {
    t[p..p + WordLength(t, p)]
  }

  predicate Known(fields: seq<TypeField>, name: string) {
    exists i :: 0 <= i < |fields| && fields[i].name == name
  }

  /** Moves on and takes a character. */
  function Take(t: string, c: Cursor, ch: char): (r: Option<Cursor>)
    requires c.p <= |t| && ch != '\0'
    ensures r.Some? ==> c.p < r.value.p <= |t|
  {
    var d := Blanks(t, true, c);
    if At(t, d.p) == ch then Some(d.(p := d.p + 1)) else None
  }

  function TakeKeyword(t: string, c: Cursor, word: string): (r: Option<Cursor>)
    requires c.p <= |t|
    ensures r.Some? ==> c.p + |word| <= r.value.p <= |t|
  {
    var d := Blanks(t, true, c);
    if KeywordAt(t, d.p, word) then Some(d.(p := d.p + |word|)) else None
  }

  function Simple(t: string, p: nat): (r: Option<(Type, nat)>)
    requires p <= |t|
    ensures r.Some? ==> p < r.value.1 <= |t|
  {
    if KeywordAt(t, p, "bool") then Some((Bool, p + 4))
    else if KeywordAt(t, p, "int") then Some((Int, p + 3))
    else if KeywordAt(t, p, "float") then Some((Float, p + 5))
    else if KeywordAt(t, p, "string") then Some((String, p + 6))
    else if KeywordAt(t, p, "object") then Some((ForeignObject, p + 6))
    else None
  }

  function ReadType(t: string, c: Cursor): (r: Option<(Type, Cursor)>)
    requires c.p <= |t|
    ensures r.Some? ==> c.p < r.value.1.p <= |t|
    decreases |t| - c.p, 1
  {
    ReadTypeAt(t, Blanks(t, true, c))
  }

  function ReadTypeAt(t: string, d: Cursor): (r: Option<(Type, Cursor)>)
    requires d.p <= |t|
    ensures r.Some? ==> d.p < r.value.1.p <= |t|
    decreases |t| - d.p, 0
  {
    if At(t, d.p) == '[' then
      var inside := d.(p := d.p + 1);
      var isMap := TakeKeyword(t, inside, "string");
      match Take(t, if isMap.Some? then isMap.value else inside, ']')
      case None => None
      case Some(behind) =>
        match ReadType(t, behind)
        case None => None
        case Some((e, end)) => Some((if isMap.Some? then Map(e) else Array(e), end))
    else if At(t, d.p) == '?' then
      match ReadType(t, d.(p := d.p + 1))
      case None => None
      case Some((e, end)) => if e.Maybe? then None else Some((Maybe(e), end))
    else if Simple(t, d.p).Some? then
      Some((Simple(t, d.p).value.0, d.(p := Simple(t, d.p).value.1)))
    else if At(t, d.p) == '(' then ReadFields(t, d.(p := d.p + 1), false, [])
    else
      var w := WordOf(t, d.p);
      if TypeName(w) then Some((Alias(w), d.(p := d.p + |w|))) else None
  }

  /** The fields from some field on, behind those in `fields`. What follows the name of the first one decides
      whether this is an enum. */
  function ReadFields(t: string, c: Cursor, isEnum: bool, fields: seq<TypeField>): (r: Option<(Type, Cursor)>)
    requires c.p <= |t|
    ensures r.Some? ==> c.p < r.value.1.p <= |t|
    decreases |t| - c.p, 3
  {
    ReadFieldsAt(t, Blanks(t, true, c), isEnum, fields)
  }

  function ReadFieldsAt(t: string, d: Cursor, isEnum: bool, fields: seq<TypeField>): (r: Option<(Type, Cursor)>)
    requires d.p <= |t|
    ensures r.Some? ==> d.p < r.value.1.p <= |t|
    decreases |t| - d.p, 2
  {
    if At(t, d.p) == ')' then Some((Record(isEnum, fields), d.(p := d.p + 1)))
    else if fields != [] && At(t, d.p) != ',' then None
    else
      var (doc, e) := ReadDoc(t, if fields == [] then d else d.(p := d.p + 1));
      ReadField(t, e, doc, isEnum, fields)
  }

  /** A field from its name on, and those behind it. */
  function ReadField(t: string, e: Cursor, doc: Option<string>, isEnum: bool,
      fields: seq<TypeField>): (r: Option<(Type, Cursor)>)
    requires e.p <= |t|
    ensures r.Some? ==> e.p < r.value.1.p <= |t|
    decreases |t| - e.p, 1
  {
    var name := WordOf(t, e.p);
    if !FieldName(name) then None
    else
      var n := e.(p := e.p + |name|);
      var f := if fields == [] then Blanks(t, true, n) else n;
      var items := if fields == [] then At(t, f.p) != ':' else isEnum;
      if items then
        if Known(fields, name) then None else ReadFields(t, f, true, fields + [TypeField(name, None, doc)])
      else ReadFieldType(t, f, name, doc, fields)
  }

  /** The field of an object from its colon on, and those behind it. */
  function ReadFieldType(t: string, f: Cursor, name: string, doc: Option<string>,
      fields: seq<TypeField>): (r: Option<(Type, Cursor)>)
    requires f.p <= |t|
    ensures r.Some? ==> f.p < r.value.1.p <= |t|
    decreases |t| - f.p, 0
  {
    match Take(t, f, ':')
    case None => None
    case Some(g) =>
      match ReadType(t, g)
      case None => None
      case Some((ty, h)) =>
        if Known(fields, name) then None else ReadFields(t, h, false, fields + [TypeField(name, Some(ty), doc)])
  }

  function ReadKind(t: string, c: Cursor, keyword: string): (r: Option<(MemberKind, Cursor)>)
    requires c.p <= |t|
    ensures r.Some? ==> c.p < r.value.1.p <= |t|
  {
    match ReadType(t, c)
    case None => None
    case Some((ty, d)) =>
      if keyword == "type" then (if ty.Record? then Some((AliasOf(ty), d)) else None)
      else if keyword == "error" then (if ty.Record? && !ty.isEnum then Some((ErrorOf(ty), d)) else None)
      else
        var e := Blanks(t, true, d);
        if !Has(t, e.p, "->") then None
        else
          match ReadType(t, e.(p := e.p + 2))
          case None => None
          case Some((out, f)) =>
            if ty.Record? && !ty.isEnum && out.Record? && !out.isEnum then Some((MethodOf(ty, out), f)) else None
  }

  function MemberKeyword(t: string, p: nat): Option<string>
    requires p <= |t|
  {
    if KeywordAt(t, p, "type") then Some("type")
    else if KeywordAt(t, p, "method") then Some("method")
    else if KeywordAt(t, p, "error") then Some("error")
    else None
  }

  function ReadMembers(t: string, c: Cursor, members: seq<Member>): Option<seq<Member>>
    requires c.p <= |t|
    decreases |t| - c.p, 1
  {
    ReadMembersAt(t, Blanks(t, true, c), members)
  }

  function ReadMembersAt(t: string, d: Cursor, members: seq<Member>): Option<seq<Member>>
    requires d.p <= |t|
    decreases |t| - d.p, 0
  {
    if At(t, d.p) == '\0' then Some(members)
    else
      match MemberKeyword(t, d.p)
      case None => None
      case Some(keyword) =>
        var (doc, e) := ReadDoc(t, d.(p := d.p + |keyword|));
        var name := WordOf(t, e.p);
        if !MemberName(name) then None
        else
          match ReadKind(t, e.(p := e.p + |name|), keyword)
          case None => None
          case Some((kind, f)) =>
            if HasMember(members, name) then None else ReadMembers(t, f, members + [Member(name, doc, kind)])
  }

  predicate HasMember(members: seq<Member>, name: string) {
    exists i :: 0 <= i < |members| && members[i].name == name
  }

  // ---------------------------------------------------------------- references

  /** The type that is declared under a name. */
  predicate Declared(members: seq<Member>, name: string) {
    exists i :: 0 <= i < |members| && members[i].name == name && members[i].kind.AliasOf?
  }

  /** Looks up the aliases in a type. Types that may be missing are not looked into. */
  predicate TryResolve(members: seq<Member>, ty: Type) {
    match ty
    case Array(e) => TryResolve(members, e)
    case Map(e) => TryResolve(members, e)
    case Alias(name) => Declared(members, name)
    case Record(isEnum, fields) =>
      isEnum || forall i :: 0 <= i < |fields| && fields[i].typ.Some? ==> TryResolve(members, fields[i].typ.value)
    case _ => true
  }

  predicate ResolveKind(members: seq<Member>, kind: MemberKind) {
    match kind
    case AliasOf(ty) => TryResolve(members, ty)
    case MethodOf(i, o) => TryResolve(members, i) && TryResolve(members, o)
    case ErrorOf(ty) => TryResolve(members, ty)
  }

  predicate AllResolved(members: seq<Member>) {
    forall i :: 0 <= i < |members| ==> ResolveKind(members, members[i].kind)
  }

  /** A whole description. */
  function ReadInterface(t: string): Option<Interface> {
    var (doc, c) := ReadDoc(t, Cursor(0, 0, None));
    match TakeKeyword(t, c, "interface")
    case None => None
    case Some(d) =>
      var e := Blanks(t, true, d);
      var name := WordOf(t, e.p);
      if !InterfaceName(name) then None
      else
        match ReadMembers(t, e.(p := e.p + |name|), [])
        case None => None
        case Some(members) => if AllResolved(members) then Some(Interface(name, doc, members)) else None
  }
}
