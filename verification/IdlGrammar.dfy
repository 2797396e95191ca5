/** The words and signs of an interface description, and which texts consist of them: exactly these are accepted
    (lib/interface.c, lib/scanner.c). */
module IdlGrammar {
  import opened Text
  import opened Tokens
  import opened Idl
  import opened IdlReferences
  import opened IdlRoundTrip
  import IdlSound

  // ---------------------------------------------------------------- words and signs

  /** A word or a sign. The comment in front of some of them is documentation. */
  datatype Lexeme = Lexeme(text: string, documented: bool)

  function Plain(text: string): Lexeme {
    Lexeme(text, false)
  }

  function SimpleWord(ty: Type): string {
    match ty
    case Bool => "bool"
    case Int => "int"
    case Float => "float"
    case String => "string"
    case _ => "object"
  }

  function TypeLexemes(ty: Type): seq<Lexeme>
    decreases ty, 0
  {
    match ty
    case Array(e) => [Plain("[")] + ([Plain("]")] + TypeLexemes(e))
    case Map(e) => [Plain("[")] + ([Plain("string")] + ([Plain("]")] + TypeLexemes(e)))
    case Maybe(e) => [Plain("?")] + TypeLexemes(e)
    case Alias(name) => [Plain(name)]
    case Record(_, fields) => [Plain("(")] + FieldLexemes(fields, true)
    case _ => [Plain(SimpleWord(ty))]
  }

  function FieldLexemes(fields: seq<TypeField>, first: bool): seq<Lexeme>
    decreases fields, 0
  {
    if fields == [] then [Plain(")")]
    else
      Comma(first) + ([Lexeme(fields[0].name, true)] + (ColonType(fields[0]) + FieldLexemes(fields[1..], false)))
  }

  function Comma(first: bool): seq<Lexeme> {
    if first then [] else [Plain(",")]
  }

  function ColonType(f: TypeField): seq<Lexeme>
    decreases f, 0
  {
    if f.typ.None? then [] else [Plain(":")] + TypeLexemes(f.typ.value)
  }

  function KindLexemes(kind: MemberKind): seq<Lexeme> {
    match kind
    case AliasOf(ty) => TypeLexemes(ty)
    case MethodOf(i, o) => TypeLexemes(i) + ([Plain("->")] + TypeLexemes(o))
    case ErrorOf(ty) => TypeLexemes(ty)
  }

  function MemberLexemes(ms: seq<Member>): seq<Lexeme> {
    if ms == [] then []
    else
      [Plain(Keyword(ms[0].kind))] + ([Lexeme(ms[0].name, true)] + (KindLexemes(ms[0].kind) + MemberLexemes(ms[1..])))
  }

  function Lexemes(i: Interface): seq<Lexeme> {
    [Lexeme("interface", true)] + ([Plain(i.name)] + MemberLexemes(i.members))
  }

  /** The documentation in an interface, in the order of the text. */
  function TypeDocs(ty: Type): seq<Option<string>>
    decreases ty, 0
  {
    match ty
    case Array(e) => TypeDocs(e)
    case Map(e) => TypeDocs(e)
    case Maybe(e) => TypeDocs(e)
    case Record(_, fields) => FieldDocs(fields)
    case _ => []
  }

  function FieldDocs(fields: seq<TypeField>): seq<Option<string>>
    decreases fields, 0
  {
    if fields == [] then []
    else
      [fields[0].doc] + ((if fields[0].typ.None? then [] else TypeDocs(fields[0].typ.value)) + FieldDocs(fields[1..]))
  }

  function KindDocs(kind: MemberKind): seq<Option<string>> {
    match kind
    case AliasOf(ty) => TypeDocs(ty)
    case MethodOf(i, o) => TypeDocs(i) + TypeDocs(o)
    case ErrorOf(ty) => TypeDocs(ty)
  }

  function MemberDocs(ms: seq<Member>): seq<Option<string>> {
    if ms == [] then [] else [ms[0].doc] + (KindDocs(ms[0].kind) + MemberDocs(ms[1..]))
  }

  function Docs(i: Interface): seq<Option<string>> {
    [i.doc] + MemberDocs(i.members)
  }

  // ---------------------------------------------------------------- scanning a text

  /** A scan ends at a cursor and has come by some documentation, or it has not found what it should. */
  datatype Scan = Lost | Found(end: Cursor, docs: seq<Option<string>>)

  predicate LexemeAt(t: string, p: nat, w: string)
    requires p <= |t|
  {
    w != "" && if IsAlpha(w[0]) then KeywordAt(t, p, w) else Has(t, p, w)
  }

  /** Moves over blanks and comments and takes a word or a sign. */
  function Step(t: string, c: Cursor, x: Lexeme): (s: Scan)
    requires c.p <= |t|
    ensures s.Found? ==> c.p < s.end.p <= |t|
  {
    var d := Blanks(t, true, c);
    if !LexemeAt(t, d.p, x.text) then Lost
    else if x.documented then
      Found(d.(p := d.p + |x.text|, comment := None),
            [if d.comment.Some? then Some(CommentText(t, d.comment.value)) else None])
    else Found(d.(p := d.p + |x.text|), [])
  }

  function After(docs: seq<Option<string>>, s: Scan): Scan {
    if s.Lost? then Lost else Found(s.end, docs + s.docs)
  }

  /** Takes several of them. */
  function Scanned(t: string, c: Cursor, xs: seq<Lexeme>): (s: Scan)
    requires c.p <= |t|
    ensures s.Found? ==> c.p <= s.end.p <= |t|
    decreases |xs|
  {
    if xs == [] then Found(c, [])
    else
      match Step(t, c, xs[0])
      case Lost => Lost
      case Found(d, doc) => After(doc, Scanned(t, d, xs[1..]))
  }

  function Count(xs: seq<Lexeme>): nat {
    if xs == [] then 0 else (if xs[0].documented then 1 else 0) + Count(xs[1..])
  }

  lemma {:induction false} CountConcat(a: seq<Lexeme>, b: seq<Lexeme>)
    ensures Count(a + b) == Count(a) + Count(b)
  {
    if a == [] {
      assert a + b == b;
    } else {
      assert (a + b)[1..] == a[1..] + b;
      CountConcat(a[1..], b);
    }
  }

  lemma {:induction false} ScannedCount(t: string, c: Cursor, xs: seq<Lexeme>)
    requires c.p <= |t| && Scanned(t, c, xs).Found?
    ensures |Scanned(t, c, xs).docs| == Count(xs)
    decreases |xs|
  {
    hide Blanks, LexemeAt, CommentText;
    if xs != [] {
      ScannedCount(t, Step(t, c, xs[0]).end, xs[1..]);
    }
  }

  lemma {:induction false} ScannedConcat(t: string, c: Cursor, a: seq<Lexeme>, b: seq<Lexeme>)
    requires c.p <= |t|
    ensures Scanned(t, c, a + b) ==
      if Scanned(t, c, a).Lost? then Lost
      else After(Scanned(t, c, a).docs, Scanned(t, Scanned(t, c, a).end, b))
    decreases |a|
  {
    hide Step;
    if a == [] {
      assert a + b == b;
      NoDocs(Scanned(t, c, b));
    } else {
      assert (a + b)[1..] == a[1..] + b;
      var s := Step(t, c, a[0]);
      if s.Found? {
        ScannedConcat(t, s.end, a[1..], b);
        var u := Scanned(t, s.end, a[1..]);
        if u.Found? {
          AfterTwice(s.docs, u.docs, Scanned(t, u.end, b));
        }
      }
    }
  }

  lemma NoDocs(s: Scan)
    ensures After([], s) == s
  {
  }

  lemma AfterTwice(a: seq<Option<string>>, b: seq<Option<string>>, s: Scan)
    ensures After(a, After(b, s)) == After(a + b, s)
  {
  }

  /** Two scans, one behind the other. */
  lemma Join(t: string, c: Cursor, a: seq<Lexeme>, x: seq<Option<string>>, d: Cursor, b: seq<Lexeme>,
      y: seq<Option<string>>, e: Cursor)
    requires c.p <= |t| && Scanned(t, c, a) == Found(d, x) && Scanned(t, d, b) == Found(e, y)
    ensures Scanned(t, c, a + b) == Found(e, x + y)
  {
    hide Scanned;
    ScannedConcat(t, c, a, b);
  }

  lemma JoinOne(t: string, c: Cursor, x: Lexeme, d: Cursor, b: seq<Lexeme>, y: seq<Option<string>>, e: Cursor)
    requires c.p <= |t| && Step(t, c, x).Found? && Step(t, c, x).end == d && Scanned(t, d, b) == Found(e, y)
    ensures Scanned(t, c, [x] + b) == Found(e, Step(t, c, x).docs + y)
  {
    hide Step;
    assert ([x] + b)[1..] == b;
  }

  /** A scan that can be told apart into two. */
  lemma Split(t: string, c: Cursor, a: seq<Lexeme>, x: seq<Option<string>>, b: seq<Lexeme>, y: seq<Option<string>>,
      e: Cursor) returns (d: Cursor)
    requires c.p <= |t| && Scanned(t, c, a + b) == Found(e, x + y) && |x| == Count(a)
    ensures d.p <= |t| && Scanned(t, c, a) == Found(d, x) && Scanned(t, d, b) == Found(e, y)
  {
    hide Scanned, Count;
    ScannedConcat(t, c, a, b);
    ScannedCount(t, c, a);
    var u, v := Scanned(t, c, a).docs, Scanned(t, Scanned(t, c, a).end, b).docs;
    assert (u + v)[..|x|] == u && (u + v)[|x|..] == v && (x + y)[..|x|] == x && (x + y)[|x|..] == y;
    d := Scanned(t, c, a).end;
  }

  lemma SplitOne(t: string, c: Cursor, x: Lexeme, doc: seq<Option<string>>, b: seq<Lexeme>, y: seq<Option<string>>,
      e: Cursor) returns (d: Cursor)
    requires c.p <= |t| && Scanned(t, c, [x] + b) == Found(e, doc + y) && |doc| == if x.documented then 1 else 0
    ensures d.p <= |t| && Step(t, c, x) == Found(d, doc) && Scanned(t, d, b) == Found(e, y)
  {
    hide Blanks, LexemeAt, CommentText;
    assert ([x] + b)[1..] == b;
    var s := Step(t, c, x);
    d := s.end;
    var v := Scanned(t, d, b).docs;
    assert (s.docs + v)[..|doc|] == s.docs && (s.docs + v)[|doc|..] == v;
    assert (doc + y)[..|doc|] == doc && (doc + y)[|doc|..] == y;
  }

  lemma {:induction false} TypeCount(ty: Type)
    ensures Count(TypeLexemes(ty)) == |TypeDocs(ty)|
    decreases ty, 0
  {
    match ty
    case Array(e) =>
      TypeCount(e);
      CountConcat([Plain("[")], [Plain("]")] + TypeLexemes(e));
      CountConcat([Plain("]")], TypeLexemes(e));
    case Map(e) =>
      TypeCount(e);
      CountConcat([Plain("[")], [Plain("string")] + ([Plain("]")] + TypeLexemes(e)));
      CountConcat([Plain("string")], [Plain("]")] + TypeLexemes(e));
      CountConcat([Plain("]")], TypeLexemes(e));
    case Maybe(e) =>
      TypeCount(e);
      CountConcat([Plain("?")], TypeLexemes(e));
    case Record(_, fields) =>
      FieldsCount(fields, true);
      CountConcat([Plain("(")], FieldLexemes(fields, true));
    case _ =>
  }

  lemma {:induction false} FieldsCount(fields: seq<TypeField>, first: bool)
    ensures Count(FieldLexemes(fields, first)) == |FieldDocs(fields)|
    decreases fields, 0
  {
    if fields != [] {
      var f, rest := fields[0], FieldLexemes(fields[1..], false);
      FieldsCount(fields[1..], false);
      ColonCount(f);
      CountConcat(ColonType(f), rest);
      CountConcat([Lexeme(f.name, true)], ColonType(f) + rest);
      CountConcat(Comma(first), [Lexeme(f.name, true)] + (ColonType(f) + rest));
    }
  }

  lemma {:induction false} ColonCount(f: TypeField)
    ensures Count(ColonType(f)) == if f.typ.None? then 0 else |TypeDocs(f.typ.value)|
    decreases f, 0
  {
    if f.typ.Some? {
      TypeCount(f.typ.value);
      CountConcat([Plain(":")], TypeLexemes(f.typ.value));
    }
  }

  // ---------------------------------------------------------------- single words and signs

  lemma OneOnly(t: string, c: Cursor, x: Lexeme)
    requires c.p <= |t|
    ensures Scanned(t, c, [x]) == Step(t, c, x)
  {
    hide Step;
    var s := Step(t, c, x);
    if s.Found? {
      assert Scanned(t, s.end, []) == Found(s.end, []);
      assert s.docs + [] == s.docs;
    }
  }

  lemma SignAt(t: string, p: nat, ch: char)
    requires p <= |t| && ch != '\0'
    ensures Has(t, p, [ch]) <==> At(t, p) == ch
  {
    if Has(t, p, [ch]) {
      HasAt(t, p, [ch], 0);
    }
  }

  lemma SignTaken(t: string, c: Cursor, ch: char)
    requires c.p <= |t| && ch != '\0' && !IsAlpha(ch)
    ensures Step(t, c, Plain([ch])) == if Take(t, c, ch).Some? then Found(Take(t, c, ch).value, []) else Lost
    ensures Take(t, c, ch).Some? <==> At(t, Blanks(t, true, c).p) == ch
  {
    hide Blanks, Has;
    SignAt(t, Blanks(t, true, c).p, ch);
  }

  lemma KeywordTaken(t: string, c: Cursor, w: string)
    requires c.p <= |t| && w != "" && IsAlpha(w[0])
    ensures Step(t, c, Plain(w)) == if TakeKeyword(t, c, w).Some? then Found(TakeKeyword(t, c, w).value, []) else Lost
    ensures TakeKeyword(t, c, w).Some? ==> IsAlpha(At(t, Blanks(t, true, c).p))
  {
    hide Blanks, CommentText;
  }

  lemma WordThere(t: string, p: nat, w: string)
    requires p <= |t| && w != "" && IsAlpha(w[0])
    ensures LexemeAt(t, p, w) <==> WordOf(t, p) == w
    ensures LexemeAt(t, p, w) ==> IsAlpha(At(t, p))
  {
    hide WordLength;
    if Has(t, p, w) {
      HasAt(t, p, w, 0);
    }
    assert WordLength(t, p) != 0 ==> IsAlpha(At(t, p)) by { LengthOfWord(t, p); }
  }

  lemma LengthOfWord(t: string, p: nat)
    requires p <= |t|
    ensures WordLength(t, p) != 0 ==> IsAlpha(At(t, p))
  {
  }

  /** A name with its documentation. */
  lemma NameTaken(t: string, c: Cursor, name: string)
    requires c.p <= |t| && name != "" && IsAlpha(name[0])
    ensures var (doc, e) := ReadDoc(t, c);
      Step(t, c, Lexeme(name, true)) ==
        if WordOf(t, e.p) == name then Found(e.(p := e.p + |name|), [doc]) else Lost
  {
    hide Blanks, CommentText, WordOf, LexemeAt;
    WordThere(t, Blanks(t, true, c).p, name);
  }

  // ---------------------------------------------------------------- types: what is read is there

  /** A type that is read consists of its words and signs, and has the documentation in front of its names. */
  lemma {:induction false} TypeSpelled(t: string, c: Cursor)
    requires c.p <= |t| && ReadType(t, c).Some?
    ensures var (ty, d) := ReadType(t, c).value; Scanned(t, c, TypeLexemes(ty)) == Found(d, TypeDocs(ty))
    decreases |t| - c.p, 4
  {
    hide Blanks, ReadFields, ReadType, Scanned, Step, Simple, WordOf, Take, TakeKeyword, TypeName, FieldLexemes,
      FieldDocs;
    TypeIs(t, c);
    var d0 := Blanks(t, true, c);
    var (ty, d) := ReadType(t, c).value;
    if At(t, d0.p) == '[' {
      ElementSpelled(t, c);
    } else if At(t, d0.p) == '?' {
      SignTakenHere(t, c, '?');
      TypeSpelled(t, d0.(p := d0.p + 1));
      JoinOne(t, c, Plain("?"), d0.(p := d0.p + 1), TypeLexemes(ty.element), TypeDocs(ty.element), d);
      NoneBefore(TypeDocs(ty.element));
    } else if Simple(t, d0.p).Some? {
      SimpleSpelled(t, c);
    } else if At(t, d0.p) == '(' {
      SignTakenHere(t, c, '(');
      var fields := FieldsSpelled(t, d0.(p := d0.p + 1), false, []);
      assert ty.fields == fields;
      JoinOne(t, c, Plain("("), d0.(p := d0.p + 1), FieldLexemes(fields, true), FieldDocs(fields), d);
      NoneBefore(FieldDocs(fields));
    } else {
      AliasSpelled(t, c);
    }
  }

  lemma TypeIs(t: string, c: Cursor)
    requires c.p <= |t|
    ensures ReadType(t, c) == ReadTypeAt(t, Blanks(t, true, c))
  {
    hide ReadTypeAt, Blanks;
  }

  lemma NoneBefore(docs: seq<Option<string>>)
    ensures [] + docs == docs
  {
  }

  lemma SignTakenHere(t: string, c: Cursor, ch: char)
    requires c.p <= |t| && ch != '\0' && !IsAlpha(ch) && At(t, Blanks(t, true, c).p) == ch
    ensures Blanks(t, true, c).p + 1 <= |t|
    ensures var d := Blanks(t, true, c);
      Step(t, c, Plain([ch])) == Found(d.(p := d.p + 1), []) && Take(t, c, ch) == Some(d.(p := d.p + 1))
  {
    hide Blanks, Step;
    SignTaken(t, c, ch);
  }

  lemma {:induction false} ElementSpelled(t: string, c: Cursor)
    requires c.p <= |t| && ReadType(t, c).Some? && At(t, Blanks(t, true, c).p) == '['
    ensures var (ty, d) := ReadType(t, c).value; Scanned(t, c, TypeLexemes(ty)) == Found(d, TypeDocs(ty))
    decreases |t| - c.p, 3
  {
    hide Blanks, ReadFields, ReadType, Scanned, Step, Simple, WordOf, Take, TakeKeyword, TypeName;
    TypeIs(t, c);
    SignTakenHere(t, c, '[');
    var d0 := Blanks(t, true, c);
    var inside := d0.(p := d0.p + 1);
    var isMap := TakeKeyword(t, inside, "string");
    var from := if isMap.Some? then isMap.value else inside;
    SignTaken(t, from, ']');
    var behind := Take(t, from, ']').value;
    TypeSpelled(t, behind);
    var (e, d) := ReadType(t, behind).value;
    JoinOne(t, from, Plain("]"), behind, TypeLexemes(e), TypeDocs(e), d);
    NoneBefore(TypeDocs(e));
    if isMap.Some? {
      KeywordTaken(t, inside, "string");
      JoinOne(t, inside, Plain("string"), from, [Plain("]")] + TypeLexemes(e), TypeDocs(e), d);
      JoinOne(t, c, Plain("["), inside, [Plain("string")] + ([Plain("]")] + TypeLexemes(e)), TypeDocs(e), d);
    } else {
      JoinOne(t, c, Plain("["), inside, [Plain("]")] + TypeLexemes(e), TypeDocs(e), d);
    }
  }

  lemma SimpleSpelled(t: string, c: Cursor)
    requires c.p <= |t| && Simple(t, Blanks(t, true, c).p).Some?
    ensures var (ty, q) := Simple(t, Blanks(t, true, c).p).value;
      && TypeLexemes(ty) == [Plain(SimpleWord(ty))] && TypeDocs(ty) == []
      && Scanned(t, c, TypeLexemes(ty)) == Found(Blanks(t, true, c).(p := q), [])
  {
    hide Blanks, KeywordAt, CommentText, Scanned;
    var ty := Simple(t, Blanks(t, true, c).p).value.0;
    OneOnly(t, c, Plain(SimpleWord(ty)));
  }

  lemma AliasSpelled(t: string, c: Cursor)
    requires c.p <= |t| && TypeName(WordOf(t, Blanks(t, true, c).p))
    ensures var d, w := Blanks(t, true, c), WordOf(t, Blanks(t, true, c).p);
      Scanned(t, c, TypeLexemes(Alias(w))) == Found(d.(p := d.p + |w|), TypeDocs(Alias(w)))
  {
    hide Blanks, WordOf, CommentText, Scanned, TypeName, LexemeAt;
    var w := WordOf(t, Blanks(t, true, c).p);
    TypeNameWord(w);
    WordThere(t, Blanks(t, true, c).p, w);
    OneOnly(t, c, Plain(w));
  }

  lemma {:induction false} FieldsSpelled(t: string, c: Cursor, isEnum: bool, fields: seq<TypeField>)
    returns (more: seq<TypeField>)
    requires c.p <= |t| && ReadFields(t, c, isEnum, fields).Some?
    ensures var (ty, d) := ReadFields(t, c, isEnum, fields).value;
      && ty.Record? && ty.fields == fields + more
      && Scanned(t, c, FieldLexemes(more, fields == [])) == Found(d, FieldDocs(more))
    decreases |t| - c.p, 3
  {
    hide Blanks, ReadFields, ReadField, ReadDoc, Scanned, Step, Take, FieldLexemes, FieldDocs;
    FieldsIs(t, c, isEnum, fields);
    var d0 := Blanks(t, true, c);
    var (ty, d) := ReadFields(t, c, isEnum, fields).value;
    if At(t, d0.p) == ')' {
      more := [];
      SignTakenHere(t, c, ')');
      OneOnly(t, c, Plain(")"));
      NoMoreFields(fields == []);
    } else {
      if fields != [] {
        SignTakenHere(t, c, ',');
      }
      var from := if fields == [] then c else d0.(p := d0.p + 1);
      DocIs(t, c, from, fields == []);
      var (doc, e) := ReadDoc(t, from);
      var f, rest, n := FieldSpelled(t, e, doc, isEnum, fields);
      more := [f] + rest;
      NameTaken(t, from, f.name);
      JoinOne(t, from, Lexeme(f.name, true), n, ColonType(f) + FieldLexemes(rest, false),
        ColonDocs(f) + FieldDocs(rest), d);
      FieldsUnfold(more, fields == []);
      if fields != [] {
        JoinOne(t, c, Plain(","), from, [Lexeme(f.name, true)] + (ColonType(f) + FieldLexemes(rest, false)),
          [doc] + (ColonDocs(f) + FieldDocs(rest)), d);
        NoneBefore([doc] + (ColonDocs(f) + FieldDocs(rest)));
      }
    }
  }

  function ColonDocs(f: TypeField): seq<Option<string>> {
    if f.typ.None? then [] else TypeDocs(f.typ.value)
  }

  lemma FieldsIs(t: string, c: Cursor, isEnum: bool, fields: seq<TypeField>)
    requires c.p <= |t|
    ensures ReadFields(t, c, isEnum, fields) == ReadFieldsAt(t, Blanks(t, true, c), isEnum, fields)
  {
    hide ReadFieldsAt, Blanks;
  }

  lemma NoMoreFields(first: bool)
    ensures FieldLexemes([], first) == [Plain(")")] && FieldDocs([]) == []
  {
  }

  lemma FieldsUnfold(fields: seq<TypeField>, first: bool)
    requires fields != []
    ensures var f, rest := fields[0], fields[1..];
      && FieldLexemes(fields, first) ==
           Comma(first) + ([Lexeme(f.name, true)] + (ColonType(f) + FieldLexemes(rest, false)))
      && FieldLexemes(fields, true) == [Lexeme(f.name, true)] + (ColonType(f) + FieldLexemes(rest, false))
      && FieldDocs(fields) == [f.doc] + (ColonDocs(f) + FieldDocs(rest))
  {
    hide TypeDocs, ColonType;
    var f, rest := fields[0], fields[1..];
    assert [] + ([Lexeme(f.name, true)] + (ColonType(f) + FieldLexemes(rest, false))) ==
      [Lexeme(f.name, true)] + (ColonType(f) + FieldLexemes(rest, false));
  }

  lemma DocIs(t: string, c: Cursor, from: Cursor, first: bool)
    requires c.p <= |t| && from.p <= |t| && (first ==> from == c)
    ensures first ==> ReadDoc(t, from) == ReadDoc(t, Blanks(t, true, c))
  {
    hide Blanks, CommentText;
    BlanksIdempotent(t, c);
  }

  /** A field from the end of its name on, and the others. */
  lemma {:induction false} FieldSpelled(t: string, e: Cursor, doc: Option<string>, isEnum: bool, fields: seq<TypeField>)
    returns (f: TypeField, rest: seq<TypeField>, n: Cursor)
    requires e.p <= |t| && ReadField(t, e, doc, isEnum, fields).Some?
    ensures f.name == WordOf(t, e.p) && f.name != "" && IsAlpha(f.name[0]) && f.doc == doc
    ensures n == e.(p := e.p + |f.name|) && n.p <= |t|
    ensures var (ty, d) := ReadField(t, e, doc, isEnum, fields).value;
      && ty.Record? && ty.fields == fields + ([f] + rest)
      && Scanned(t, n, ColonType(f) + FieldLexemes(rest, false)) == Found(d, ColonDocs(f) + FieldDocs(rest))
    decreases |t| - e.p, 2
  {
    hide Blanks, WordOf, ReadFields, ReadFieldType, Known, FieldName, Scanned, FieldLexemes, FieldDocs, ColonType;
    var name := WordOf(t, e.p);
    FieldNameWord(name);
    n := e.(p := e.p + |name|);
    IdlSound.SameBehindBlanks(t, n, name, doc, fields);
    var items := if fields == [] then At(t, Blanks(t, true, n).p) != ':' else isEnum;
    if items {
      f := TypeField(name, None, doc);
      rest := FieldsSpelled(t, n, true, fields + [f]);
      NothingBetween(f, rest);
      assert fields + [f] + rest == fields + ([f] + rest);
    } else {
      f, rest := FieldTypeSpelled(t, n, name, doc, fields);
    }
  }

  lemma NothingBetween(f: TypeField, rest: seq<TypeField>)
    requires f.typ.None?
    ensures ColonType(f) + FieldLexemes(rest, false) == FieldLexemes(rest, false)
    ensures ColonDocs(f) + FieldDocs(rest) == FieldDocs(rest)
  {
    hide FieldLexemes, FieldDocs;
  }

  lemma {:induction false} FieldTypeSpelled(t: string, n: Cursor, name: string, doc: Option<string>,
      fields: seq<TypeField>) returns (f: TypeField, rest: seq<TypeField>)
    requires n.p <= |t| && ReadFieldType(t, n, name, doc, fields).Some?
    ensures f.name == name && f.doc == doc
    ensures var (ty, d) := ReadFieldType(t, n, name, doc, fields).value;
      && ty.Record? && ty.fields == fields + ([f] + rest)
      && Scanned(t, n, ColonType(f) + FieldLexemes(rest, false)) == Found(d, ColonDocs(f) + FieldDocs(rest))
    decreases |t| - n.p, 1
  {
    hide Blanks, ReadFields, ReadType, Known, Scanned, Step, FieldLexemes, FieldDocs, Take, TypeLexemes, TypeDocs;
    var g := Take(t, n, ':').value;
    SignTaken(t, n, ':');
    TypeSpelled(t, g);
    var (ty, h) := ReadType(t, g).value;
    f := TypeField(name, Some(ty), doc);
    rest := FieldsSpelled(t, h, false, fields + [f]);
    var d := ReadFields(t, h, false, fields + [f]).value.1;
    JoinOne(t, n, Plain(":"), g, TypeLexemes(ty), TypeDocs(ty), h);
    NoneBefore(TypeDocs(ty));
    Join(t, n, ColonType(f), ColonDocs(f), h, FieldLexemes(rest, false), FieldDocs(rest), d);
    assert fields + [f] + rest == fields + ([f] + rest);
  }

  // ---------------------------------------------------------------- types: what is there is read

  /** A well-formed type whose words, signs and documentation are there is read. */
  lemma {:induction false} TypeIsRead(ty: Type, t: string, c: Cursor, d: Cursor)
    requires GoodType(ty) && c.p <= |t| && Scanned(t, c, TypeLexemes(ty)) == Found(d, TypeDocs(ty))
    ensures ReadType(t, c) == Some((ty, d))
    decreases ty, 2
  {
    hide Blanks, ReadType, ReadTypeAt, Scanned, Step, Simple, TypeName, FieldLexemes, FieldDocs, ReadFields, GoodField,
      DistinctFields, SimpleWord;
    TypeIs(t, c);
    match ty
    case Array(e) => ElementIsRead(e, false, t, c, d);
    case Map(e) => ElementIsRead(e, true, t, c, d);
    case Maybe(e) =>
      NoneBefore(TypeDocs(e));
      var inside := SplitOne(t, c, Plain("?"), [], TypeLexemes(e), TypeDocs(e), d);
      TypeIsRead(e, t, inside, d);
      SignThere(t, c, '?', inside);
      MaybeIs(t, Blanks(t, true, c));
    case Record(isEnum, fields) =>
      NoneBefore(FieldDocs(fields));
      var inside := SplitOne(t, c, Plain("("), [], FieldLexemes(fields, true), FieldDocs(fields), d);
      AllComing(isEnum, fields);
      FieldsAreRead(fields, [], isEnum, t, inside, d);
      assert [] + fields == fields;
      SignThere(t, c, '(', inside);
      RecordIs(t, Blanks(t, true, c));
    case Alias(name) => AliasIsRead(name, t, c, d);
    case _ => SimpleIsRead(ty, t, c, d);
  }

  /** A sign that was taken. */
  lemma SignThere(t: string, c: Cursor, ch: char, d: Cursor)
    requires c.p <= |t| && ch != '\0' && !IsAlpha(ch) && Step(t, c, Plain([ch])) == Found(d, [])
    ensures var b := Blanks(t, true, c);
      At(t, b.p) == ch && b.p + 1 <= |t| && d == b.(p := b.p + 1) && Take(t, c, ch) == Some(d)
  {
    hide Blanks;
    SignTaken(t, c, ch);
  }

  lemma MaybeIs(t: string, d: Cursor)
    requires d.p + 1 <= |t| && At(t, d.p) == '?'
    ensures ReadTypeAt(t, d) ==
      match ReadType(t, d.(p := d.p + 1))
      case None => None
      case Some((e, end)) => if e.Maybe? then None else Some((Maybe(e), end))
  {
    hide ReadType, Simple, Take, TakeKeyword;
  }

  lemma RecordIs(t: string, d: Cursor)
    requires d.p + 1 <= |t| && At(t, d.p) == '('
    ensures ReadTypeAt(t, d) == ReadFields(t, d.(p := d.p + 1), false, [])
  {
    hide ReadFields, Simple, Take, TakeKeyword;
    NoWord(t, d.p);
  }

  lemma {:induction false} ElementIsRead(e: Type, isMap: bool, t: string, c: Cursor, d: Cursor)
    requires GoodType(e) && c.p <= |t|
    requires Scanned(t, c, TypeLexemes(if isMap then Map(e) else Array(e))) == Found(d, TypeDocs(e))
    ensures ReadType(t, c) == Some((if isMap then Map(e) else Array(e), d))
    decreases e, 3
  {
    hide Blanks, ReadType, ReadTypeAt, Scanned, Step, GoodType, TypeDocs, Take, TakeKeyword;
    NoneBefore(TypeDocs(e));
    TypeIs(t, c);
    var close := [Plain("]")] + TypeLexemes(e);
    var inside := SplitOne(t, c, Plain("["), [], if isMap then [Plain("string")] + close else close, TypeDocs(e), d);
    var from := inside;
    if isMap {
      from := SplitOne(t, inside, Plain("string"), [], close, TypeDocs(e), d);
    }
    var behind := SplitOne(t, from, Plain("]"), [], TypeLexemes(e), TypeDocs(e), d);
    TypeIsRead(e, t, behind, d);
    SignThere(t, c, '[', inside);
    SignThere(t, from, ']', behind);
    KeywordTaken(t, inside, "string");
    ElementIs(t, Blanks(t, true, c));
  }

  lemma ElementIs(t: string, d: Cursor)
    requires d.p + 1 <= |t| && At(t, d.p) == '['
    ensures
      var inside := d.(p := d.p + 1);
      var isMap := TakeKeyword(t, inside, "string");
      var behind := Take(t, if isMap.Some? then isMap.value else inside, ']');
      ReadTypeAt(t, d) ==
        if behind.None? || ReadType(t, behind.value).None? then None
        else
          var (e, end) := ReadType(t, behind.value).value;
          Some((if isMap.Some? then Map(e) else Array(e), end))
  {
    hide ReadType, Take, TakeKeyword;
  }

  lemma AliasIsRead(name: string, t: string, c: Cursor, d: Cursor)
    requires TypeName(name) && c.p <= |t| && Scanned(t, c, [Plain(name)]) == Found(d, [])
    ensures ReadType(t, c) == Some((Alias(name), d))
  {
    hide Blanks, ReadType, Scanned, TypeName, WordOf, CommentText, LexemeAt, ReadFields, Simple;
    var b := Blanks(t, true, c);
    OneOnly(t, c, Plain(name));
    TypeNameWord(name);
    WordThere(t, b.p, name);
    NotSimple(t, b.p, name);
    TypeIs(t, c);
  }

  lemma SimpleIsRead(ty: Type, t: string, c: Cursor, d: Cursor)
    requires ty in {Bool, Int, Float, String, ForeignObject}
    requires c.p <= |t| && Scanned(t, c, [Plain(SimpleWord(ty))]) == Found(d, [])
    ensures ReadType(t, c) == Some((ty, d))
  {
    hide Blanks, ReadType, Scanned, CommentText, ReadFields, WordLength, Has;
    var b, w := Blanks(t, true, c), SimpleWord(ty);
    OneOnly(t, c, Plain(w));
    assert IsAlpha(w[0]);
    WordThere(t, b.p, w);
    OnlyKeyword(t, b.p, w);
    assert "bool" != "int" && "bool" != "float" && "int" != "float" && |"string"| == |"object"| == 6
      && "string"[0] != "object"[0];
    TypeIs(t, c);
  }

  lemma OnlyKeyword(t: string, p: nat, w: string)
    requires p <= |t| && KeywordAt(t, p, w)
    ensures forall k :: KeywordAt(t, p, k) ==> k == w
  {
  }

  /** Fields that may follow those in `done`. */
  ghost predicate Coming(fs: seq<TypeField>, done: seq<TypeField>, isEnum: bool) {
    && (forall i :: 0 <= i < |fs| ==> GoodField(fs[i], isEnum) && !Known(done, fs[i].name))
    && (forall i, j :: 0 <= i < j < |fs| ==> fs[i].name != fs[j].name) && (fs == [] && done == [] ==> !isEnum)
  }

  lemma AllComing(isEnum: bool, fields: seq<TypeField>)
    requires GoodType(Record(isEnum, fields))
    ensures Coming(fields, [], isEnum)
  {
    hide GoodField;
  }

  lemma ComingOn(fs: seq<TypeField>, done: seq<TypeField>, isEnum: bool)
    requires fs != [] && Coming(fs, done, isEnum)
    ensures GoodField(fs[0], isEnum) && !Known(done, fs[0].name) && Coming(fs[1..], done + [fs[0]], isEnum)
  {
    hide GoodField;
    var next := done + [fs[0]];
    forall i | 0 <= i < |fs[1..]| ensures !Known(next, fs[1..][i].name) {
      assert fs[0].name != fs[i+1].name && !Known(done, fs[i+1].name);
    }
  }

  lemma {:induction false} FieldsAreRead(fs: seq<TypeField>, done: seq<TypeField>, isEnum: bool, t: string, c: Cursor,
      d: Cursor)
    requires Coming(fs, done, isEnum) && c.p <= |t|
    requires Scanned(t, c, FieldLexemes(fs, done == [])) == Found(d, FieldDocs(fs))
    ensures ReadFields(t, c, isEnum && done != [], done) == Some((Record(isEnum, done + fs), d))
    decreases fs, 2
  {
    hide Blanks, Scanned, Step, FieldLexemes, FieldDocs, ReadFields, ReadField, ReadDoc, Coming, GoodField, Known;
    FieldsIs(t, c, isEnum && done != [], done);
    if fs == [] {
      NoMoreFields(done == []);
      OneOnly(t, c, Plain(")"));
      SignThere(t, c, ')', d);
      assert done + fs == done;
      NoneComing(done, isEnum);
    } else {
      ComingOn(fs, done, isEnum);
      FieldsUnfold(fs, done == []);
      var f, rest := fs[0], fs[1..];
      var xs, docs := ColonType(f) + FieldLexemes(rest, false), ColonDocs(f) + FieldDocs(rest);
      var from := c;
      if done != [] {
        NoneBefore([f.doc] + docs);
        from := SplitOne(t, c, Plain(","), [], [Lexeme(f.name, true)] + xs, [f.doc] + docs, d);
        SignThere(t, c, ',', from);
      }
      var n := SplitOne(t, from, Lexeme(f.name, true), [f.doc], xs, docs, d);
      GoodFieldParts(f, isEnum);
      FieldNameWord(f.name);
      NameTaken(t, from, f.name);
      DocIs(t, c, from, done == []);
      NotSign(t, c, f.name, done, from);
      FieldIsRead(fs, done, isEnum, t, ReadDoc(t, from).1, n, d);
      assert done + [f] + rest == done + fs;
    }
  }

  lemma NoneComing(done: seq<TypeField>, isEnum: bool)
    requires Coming([], done, isEnum)
    ensures (isEnum && done != []) == isEnum
  {
  }

  /** What comes is no closing parenthesis. */
  lemma NotSign(t: string, c: Cursor, name: string, done: seq<TypeField>, from: Cursor)
    requires c.p <= |t| && from.p <= |t| && name != "" && IsAlpha(name[0])
    requires if done == [] then from == c else At(t, Blanks(t, true, c).p) == ','
    requires WordOf(t, ReadDoc(t, from).1.p) == name
    ensures At(t, Blanks(t, true, c).p) != ')'
  {
    hide Blanks, CommentText, WordOf;
    WordThere(t, ReadDoc(t, from).1.p, name);
  }

  /** The first of some fields from its name on, and the others. */
  lemma {:induction false} FieldIsRead(fs: seq<TypeField>, done: seq<TypeField>, isEnum: bool, t: string, e: Cursor,
      n: Cursor, d: Cursor)
    requires fs != [] && Coming(fs, done, isEnum) && e.p <= |t|
    requires WordOf(t, e.p) == fs[0].name && n == e.(p := e.p + |fs[0].name|) && n.p <= |t|
    requires Scanned(t, n, ColonType(fs[0]) + FieldLexemes(fs[1..], false)) ==
               Found(d, ColonDocs(fs[0]) + FieldDocs(fs[1..]))
    ensures ReadField(t, e, fs[0].doc, isEnum && done != [], done) ==
      Some((Record(isEnum, done + [fs[0]] + fs[1..]), d))
    decreases fs, 1
  {
    hide Blanks, WordOf, Scanned, FieldLexemes, FieldDocs, ReadFields, ReadFieldType, Known, FieldName, Coming,
      GoodField, ColonType;
    ComingOn(fs, done, isEnum);
    var f, rest := fs[0], fs[1..];
    GoodFieldParts(f, isEnum);
    IdlSound.SameBehindBlanks(t, n, f.name, f.doc, done);
    if isEnum {
      NothingBetween(f, rest);
      FieldsAreRead(rest, done + [f], true, t, n, d);
      NextIsNoColon(rest, t, n);
    } else {
      FieldTypeIsRead(fs, done, t, n, d);
      ColonIsNext(f, FieldLexemes(rest, false), t, n);
    }
    ItemIs(t, e, f.doc, isEnum, done);
  }

  lemma ItemIs(t: string, e: Cursor, doc: Option<string>, isEnum: bool, fields: seq<TypeField>)
    requires e.p <= |t| && FieldName(WordOf(t, e.p)) && !Known(fields, WordOf(t, e.p))
    requires fields == [] ==>
      (At(t, Blanks(t, true, e.(p := e.p + |WordOf(t, e.p)|)).p) == ':' <==> !isEnum)
    ensures
      var name := WordOf(t, e.p);
      var n := e.(p := e.p + |name|);
      ReadField(t, e, doc, isEnum && fields != [], fields) ==
        if isEnum then ReadFields(t, n, true, fields + [TypeField(name, None, doc)])
        else ReadFieldType(t, n, name, doc, fields)
  {
    hide Blanks, WordOf, ReadFields, ReadFieldType, Known, FieldName;
    var name := WordOf(t, e.p);
    IdlSound.SameBehindBlanks(t, e.(p := e.p + |name|), name, doc, fields);
  }

  lemma NextIsNoColon(rest: seq<TypeField>, t: string, n: Cursor)
    requires n.p <= |t| && Scanned(t, n, FieldLexemes(rest, false)).Found?
    ensures At(t, Blanks(t, true, n).p) != ':'
  {
    hide Blanks, CommentText, ColonType;
    var x := FieldLexemes(rest, false)[0];
    assert x == Plain(")") || x == Plain(",");
    SignTaken(t, n, if x == Plain(")") then ')' else ',');
  }

  lemma ColonIsNext(f: TypeField, more: seq<Lexeme>, t: string, n: Cursor)
    requires n.p <= |t| && f.typ.Some? && Scanned(t, n, ColonType(f) + more).Found?
    ensures At(t, Blanks(t, true, n).p) == ':'
  {
    hide Blanks, CommentText, TypeLexemes;
    assert (ColonType(f) + more)[0] == Plain(":");
    SignTaken(t, n, ':');
  }

  lemma {:induction false} FieldTypeIsRead(fs: seq<TypeField>, done: seq<TypeField>, t: string, n: Cursor, d: Cursor)
    requires fs != [] && n.p <= |t|
    requires GoodField(fs[0], false) && !Known(done, fs[0].name) && Coming(fs[1..], done + [fs[0]], false)
    requires Scanned(t, n, ColonType(fs[0]) + FieldLexemes(fs[1..], false)) ==
               Found(d, ColonDocs(fs[0]) + FieldDocs(fs[1..]))
    ensures ReadFieldType(t, n, fs[0].name, fs[0].doc, done) == Some((Record(false, done + [fs[0]] + fs[1..]), d))
    decreases fs, 0
  {
    hide Blanks, Scanned, Step, FieldLexemes, FieldDocs, ReadFields, ReadType, Known, FieldName, Coming, GoodType,
      GoodDoc, TypeLexemes, TypeDocs, Take;
    var f, rest := fs[0], fs[1..];
    var ty := f.typ.value;
    ColonCount(f);
    var h := Split(t, n, ColonType(f), ColonDocs(f), FieldLexemes(rest, false), FieldDocs(rest), d);
    NoneBefore(TypeDocs(ty));
    var g := SplitOne(t, n, Plain(":"), [], TypeLexemes(ty), TypeDocs(ty), h);
    SignThere(t, n, ':', g);
    TypeIsRead(ty, t, g, h);
    FieldsAreRead(rest, done + [f], false, t, h, d);
    assert f == TypeField(f.name, Some(ty), f.doc);
  }

  // ---------------------------------------------------------------- members

  lemma KindSpelled(t: string, c: Cursor, keyword: string)
    requires c.p <= |t| && ReadKind(t, c, keyword).Some? && keyword in {"type", "method", "error"}
    ensures var (kind, d) := ReadKind(t, c, keyword).value;
      Keyword(kind) == keyword && Scanned(t, c, KindLexemes(kind)) == Found(d, KindDocs(kind))
  {
    hide Blanks, ReadType, Scanned, Step, TypeLexemes, TypeDocs;
    TypeSpelled(t, c);
    var (kind, d) := ReadKind(t, c, keyword).value;
    if kind.MethodOf? {
      var (i, m) := ReadType(t, c).value;
      ArrowStep(t, m);
      var from := Step(t, m, Plain("->")).end;
      TypeSpelled(t, from);
      JoinOne(t, m, Plain("->"), from, TypeLexemes(kind.output), TypeDocs(kind.output), d);
      NoneBefore(TypeDocs(kind.output));
      Join(t, c, TypeLexemes(i), TypeDocs(i), m, [Plain("->")] + TypeLexemes(kind.output), TypeDocs(kind.output), d);
    }
  }

  lemma ArrowStep(t: string, c: Cursor)
    requires c.p <= |t|
    ensures var e := Blanks(t, true, c);
      Step(t, c, Plain("->")) == if Has(t, e.p, "->") then Found(e.(p := e.p + 2), []) else Lost
  {
    hide Blanks, CommentText;
  }

  lemma KindIsRead(kind: MemberKind, t: string, c: Cursor, d: Cursor)
    requires GoodKind(kind) && c.p <= |t| && Scanned(t, c, KindLexemes(kind)) == Found(d, KindDocs(kind))
    ensures ReadKind(t, c, Keyword(kind)) == Some((kind, d))
  {
    hide Blanks, ReadType, Scanned, Step, TypeLexemes, TypeDocs, GoodType;
    match kind
    case AliasOf(ty) => TypeIsRead(ty, t, c, d);
    case ErrorOf(ty) => TypeIsRead(ty, t, c, d);
    case MethodOf(i, o) =>
      TypeCount(i);
      var m := Split(t, c, TypeLexemes(i), TypeDocs(i), [Plain("->")] + TypeLexemes(o), TypeDocs(o), d);
      NoneBefore(TypeDocs(o));
      var from := SplitOne(t, m, Plain("->"), [], TypeLexemes(o), TypeDocs(o), d);
      ArrowStep(t, m);
      TypeIsRead(i, t, c, m);
      TypeIsRead(o, t, from, d);
  }

  lemma KindCount(kind: MemberKind)
    ensures Count(KindLexemes(kind)) == |KindDocs(kind)|
  {
    hide TypeLexemes, TypeDocs;
    match kind
    case AliasOf(ty) => TypeCount(ty);
    case ErrorOf(ty) => TypeCount(ty);
    case MethodOf(i, o) =>
      TypeCount(i);
      TypeCount(o);
      CountConcat([Plain("->")], TypeLexemes(o));
      CountConcat(TypeLexemes(i), [Plain("->")] + TypeLexemes(o));
  }

  /** Only blanks and comments are left. */
  predicate AtEnd(t: string, c: Cursor)
    requires c.p <= |t|
  {
    At(t, Blanks(t, true, c).p) == '\0'
  }

  lemma {:induction false} MembersSpelled(t: string, c: Cursor, members: seq<Member>)
    returns (more: seq<Member>, d: Cursor)
    requires c.p <= |t| && ReadMembers(t, c, members).Some?
    ensures ReadMembers(t, c, members) == Some(members + more)
    ensures d.p <= |t| && Scanned(t, c, MemberLexemes(more)) == Found(d, MemberDocs(more)) && AtEnd(t, d)
    decreases |t| - c.p
  {
    hide Blanks, ReadDoc, ReadKind, WordOf, MemberName, HasMember, Scanned, Step, KindLexemes, KindDocs, Keyword,
      KeywordAt;
    var b := Blanks(t, true, c);
    if At(t, b.p) == '\0' {
      more, d := [], c;
      NothingScanned(t, c);
      EndIsRead(t, c, members);
      assert members + [] == members;
    } else {
      var keyword := MemberKeyword(t, b.p).value;
      var from, doc, e, name, kind, f := MemberUnfolds(t, c, members);
      var m := Member(name, doc, kind);
      var rest;
      rest, d := MembersSpelled(t, f, members + [m]);
      more := [m] + rest;
      var n := e.(p := e.p + |name|);
      KindSpelled(t, n, keyword);
      Join(t, n, KindLexemes(kind), KindDocs(kind), f, MemberLexemes(rest), MemberDocs(rest), d);
      var xs, docs := KindLexemes(kind) + MemberLexemes(rest), KindDocs(kind) + MemberDocs(rest);
      MemberNameWord(name);
      NameTaken(t, from, name);
      JoinOne(t, from, Lexeme(name, true), n, xs, docs, d);
      JoinOne(t, c, Plain(keyword), from, [Lexeme(name, true)] + xs, [doc] + docs, d);
      NoneBefore([doc] + docs);
      assert members + [m] + rest == members + more;
      MembersUnfold(more);
    }
  }

  lemma NothingScanned(t: string, c: Cursor)
    requires c.p <= |t|
    ensures Scanned(t, c, []) == Found(c, []) && MemberLexemes([]) == [] && MemberDocs([]) == []
  {
  }

  lemma MembersUnfold(ms: seq<Member>)
    requires ms != []
    ensures var m, rest := ms[0], ms[1..];
      && MemberLexemes(ms) ==
           [Plain(Keyword(m.kind))] + ([Lexeme(m.name, true)] + (KindLexemes(m.kind) + MemberLexemes(rest)))
      && MemberDocs(ms) == [m.doc] + (KindDocs(m.kind) + MemberDocs(rest))
  {
    hide KindLexemes, KindDocs, Keyword;
  }

  /** A member that is read, from its keyword on. */
  lemma MemberUnfolds(t: string, c: Cursor, members: seq<Member>)
    returns (from: Cursor, doc: Option<string>, e: Cursor, name: string, kind: MemberKind, f: Cursor)
    requires c.p <= |t| && ReadMembers(t, c, members).Some? && At(t, Blanks(t, true, c).p) != '\0'
    ensures MemberKeyword(t, Blanks(t, true, c).p).Some?
    ensures var keyword := MemberKeyword(t, Blanks(t, true, c).p).value;
      && keyword in {"type", "method", "error"} && from.p <= |t| && Step(t, c, Plain(keyword)) == Found(from, [])
      && (doc, e) == ReadDoc(t, from) && name == WordOf(t, e.p) && MemberName(name) && e.p + |name| <= |t|
      && ReadKind(t, e.(p := e.p + |name|), keyword) == Some((kind, f)) && c.p < f.p <= |t| && !HasMember(members, name)
      && ReadMembers(t, c, members) == ReadMembers(t, f, members + [Member(name, doc, kind)])
  {
    hide Blanks, ReadDoc, ReadKind, WordOf, MemberName, HasMember, KeywordAt, CommentText;
    var b := Blanks(t, true, c);
    var keyword := MemberKeyword(t, b.p).value;
    IdlSound.KeywordFits(t, b.p);
    from := b.(p := b.p + |keyword|);
    var (x, y) := ReadDoc(t, from);
    doc, e := x, y;
    name := WordOf(t, e.p);
    var (k, z) := ReadKind(t, e.(p := e.p + |name|), keyword).value;
    kind, f := k, z;
    MemberKeywordThere(t, b.p);
  }

  lemma MemberKeywordThere(t: string, p: nat)
    requires p <= |t| && MemberKeyword(t, p).Some?
    ensures LexemeAt(t, p, MemberKeyword(t, p).value)
  {
    hide KeywordAt;
  }

  lemma {:induction false} MembersAreRead(ms: seq<Member>, done: seq<Member>, t: string, c: Cursor, d: Cursor)
    requires MembersAhead(ms, done) && c.p <= |t|
    requires Scanned(t, c, MemberLexemes(ms)) == Found(d, MemberDocs(ms)) && AtEnd(t, d)
    ensures ReadMembers(t, c, done) == Some(done + ms)
    decreases ms
  {
    hide Blanks, ReadDoc, ReadKind, ReadMembers, WordOf, HasMember, Scanned, Step, KindLexemes, KindDocs, Keyword,
      KeywordAt, MembersAhead, GoodMember, MemberLexemes, MemberDocs, MemberName;
    if ms == [] {
      NothingScanned(t, c);
      EndIsRead(t, c, done);
      assert done + ms == done;
    } else {
      var m, rest := ms[0], ms[1..];
      MembersAheadStep(ms, done, m);
      MembersUnfold(ms);
      GoodMemberParts(m);
      var keyword := Keyword(m.kind);
      KeywordOf(m.kind);
      var xs, docs := KindLexemes(m.kind) + MemberLexemes(rest), KindDocs(m.kind) + MemberDocs(rest);
      NoneBefore([m.doc] + docs);
      var from := SplitOne(t, c, Plain(keyword), [], [Lexeme(m.name, true)] + xs, [m.doc] + docs, d);
      var n := SplitOne(t, from, Lexeme(m.name, true), [m.doc], xs, docs, d);
      KindCount(m.kind);
      var f := Split(t, n, KindLexemes(m.kind), KindDocs(m.kind), MemberLexemes(rest), MemberDocs(rest), d);
      KindIsRead(m.kind, t, n, f);
      MemberNameWord(m.name);
      NameTaken(t, from, m.name);
      KeywordStep(t, c, keyword);
      MemberStep(t, c, done, keyword, m.doc, m.name, m.kind, f);
      MembersAreRead(rest, done + [m], t, f, d);
      assert done + [m] + rest == done + ms;
    }
  }

  lemma KeywordOf(kind: MemberKind)
    ensures Keyword(kind) in {"type", "method", "error"}
  {
  }

  lemma EndIsRead(t: string, c: Cursor, done: seq<Member>)
    requires c.p <= |t| && AtEnd(t, c)
    ensures ReadMembers(t, c, done) == Some(done)
  {
    hide Blanks;
  }

  lemma KeywordStep(t: string, c: Cursor, w: string)
    requires c.p <= |t| && w in {"type", "method", "error"} && Step(t, c, Plain(w)).Found?
    ensures var b := Blanks(t, true, c);
      && At(t, b.p) != '\0' && KeywordAt(t, b.p, w) && (forall k :: KeywordAt(t, b.p, k) ==> k == w)
      && Step(t, c, Plain(w)).end == b.(p := b.p + |w|)
  {
    hide Blanks, CommentText, KeywordAt;
    var b := Blanks(t, true, c);
    WordThere(t, b.p, w);
    OnlyKeyword(t, b.p, w);
  }

  // ---------------------------------------------------------------- interfaces

  /** What is accepted are exactly the texts that consist of the words and signs of a good interface, with blanks and
      comments between them; and it is read as that interface, with the comments in front of its names. */
  lemma AcceptedExactly(t: string, i: Interface)
    ensures ReadInterface(t) == Some(i) <==>
      && GoodInterface(i)
      && var s := Scanned(t, Cursor(0, 0, None), Lexemes(i)); s.Found? && s.docs == Docs(i) && AtEnd(t, s.end)
  {
    hide Scanned, Docs, AtEnd, Lexemes, GoodInterface, ReadInterface;
    if ReadInterface(t) == Some(i) {
      IdlSound.AcceptedInterfaceIsGood(t);
      InterfaceSpelled(t);
    }
    var s := Scanned(t, Cursor(0, 0, None), Lexemes(i));
    if GoodInterface(i) && s.Found? && s.docs == Docs(i) && AtEnd(t, s.end) {
      InterfaceIsRead(t, i);
    }
  }

  lemma InterfaceSpelled(t: string)
    requires ReadInterface(t).Some?
    ensures var i := ReadInterface(t).value;
      var s := Scanned(t, Cursor(0, 0, None), Lexemes(i)); s.Found? && s.docs == Docs(i) && AtEnd(t, s.end)
  {
    hide Blanks, ReadMembers, WordOf, InterfaceName, AllResolved, Scanned, Step, AtEnd, KeywordAt, CommentText,
      MemberDocs, MemberLexemes;
    var c := Cursor(0, 0, None);
    var i := ReadInterface(t).value;
    var (doc, e) := ReadDoc(t, c);
    var k := TakeKeyword(t, e, "interface").value;
    HeadStep(t, c);
    var b := Blanks(t, true, k);
    var n := b.(p := b.p + |i.name|);
    InterfaceNameWord(i.name);
    WordThere(t, b.p, i.name);
    PlainStep(t, k, i.name);
    var more, d := MembersSpelled(t, n, []);
    assert [] + more == more;
    NoneBefore(MemberDocs(more));
    JoinOne(t, k, Plain(i.name), n, MemberLexemes(more), MemberDocs(more), d);
    JoinOne(t, c, Lexeme("interface", true), k, [Plain(i.name)] + MemberLexemes(more), MemberDocs(more), d);
  }

  lemma PlainStep(t: string, c: Cursor, w: string)
    requires c.p <= |t|
    ensures var b := Blanks(t, true, c);
      Step(t, c, Plain(w)) == if LexemeAt(t, b.p, w) then Found(b.(p := b.p + |w|), []) else Lost
  {
    hide Blanks, CommentText, LexemeAt;
  }

  /** The keyword and its documentation. */
  lemma HeadStep(t: string, c: Cursor)
    requires c.p <= |t|
    ensures var (doc, e) := ReadDoc(t, c);
      var k := TakeKeyword(t, e, "interface");
      Step(t, c, Lexeme("interface", true)) == if k.Some? then Found(k.value, [doc]) else Lost
  {
    hide Blanks, CommentText, KeywordAt;
    var (doc, e) := ReadDoc(t, c);
    BlanksTwice(t, true, c);
    Forgotten(t, Blanks(t, true, c));
  }

  lemma Forgotten(t: string, d: Cursor)
    requires d.p <= |t| && Blanks(t, true, d) == d
    ensures Blanks(t, true, d.(comment := None)) == d.(comment := None)
  {
  }

  lemma InterfaceIsRead(t: string, i: Interface)
    requires GoodInterface(i) && Scanned(t, Cursor(0, 0, None), Lexemes(i)).Found?
    requires var s := Scanned(t, Cursor(0, 0, None), Lexemes(i)); s.docs == Docs(i) && AtEnd(t, s.end)
    ensures ReadInterface(t) == Some(i)
  {
    hide Blanks, ReadMembers, WordOf, InterfaceName, AllResolved, AllDefined, Scanned, Step, AtEnd, LexemeAt,
      CommentText, MemberDocs, MemberLexemes, ReadDoc, TakeKeyword, GoodMember;
    var c := Cursor(0, 0, None);
    var d := Scanned(t, c, Lexemes(i)).end;
    var xs, docs := MemberLexemes(i.members), MemberDocs(i.members);
    NoneBefore(docs);
    var k := SplitOne(t, c, Lexeme("interface", true), [i.doc], [Plain(i.name)] + xs, docs, d);
    var n := SplitOne(t, k, Plain(i.name), [], xs, docs, d);
    HeadStep(t, c);
    InterfaceNameWord(i.name);
    WordThere(t, Blanks(t, true, k).p, i.name);
    PlainStep(t, k, i.name);
    NothingDone(i);
    MembersAreRead(i.members, [], t, n, d);
    assert [] + i.members == i.members;
    ResolvedIffDefined(i.members);
  }
}
