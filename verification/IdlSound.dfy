/** What descriptions the reader accepts. */
module IdlSound {
  import opened Text
  import opened Tokens
  import opened Idl
  import opened IdlReferences
  import opened IdlRoundTrip

  // ---------------------------------------------------------------- comments

  /** The comment that is pending, if any, is documentation of whole lines. */
  ghost predicate Pending(t: string, c: Cursor) {
    c.comment.Some? ==> GoodDoc(Some(CommentText(t, c.comment.value)))
  }

  lemma CleanLine(t: string, p: nat)
    requires p <= |t|
    ensures NulFree(t[p..LineEnd(t, p)])
  {
    LineEndClean(t, p);
  }

  /** Spaces and tabs are skipped by both ways of reading. */
  lemma {:induction false} LeadingSkipped(t: string, c: Cursor)
    requires c.p <= |t|
    ensures Blanks(t, true, c) == Blanks(t, true, c.(p := SkipLeading(t, c.p)))
    decreases |t| - c.p
  {
    if At(t, c.p) == ' ' || At(t, c.p) == '\t' {
      LeadingSkipped(t, c.(p := c.p + 1));
    }
  }

  /** One line of a comment: where it ends, and what is behind it. */
  lemma CommentLine(t: string, c: Cursor) returns (line: string, next: Cursor)
    requires c.p <= |t| && At(t, c.p) == '#' && At(t, Blanks(t, true, c).p) != '\0'
    ensures c.p < next.p <= |t| && NulFree(line) && Blanks(t, true, next) == Blanks(t, true, c)
    ensures CommentText(t, c.p) == line + "\n" + CommentText(t, next.p)
  {
    hide SkipLeading, CommentText, Blanks;
    CommentUnfolds(t, c.p);
    var start := if At(t, c.p + 1) == ' ' then c.p + 2 else c.p + 1;
    var e := LineEnd(t, start);
    BlanksOverLine(t, c, e);
    LineEndStops(t, start);
    CleanLine(t, start);
    line := t[start..e];
    next := Cursor(e + 1, e + 1, if c.line == e then None else if c.comment.None? then Some(c.p) else c.comment);
    LeadingSkipped(t, next);
    next := next.(p := SkipLeading(t, e + 1));
  }

  lemma BlanksOverLine(t: string, c: Cursor, e: nat)
    requires c.p < |t| && At(t, c.p) == '#' && e == LineEnd(t, if At(t, c.p + 1) == ' ' then c.p + 2 else c.p + 1)
    ensures
      var comment := if c.comment.None? then Some(c.p) else c.comment;
      var next := Cursor(e + 1, e + 1, if c.line == e then None else comment);
      && (At(t, e) == '\n' ==> Blanks(t, true, c) == Blanks(t, true, next))
      && (At(t, e) == '\0' ==> Blanks(t, true, c).p == e)
  {
    assert LineEnd(t, c.p) == e;
    var comment := if c.comment.None? then Some(c.p) else c.comment;
    assert Blanks(t, true, c) == Blanks(t, true, Cursor(e, c.line, comment));
  }

  lemma GoodLines(line: string, rest: string)
    requires NulFree(line) && (rest == "" || GoodDoc(Some(rest)))
    ensures GoodDoc(Some(line + "\n" + rest))
  {
  }

  /** A comment that is followed by something ends with a line break. */
  lemma {:induction false} CommentIsGood(t: string, c: Cursor)
    requires c.p <= |t| && At(t, c.p) == '#' && At(t, Blanks(t, true, c).p) != '\0'
    ensures GoodDoc(Some(CommentText(t, c.p)))
    decreases |t| - c.p
  {
    hide GoodDoc, Blanks;
    var line, next := CommentLine(t, c);
    if At(t, next.p) == '#' {
      CommentIsGood(t, next);
    }
    GoodLines(line, CommentText(t, next.p));
  }

  lemma {:induction false} LineEndStops(t: string, p: nat)
    requires p <= |t|
    ensures At(t, LineEnd(t, p)) == '\n' || At(t, LineEnd(t, p)) == '\0'
    decreases |t| - p
  {
    if At(t, p) != '\n' && At(t, p) != '\0' {
      LineEndStops(t, p + 1);
    }
  }

  lemma {:induction false} BlanksPending(t: string, c: Cursor)
    requires c.p <= |t| && Pending(t, c) && At(t, Blanks(t, true, c).p) != '\0'
    ensures Pending(t, Blanks(t, true, c))
    decreases |t| - c.p
  {
    hide GoodDoc, CommentText;
    var ch := At(t, c.p);
    if ch == ' ' || ch == '\t' {
      BlanksPending(t, c.(p := c.p + 1));
    } else if ch == '\n' {
      BlanksPending(t, Cursor(c.p + 1, c.p + 1, if c.line == c.p then None else c.comment));
    } else if ch == '#' {
      CommentIsGood(t, c);
      BlanksPending(t, c.(p := LineEnd(t, c.p), comment := if c.comment.None? then Some(c.p) else c.comment));
    }
  }

  lemma DocIsGood(t: string, c: Cursor)
    requires c.p <= |t| && Pending(t, c) && At(t, ReadDoc(t, c).1.p) != '\0'
    ensures GoodDoc(ReadDoc(t, c).0) && Pending(t, ReadDoc(t, c).1)
  {
    hide CommentText, Blanks;
    BlanksPending(t, c);
  }

  // ---------------------------------------------------------------- types

  /** What has been read is in order. */
  ghost predicate Accepted(t: string, r: Option<(Type, Cursor)>) {
    r.Some? ==> GoodType(r.value.0) && Pending(t, r.value.1)
  }

  ghost predicate GoodFields(isEnum: bool, fields: seq<TypeField>) {
    && (fields == [] ==> !isEnum) && DistinctFields(fields)
    && forall i :: 0 <= i < |fields| ==> GoodField(fields[i], isEnum)
  }

  lemma NoNul(t: string, p: nat, w: string)
    requires p <= |t| && w == WordOf(t, p) && w != ""
    ensures At(t, p) != '\0'
  {
  }

  lemma GoodFieldAdded(isEnum: bool, fields: seq<TypeField>, f: TypeField)
    requires GoodFields(isEnum, fields) || fields == []
    requires GoodField(f, isEnum) && !Known(fields, f.name)
    ensures GoodFields(isEnum, fields + [f])
  {
    hide GoodField;
  }

  lemma NameNotEmpty(w: string)
    requires FieldName(w) || MemberName(w) || InterfaceName(w) || TypeName(w)
    ensures w != ""
  {
    if TypeName(w) {
      TypeNameWord(w);
    }
  }

  /** Every type that is read is well-formed. */
  lemma {:induction false} TypeIsGood(t: string, c: Cursor)
    requires c.p <= |t| && Pending(t, c)
    ensures Accepted(t, ReadType(t, c))
    decreases |t| - c.p, 5
  {
    hide Blanks, ReadTypeAt, GoodType, GoodDoc, CommentText;
    TypeAtIsGood(t, c);
  }

  lemma {:induction false} TypeAtIsGood(t: string, c: Cursor)
    requires c.p <= |t| && Pending(t, c)
    ensures Accepted(t, ReadTypeAt(t, Blanks(t, true, c)))
    decreases |t| - c.p, 4
  {
    hide Blanks, Simple, WordOf, ReadFields, ReadType, Take, TakeKeyword, TypeName, GoodDoc, CommentText;
    var d := Blanks(t, true, c);
    if ReadTypeAt(t, d).Some? {
      TypeNotAtEnd(t, d);
      BlanksPending(t, c);
      if At(t, d.p) == '[' {
        var inside := d.(p := d.p + 1);
        var k := TakeKeyword(t, inside, "string");
        if k.Some? {
          TakePending(t, inside, "string");
        }
        var from := if k.Some? then k.value else inside;
        TakeOnePending(t, from, ']');
        TypeIsGood(t, Take(t, from, ']').value);
      } else if At(t, d.p) == '?' {
        TypeIsGood(t, d.(p := d.p + 1));
      } else if Simple(t, d.p).Some? {
        SimpleIsGood(t, d.p);
      } else if At(t, d.p) == '(' {
        FieldsAreGood(t, d.(p := d.p + 1), false, []);
      } else {
      }
    }
  }

  lemma SimpleIsGood(t: string, p: nat)
    requires p <= |t| && Simple(t, p).Some?
    ensures GoodType(Simple(t, p).value.0)
  {
  }

  /** At the end of the text there is no type. */
  lemma TypeNotAtEnd(t: string, d: Cursor)
    requires d.p <= |t| && ReadTypeAt(t, d).Some?
    ensures At(t, d.p) != '\0'
  {
    hide ReadFields, ReadType, Take, TakeKeyword, TypeName;
    if At(t, d.p) == '\0' {
      assert WordOf(t, d.p) == "";
      EmptyNames();
    }
  }

  lemma EmptyNames()
    ensures !TypeName("") && !FieldName("") && !MemberName("") && !InterfaceName("")
  {
  }

  lemma TakePending(t: string, c: Cursor, word: string)
    requires c.p <= |t| && Pending(t, c) && word != "" && word[0] != '\0' && TakeKeyword(t, c, word).Some?
    ensures Pending(t, TakeKeyword(t, c, word).value)
  {
    hide Blanks, GoodDoc, CommentText;
    var d := Blanks(t, true, c);
    HasAt(t, d.p, word, 0);
    BlanksPending(t, c);
  }

  lemma TakeOnePending(t: string, c: Cursor, ch: char)
    requires c.p <= |t| && Pending(t, c) && ch != '\0' && Take(t, c, ch).Some?
    ensures Pending(t, Take(t, c, ch).value)
  {
    hide Blanks, GoodDoc, CommentText;
    BlanksPending(t, c);
  }

  lemma FieldsNotAtEnd(t: string, d: Cursor, isEnum: bool, fields: seq<TypeField>)
    requires d.p <= |t| && ReadFieldsAt(t, d, isEnum, fields).Some?
    ensures At(t, d.p) != '\0'
  {
    hide ReadFields, ReadType, ReadFieldType, FieldName;
    if At(t, d.p) == '\0' {
      assert WordOf(t, d.p) == "";
      EmptyNames();
    }
  }

  lemma {:induction false} FieldsAreGood(t: string, c: Cursor, isEnum: bool, fields: seq<TypeField>)
    requires c.p <= |t| && Pending(t, c) && GoodFields(isEnum, fields)
    ensures Accepted(t, ReadFields(t, c, isEnum, fields))
    decreases |t| - c.p, 3
  {
    hide Blanks, ReadField, ReadDoc, GoodFields, GoodDoc, CommentText;
    var d := Blanks(t, true, c);
    if ReadFieldsAt(t, d, isEnum, fields).Some? {
      FieldsNotAtEnd(t, d, isEnum, fields);
      BlanksPending(t, c);
      if At(t, d.p) == ')' {
        RecordIsGood(isEnum, fields);
      } else {
        var from := if fields == [] then d else d.(p := d.p + 1);
        var (doc, e) := ReadDoc(t, from);
        FieldNamed(t, e, doc, isEnum, fields);
        DocIsGood(t, from);
        FieldIsGood(t, e, doc, isEnum, fields);
      }
    }
  }

  lemma RecordIsGood(isEnum: bool, fields: seq<TypeField>)
    requires GoodFields(isEnum, fields)
    ensures GoodType(Record(isEnum, fields))
  {
    hide GoodField;
  }

  lemma FieldNamed(t: string, e: Cursor, doc: Option<string>, isEnum: bool, fields: seq<TypeField>)
    requires e.p <= |t| && ReadField(t, e, doc, isEnum, fields).Some?
    ensures At(t, e.p) != '\0'
  {
    hide ReadFields, ReadFieldType, WordOf, FieldName;
    EmptyNames();
    if WordOf(t, e.p) != "" {
      NoNul(t, e.p, WordOf(t, e.p));
    }
  }

  lemma {:induction false} FieldIsGood(t: string, e: Cursor, doc: Option<string>, isEnum: bool, fields: seq<TypeField>)
    requires e.p <= |t| && Pending(t, e) && GoodDoc(doc) && GoodFields(isEnum, fields)
    ensures Accepted(t, ReadField(t, e, doc, isEnum, fields))
    decreases |t| - e.p, 2
  {
    hide Blanks, WordOf, ReadFields, ReadFieldType, Known, FieldName, GoodFields, GoodDoc, CommentText;
    var name := WordOf(t, e.p);
    if FieldName(name) {
      NameNotEmpty(name);
      var n := e.(p := e.p + |name|);
      SameBehindBlanks(t, n, name, doc, fields);
      var first := fields == [];
      var items := if first then At(t, Blanks(t, true, n).p) != ':' else isEnum;
      if !items {
        FirstIsObject(isEnum, fields);
        FieldTypeIsGood(t, n, name, doc, fields);
      } else if !Known(fields, name) {
        ItemAdded(isEnum, fields, TypeField(name, None, doc));
        FieldsAreGood(t, n, true, fields + [TypeField(name, None, doc)]);
      }
    }
  }

  lemma FirstIsObject(isEnum: bool, fields: seq<TypeField>)
    requires GoodFields(isEnum, fields)
    ensures fields == [] ==> !isEnum
  {
  }

  lemma ItemAdded(isEnum: bool, fields: seq<TypeField>, f: TypeField)
    requires GoodFields(isEnum, fields) && (isEnum || fields == [])
    requires FieldName(f.name) && GoodDoc(f.doc) && f.typ == None && !Known(fields, f.name)
    ensures GoodFields(true, fields + [f])
  {
    hide FieldName, GoodDoc;
    GoodFieldAdded(true, fields, f);
  }

  lemma SameBehindBlanks(t: string, n: Cursor, name: string, doc: Option<string>, fields: seq<TypeField>)
    requires n.p <= |t|
    ensures var f := Blanks(t, true, n);
      && (forall fs, isEnum :: ReadFields(t, f, isEnum, fs) == ReadFields(t, n, isEnum, fs))
      && ReadFieldType(t, f, name, doc, fields) == ReadFieldType(t, n, name, doc, fields)
  {
    hide Blanks, ReadFieldsAt, ReadType, Known;
    BlanksIdempotent(t, n);
  }

  lemma {:induction false} FieldTypeIsGood(t: string, n: Cursor, name: string, doc: Option<string>,
      fields: seq<TypeField>)
    requires n.p <= |t| && Pending(t, n) && GoodDoc(doc) && FieldName(name) && GoodFields(false, fields)
    ensures Accepted(t, ReadFieldType(t, n, name, doc, fields))
    decreases |t| - n.p, 1
  {
    hide Blanks, ReadFields, ReadType, Take, Known, FieldName, GoodFields, GoodDoc, GoodType, CommentText;
    if Take(t, n, ':').Some? {
      var g := Take(t, n, ':').value;
      TakeOnePending(t, n, ':');
      TypeIsGood(t, g);
      if ReadType(t, g).Some? && !Known(fields, name) {
        var (ty, h) := ReadType(t, g).value;
        var f := TypeField(name, Some(ty), doc);
        FieldAdded(fields, f);
        FieldsAreGood(t, h, false, fields + [f]);
      }
    }
  }

  lemma FieldAdded(fields: seq<TypeField>, f: TypeField)
    requires GoodFields(false, fields) && !Known(fields, f.name)
    requires FieldName(f.name) && GoodDoc(f.doc) && f.typ.Some? && GoodType(f.typ.value)
    ensures GoodFields(false, fields + [f])
  {
    hide FieldName, GoodDoc, GoodType;
    GoodFieldAdded(false, fields, f);
  }

  // ---------------------------------------------------------------- members and interfaces

  lemma KindIsGood(t: string, c: Cursor, keyword: string)
    requires c.p <= |t| && Pending(t, c)
    ensures ReadKind(t, c, keyword).Some? ==>
      GoodKind(ReadKind(t, c, keyword).value.0) && Pending(t, ReadKind(t, c, keyword).value.1)
  {
    hide Blanks, ReadType, GoodType, GoodDoc, CommentText;
    TypeIsGood(t, c);
    if ReadType(t, c).Some? {
      var d := ReadType(t, c).value.1;
      var e := Blanks(t, true, d);
      if keyword != "type" && keyword != "error" && Has(t, e.p, "->") {
        HasAt(t, e.p, "->", 0);
        BlanksPending(t, d);
        TypeIsGood(t, e.(p := e.p + 2));
      }
    }
  }

  ghost predicate GoodMembers(members: seq<Member>) {
    && (forall i :: 0 <= i < |members| ==> GoodMember(members[i]))
    && (forall i, j :: 0 <= i < j < |members| ==> members[i].name != members[j].name)
  }

  lemma MemberAdded(members: seq<Member>, m: Member)
    requires GoodMembers(members) && !HasMember(members, m.name)
    requires MemberName(m.name) && GoodDoc(m.doc) && GoodKind(m.kind)
    ensures GoodMembers(members + [m])
  {
    hide MemberName, GoodDoc, GoodKind;
  }

  lemma {:induction false} MembersAreGood(t: string, c: Cursor, members: seq<Member>)
    requires c.p <= |t| && Pending(t, c) && GoodMembers(members)
    ensures ReadMembers(t, c, members).Some? ==> GoodMembers(ReadMembers(t, c, members).value)
    decreases |t| - c.p
  {
    hide Blanks, ReadDoc, ReadKind, WordOf, MemberName, HasMember, GoodMembers, GoodDoc, GoodKind, MemberKeyword,
      CommentText;
    var d := Blanks(t, true, c);
    if At(t, d.p) != '\0' && MemberKeyword(t, d.p).Some? {
      var keyword := MemberKeyword(t, d.p).value;
      BlanksPending(t, c);
      KeywordFits(t, d.p);
      var from := d.(p := d.p + |keyword|);
      var (doc, e) := ReadDoc(t, from);
      var name := WordOf(t, e.p);
      if MemberName(name) {
        NameNotEmpty(name);
        NoNul(t, e.p, name);
        DocIsGood(t, from);
        KindIsGood(t, e.(p := e.p + |name|), keyword);
        var k := ReadKind(t, e.(p := e.p + |name|), keyword);
        if k.Some? && !HasMember(members, name) {
          var m := Member(name, doc, k.value.0);
          MemberAdded(members, m);
          MembersAreGood(t, k.value.1, members + [m]);
        }
      }
    }
  }

  lemma KeywordFits(t: string, p: nat)
    requires p <= |t| && MemberKeyword(t, p).Some?
    ensures p + |MemberKeyword(t, p).value| <= |t|
  {
  }

  /** Every description that is accepted gives a well-formed interface: valid and distinct names, documentation of
      whole lines, no optional type in an optional type, no empty enum, and all its aliases declared. */
  lemma AcceptedInterfaceIsGood(t: string)
    requires ReadInterface(t).Some?
    ensures GoodInterface(ReadInterface(t).value)
  {
    hide Blanks, ReadDoc, WordOf, InterfaceName, ReadMembers, TakeKeyword, AllResolved, GoodMember, GoodDoc,
      CommentText;
    var start := Cursor(0, 0, None);
    var (doc, c) := ReadDoc(t, start);
    var d := TakeKeyword(t, c, "interface").value;
    KeywordThere(t, c, "interface");
    BlanksOfDoc(t, start);
    DocIsGood(t, start);
    TakePending(t, c, "interface");
    var e := Blanks(t, true, d);
    var name := WordOf(t, e.p);
    NameNotEmpty(name);
    NoNul(t, e.p, name);
    BlanksPending(t, d);
    MembersAreGood(t, e.(p := e.p + |name|), []);
    ResolvedIffDefined(ReadInterface(t).value.members);
  }

  lemma BlanksOfDoc(t: string, c: Cursor)
    requires c.p <= |t|
    ensures Blanks(t, true, ReadDoc(t, c).1).p == ReadDoc(t, c).1.p
  {
    BlanksTwice(t, true, c);
    BlanksForget(t, Blanks(t, true, c));
  }

  lemma BlanksForget(t: string, d: Cursor)
    requires d.p <= |t| && Blanks(t, true, d) == d
    ensures Blanks(t, true, d.(comment := None)).p == d.p
  {
  }

  lemma KeywordThere(t: string, c: Cursor, word: string)
    requires c.p <= |t| && word != "" && word[0] != '\0' && TakeKeyword(t, c, word).Some?
    ensures At(t, Blanks(t, true, c).p) != '\0'
  {
    hide Blanks;
    HasAt(t, Blanks(t, true, c).p, word, 0);
  }

  /** Printing what was read from any description, over several lines, and reading it again changes nothing. */
  lemma ReadPrintRead(t: string, indent: nat)
    requires ReadInterface(t).Some?
    ensures ReadInterface(PrintInterface(ReadInterface(t).value, indent)) == ReadInterface(t)
  {
    hide ReadInterface, PrintInterface, GoodInterface;
    AcceptedInterfaceIsGood(t);
    PrettyRoundTrip(ReadInterface(t).value, indent);
  }

  // ---------------------------------------------------------------- references

  /** A type that may be missing can refer to a type that is not declared, and the description is accepted. */
  lemma UndeclaredTypeAccepted()
    ensures
      var i := Interface("a.b", None, [Member("T", None,
        AliasOf(Record(false, [TypeField("x", Some(Maybe(Alias("Gone"))), None)])))]);
      && ReadInterface(PrintInterface(i, 0)) == Some(i) && !Defines(i.members, "Gone")
  {
    hide PrintInterface, ReadInterface;
    var ty := Record(false, [TypeField("x", Some(Maybe(Alias("Gone"))), None)]);
    var i := Interface("a.b", None, [Member("T", None, AliasOf(ty))]);
    assert InterfaceName("a.b") by {
      assert "a.b"[1] == '.';
    }
    assert TypeName("Gone") && MemberName("T") && FieldName("x");
    assert GoodType(Maybe(Alias("Gone")));
    assert GoodField(ty.fields[0], false);
    assert GoodType(ty);
    assert NeededBy(i.members[0].kind) == {};
    assert GoodMember(i.members[0]);
    PrettyRoundTrip(i, 0);
    assert "T" != "Gone";
  }
}
