/** Reading interface descriptions with the scanner (lib/scanner.c, lib/type.c, lib/interface.c), proved against the
    functions of `Idl`. */
module IdlReader {
  import opened Text
  import opened Tokens
  import opened Idl
  import opened Scanning
  import opened AvlTrees
  import AvlShape
  import Names
  import Ordered
  import Utf8

  // ---------------------------------------------------------------- names

  method InterfaceNameValid(name: string) returns (ok: bool)
    ensures ok == InterfaceName(name)
  {
    var previous := '\0';
    var sections := 1;
    if |name| < 3 || |name| > 255 {
      return false;
    }
    for i := 0 to |name|
      invariant previous == if i == 0 then '\0' else name[i-1]
      invariant forall j :: 0 <= j < i ==> InterfaceChar(name, j)
      invariant sections >= 1 && (sections >= 2 <==> exists j :: 0 <= j < i && name[j] == '.')
    {
      if name[i] == '-' {
        if previous == '.' {
          assert !InterfaceChar(name, i);
          return false;
        }
      } else if name[i] == '.' {
        if previous == '.' || previous == '-' {
          assert !InterfaceChar(name, i);
          return false;
        }
        sections := sections + 1;
      } else if !IsAlnum(name[i]) {
        assert !InterfaceChar(name, i);
        return false;
      }
      previous := name[i];
    }
    ok := IsAlpha(name[0]) && sections >= 2 && IsAlnum(name[|name|-1]);
  }

  method MemberNameValid(name: string) returns (ok: bool)
    ensures ok == MemberName(name)
  {
    if |name| == 0 || !IsUpper(name[0]) {
      return false;
    }
    for i := 1 to |name|
      invariant forall j :: 1 <= j < i ==> IsAlnum(name[j])
    {
      if !IsAlnum(name[i]) {
        return false;
      }
    }
    ok := true;
  }

  method FieldNameValid(name: string) returns (ok: bool)
    ensures ok == FieldName(name)
  {
    if |name| == 0 || !IsAlpha(name[0]) {
      return false;
    }
    for i := 1 to |name|
      invariant forall j :: 0 <= j < i ==> FieldChar(name, j)
    {
      if name[i] == '_' {
        if name[i-1] == '_' {
          assert !FieldChar(name, i);
          return false;
        }
      } else if !IsAlnum(name[i]) {
        assert !FieldChar(name, i);
        return false;
      }
    }
    ok := IsAlnum(name[|name|-1]);
  }

  method ExpectFieldName(s: Scanner) returns (name: Option<string>)
    requires s.Valid() && s.comments
    modifies s
    ensures s.Valid()
    ensures var d := Blanks(s.text, true, old(s.Here()));
      var w := WordOf(s.text, d.p);
      && name == (if FieldName(w) then Some(w) else None)
      && s.Here() == if name.Some? then d.(p := d.p + |w|) else d
  {
    hide Blanks, FieldName, WordLength;
    var len := s.WordLen();
    var valid := FieldNameValid(s.text[s.p..s.p + len]);
    if !valid {
      return None;
    }
    name := Some(s.text[s.p..s.p + len]);
    s.p := s.p + len;
  }

  method ExpectMemberName(s: Scanner) returns (name: Option<string>)
    requires s.Valid() && s.comments
    modifies s
    ensures s.Valid()
    ensures var d := Blanks(s.text, true, old(s.Here()));
      var w := WordOf(s.text, d.p);
      && name == (if MemberName(w) then Some(w) else None)
      && s.Here() == if name.Some? then d.(p := d.p + |w|) else d
  {
    hide Blanks, MemberName, WordLength;
    var len := s.WordLen();
    var valid := MemberNameValid(s.text[s.p..s.p + len]);
    if !valid {
      return None;
    }
    name := Some(s.text[s.p..s.p + len]);
    s.p := s.p + len;
  }

  method ExpectInterfaceName(s: Scanner) returns (name: Option<string>)
    requires s.Valid() && s.comments
    modifies s
    ensures s.Valid()
    ensures var d := Blanks(s.text, true, old(s.Here()));
      var w := WordOf(s.text, d.p);
      && name == (if InterfaceName(w) then Some(w) else None)
      && s.Here() == if name.Some? then d.(p := d.p + |w|) else d
  {
    hide Blanks, InterfaceName, WordLength;
    var len := s.WordLen();
    var valid := InterfaceNameValid(s.text[s.p..s.p + len]);
    if !valid {
      return None;
    }
    name := Some(s.text[s.p..s.p + len]);
    s.p := s.p + len;
  }

  /** Whether a word is a member name or one qualified by an interface name. */
  method TypeNameValid(w: string) returns (ok: bool)
    ensures ok == TypeName(w)
  {
    var member := MemberNameValid(w);
    if member {
      return true;
    }
    if |w| < 3 {
      return false;
    }
    var i := 0;
    while i < |w| && !IsUpper(w[i])
      invariant i <= |w| && forall j :: 0 <= j < i ==> !IsUpper(w[j])
    {
      i := i + 1;
    }
    FirstUpperIs(w, i);
    if i == 0 || i == |w| || w[i-1] != '.' {
      return false;
    }
    ok := InterfaceNameValid(w[..i-1]);
    if ok {
      ok := MemberNameValid(w[i..]);
    }
  }

  lemma FirstUpperIs(w: string, i: nat)
    requires i <= |w| && (forall j :: 0 <= j < i ==> !IsUpper(w[j])) && (i < |w| ==> IsUpper(w[i]))
    ensures FirstUpper(w) == i
  {
  }

  method ExpectTypeName(s: Scanner) returns (name: Option<string>)
    requires s.Valid() && s.comments
    modifies s
    ensures s.Valid()
    ensures var d := Blanks(s.text, true, old(s.Here()));
      var w := WordOf(s.text, d.p);
      && name == (if TypeName(w) then Some(w) else None)
      && s.Here() == if name.Some? then d.(p := d.p + |w|) else d
  {
    hide Blanks, TypeName, WordLength;
    var len := s.WordLen();
    var valid := TypeNameValid(s.text[s.p..s.p + len]);
    if !valid {
      return None;
    }
    name := Some(s.text[s.p..s.p + len]);
    s.p := s.p + len;
  }

  // ---------------------------------------------------------------- documentation

  method FindLineEnd(t: string, start: nat) returns (p: nat)
    requires start <= |t|
    ensures p == LineEnd(t, start)
  {
    p := start;
    while At(t, p) != '\n' && At(t, p) != '\0'
      invariant start <= p <= |t| && LineEnd(t, p) == LineEnd(t, start)
      decreases |t| - p
    {
      p := p + 1;
    }
  }

  method FindText(t: string, start: nat) returns (p: nat)
    requires start <= |t|
    ensures p == SkipLeading(t, start)
  {
    p := start;
    while At(t, p) == ' ' || At(t, p) == '\t'
      invariant start <= p <= |t| && SkipLeading(t, p) == SkipLeading(t, start)
      decreases |t| - p
    {
      p := p + 1;
    }
  }

  /** The text of a comment, line by line. */
  method ReadComment(t: string, from: nat) returns (out: string)
    ensures out == CommentText(t, from)
  {
    hide CommentText;
    out := "";
    var p := from;
    while At(t, p) == '#'
      invariant out + CommentText(t, p) == CommentText(t, from)
      decreases |t| - p
    {
      ghost var before, start := out, p;
      var line, next := ReadCommentLine(t, p);
      out := out + line;
      if next.None? {
        return;
      }
      p := next.value;
      assert before + (line + CommentText(t, p)) == out + CommentText(t, p);
    }
    NoCommentText(t, p);
  }

  lemma NoCommentText(t: string, p: nat)
    requires At(t, p) != '#'
    ensures CommentText(t, p) == ""
  {
  }

  /** The text of one comment line, and where the next line starts if this one has an end. */
  method ReadCommentLine(t: string, p: nat) returns (line: string, next: Option<nat>)
    requires At(t, p) == '#'
    ensures next.None? ==> CommentText(t, p) == line
    ensures next.Some? ==> p < next.value <= |t| && CommentText(t, p) == line + CommentText(t, next.value)
  {
    hide CommentText, LineEnd, SkipLeading;
    CommentUnfolds(t, p);
    var start := p + 1;
    if At(t, start) == ' ' {
      start := start + 1;
    }
    var e := FindLineEnd(t, start);
    line := t[start..e];
    if At(t, e) != '\n' {
      return line, None;
    }
    line := line + "\n";
    var q := FindText(t, e + 1);
    next := Some(q);
  }

  /** The comment in front of the next token. */
  method GetLastDocstring(s: Scanner) returns (doc: Option<string>)
    requires s.Valid() && s.comments
    modifies s
    ensures s.Valid()
    ensures var r := ReadDoc(s.text, old(s.Here())); doc == r.0 && s.Here() == r.1
  {
    hide CommentText, Blanks;
    s.Advance();
    if s.lastComment.None? {
      return None;
    }
    var out := ReadComment(s.text, s.lastComment.value);
    s.lastComment := None;
    doc := Some(out);
  }

  // ---------------------------------------------------------------- types

  /** The fields of a type in the order of their names. */
  const FIELD_ORDER: Ordered.Order<string, TypeField> := Names.ByName((f: TypeField) => f.name)

  lemma FieldOrderLawful()
    ensures Ordered.Lawful(FIELD_ORDER)
  {
    Names.ByNameLawful((f: TypeField) => f.name);
  }

  /** A type being read: its fields in the order of the text, and sorted. */
  class FieldList {
    var fields: seq<TypeField>
    const sorted: AvlTree<string, TypeField>

    ghost predicate Valid()
      reads this, sorted, AvlShape.Nodes(sorted.shape)
    {
      && sorted.Valid() && sorted.order == FIELD_ORDER
      && forall f :: f in sorted.Contents() <==> f in fields
    }

    ghost function Repr(): set<object>
      reads this, sorted
    {
      {this} + sorted.Repr()
    }

    constructor ()
      ensures Valid() && fresh(Repr()) && fields == []
    {
      fields := [];
      FieldOrderLawful();
      var tree := new AvlTree<string, TypeField>(FIELD_ORDER);
      sorted := tree;
    }

    /** Adds a field behind the others, unless there is one of that name. */
    method Add(f: TypeField) returns (ok: bool)
      requires Valid()
      modifies Repr()
      ensures Valid() && (forall o <- Repr() :: o in old(Repr()) || fresh(o))
      ensures ok == !Known(old(fields), f.name)
      ensures fields == if ok then old(fields) + [f] else old(fields)
    {
      hide Ordered.Sorted, Ordered.Rank, Ordered.Has, Ordered.Insert, Ordered.Lawful, Known, AvlTree.Valid;
      TreeSorted(sorted);
      NamesKnown(sorted.Contents(), fields, f.name);
      FieldInserted(sorted.Contents(), fields, f);
      var status := sorted.Insert(f.name, f);
      if status.KeyExists? {
        return false;
      }
      fields := fields + [f];
      ok := true;
    }
  }

  lemma NamesKnown(contents: seq<TypeField>, fields: seq<TypeField>, name: string)
    requires Ordered.Sorted(FIELD_ORDER, contents) && forall f :: f in contents <==> f in fields
    ensures Ordered.Has(FIELD_ORDER, contents, name) <==> Known(fields, name)
  {
    FieldOrderLawful();
    Ordered.HasIff(FIELD_ORDER, contents, name);
    if i :| 0 <= i < |contents| && contents[i].name == name {
      assert contents[i] in fields;
    }
    if i :| 0 <= i < |fields| && fields[i].name == name {
      assert fields[i] in contents;
    }
  }

  lemma FieldInserted(contents: seq<TypeField>, fields: seq<TypeField>, f: TypeField)
    requires forall x :: x in contents <==> x in fields
    ensures forall x :: x in Ordered.Insert(FIELD_ORDER, contents, f) <==> x in fields + [f]
  {
    var r := Ordered.Rank(FIELD_ORDER, contents, f.name);
    assert contents == contents[..r] + contents[r..];
  }

  lemma TreeSorted<V(!new)>(tree: AvlTree<string, V>)
    requires tree.Valid()
    ensures Ordered.Sorted(tree.order, tree.Contents())
  {
  }

  /** The outcome of reading, and where the scanner stands if it succeeded. */
  ghost predicate ReadsAs(r: Option<(Type, Cursor)>, ty: Option<Type>, here: Cursor) {
    if ty.Some? then r == Some((ty.value, here)) else r == None
  }

  method ReadType(s: Scanner) returns (ty: Option<Type>)
    requires s.Valid() && s.comments
    modifies s
    ensures s.Valid() && old(s.p) <= s.p
    ensures ReadsAs(Idl.ReadType(s.text, old(s.Here())), ty, s.Here())
    decreases |s.text| - s.p, 5
  {
    hide Blanks, Simple, ReadTypeAt;
    var c := s.Peek();
    BlanksTwice(s.text, true, old(s.Here()));
    ty := ReadTypeHere(s, c);
  }

  /** A type at a token. */
  method ReadTypeHere(s: Scanner, c: char) returns (ty: Option<Type>)
    requires s.Valid() && s.comments && Blanks(s.text, true, s.Here()) == s.Here() && c == At(s.text, s.p)
    modifies s
    ensures s.Valid() && old(s.p) <= s.p && ReadsAs(ReadTypeAt(s.text, old(s.Here())), ty, s.Here())
    decreases |s.text| - s.p, 4
  {
    hide Blanks, Simple, TypeName, WordOf, Take, TakeKeyword, Idl.ReadType, ReadFields;
    if c == '[' {
      ty := ReadContainer(s);
    } else if c == '?' {
      ty := ReadMaybe(s);
    } else {
      ty := ReadSimple(s);
      if ty.Some? {
        return;
      }
      if c == '(' {
        ty := ReadRecord(s);
      } else {
        var name := ExpectTypeName(s);
        ty := if name.Some? then Some(Alias(name.value)) else None;
      }
    }
  }

  lemma OneCharacter(t: string, p: nat, c: char)
    requires c != '\0'
    ensures Has(t, p, [c]) <==> At(t, p) == c
  {
  }

  method TakeOperator(s: Scanner, c: char) returns (ok: bool)
    requires s.Valid() && s.comments && c != '\0'
    modifies s
    ensures s.Valid() && old(s.p) <= s.p
    ensures Take(s.text, old(s.Here()), c) == (if ok then Some(s.Here()) else None)
    ensures ok ==> old(s.p) < s.p
  {
    OneCharacter(s.text, Blanks(s.text, true, s.Here()).p, c);
    ok := s.ExpectOperator([c]);
  }

  method ReadContainer(s: Scanner) returns (ty: Option<Type>)
    requires s.Valid() && s.comments && Blanks(s.text, true, s.Here()) == s.Here() && At(s.text, s.p) == '['
    modifies s
    ensures s.Valid() && old(s.p) <= s.p && ReadsAs(ReadTypeAt(s.text, old(s.Here())), ty, s.Here())
    decreases |s.text| - s.p, 3
  {
    hide Blanks, Simple, KeywordAt, Idl.ReadType;
    OneCharacter(s.text, s.p, '[');
    var open := s.ExpectOperator("[");
    BlanksTwice(s.text, true, s.Here());
    var isMap := s.ReadKeyword("string");
    var close := TakeOperator(s, ']');
    if !close {
      return None;
    }
    var e := ReadType(s);
    if e.None? {
      return None;
    }
    ty := Some(if isMap then Map(e.value) else Array(e.value));
  }

  method ReadMaybe(s: Scanner) returns (ty: Option<Type>)
    requires s.Valid() && s.comments && Blanks(s.text, true, s.Here()) == s.Here() && At(s.text, s.p) == '?'
    modifies s
    ensures s.Valid() && old(s.p) <= s.p && ReadsAs(ReadTypeAt(s.text, old(s.Here())), ty, s.Here())
    decreases |s.text| - s.p, 3
  {
    hide Blanks, Simple, KeywordAt, Idl.ReadType;
    OneCharacter(s.text, s.p, '?');
    var open := s.ExpectOperator("?");
    var e := ReadType(s);
    if e.None? || e.value.Maybe? {
      return None;
    }
    ty := Some(Maybe(e.value));
  }

  /** A type that is a keyword. */
  method ReadSimple(s: Scanner) returns (ty: Option<Type>)
    requires s.Valid() && s.comments && Blanks(s.text, true, s.Here()) == s.Here()
    modifies s
    ensures s.Valid() && old(s.p) <= s.p
    ensures var r := Simple(s.text, old(s.p));
      && (r.None? <==> ty.None?)
      && s.Here() == (if ty.Some? then old(s.Here()).(p := r.value.1) else old(s.Here()))
      && (ty.Some? ==> ty.value == r.value.0)
  {
    hide Blanks, KeywordAt;
    var ok := s.ReadKeyword("bool");
    if ok {
      return Some(Bool);
    }
    ok := s.ReadKeyword("int");
    if ok {
      return Some(Int);
    }
    ok := s.ReadKeyword("float");
    if ok {
      return Some(Float);
    }
    ok := s.ReadKeyword("string");
    if ok {
      return Some(String);
    }
    ok := s.ReadKeyword("object");
    if ok {
      return Some(ForeignObject);
    }
    ty := None;
  }

  /** An object or enum. Whether it is one or the other shows behind the name of its first field. */
  method ReadRecord(s: Scanner) returns (ty: Option<Type>)
    requires s.Valid() && s.comments && Blanks(s.text, true, s.Here()) == s.Here() && At(s.text, s.p) == '('
    modifies s
    ensures s.Valid() && old(s.p) <= s.p && ReadsAs(ReadFields(s.text, old(s.Here()).(p := old(s.p) + 1), false, []),
      ty, s.Here())
    decreases |s.text| - s.p, 3
  {
    hide Blanks, ReadFields, FieldList.Valid;
    OneCharacter(s.text, s.p, '(');
    var open := s.ExpectOperator("(");
    var list := new FieldList();
    var ok, isEnum := ReadFieldList(s, list);
    ty := if ok then Some(Record(isEnum, list.fields)) else None;
  }

  /** The fields up to and with the closing parenthesis. */
  method ReadFieldList(s: Scanner, list: FieldList) returns (ok: bool, isEnum: bool)
    requires s.Valid() && s.comments && list.Valid() && s !in list.Repr() && list.fields == []
    modifies s, list.Repr()
    ensures s.Valid() && old(s.p) <= s.p
    ensures ReadFields(s.text, old(s.Here()), false, []) == if ok then Some((Record(isEnum, list.fields), s.Here()))
      else None
    decreases |s.text| - s.p, 3
  {
    hide Blanks, ReadFields, ReadFieldsAt, FieldList.Valid;
    ghost var start := s.Here();
    ok, isEnum := true, false;
    while true
      invariant s.Valid() && start.p <= s.p && list.Valid() && s !in list.Repr()
      invariant forall o <- list.Repr() :: o in old(list.Repr()) || fresh(o)
      invariant ReadFields(s.text, s.Here(), isEnum, list.fields) == ReadFields(s.text, start, false, [])
      decreases |s.text| - s.p
    {
      assert allocated(AvlShape.Nodes(list.sorted.shape));
      FieldsBehindBlanks(s.text, s.Here(), isEnum, list.fields);
      var c := s.Peek();
      if c == ')' {
        break;
      }
      ok, isEnum := ReadOneField(s, list, isEnum);
      if !ok {
        return;
      }
    }
    OneCharacter(s.text, s.p, ')');
    ok := s.ExpectOperator(")");
  }

  lemma FieldsBehindBlanks(t: string, c: Cursor, isEnum: bool, fields: seq<TypeField>)
    requires c.p <= |t|
    ensures
      var d := Blanks(t, true, c);
      && Blanks(t, true, d) == d && ReadFields(t, c, isEnum, fields) == ReadFieldsAt(t, d, isEnum, fields)
      && ReadFields(t, d, isEnum, fields) == ReadFieldsAt(t, d, isEnum, fields)
      && (At(t, d.p) == ')' ==> ReadFieldsAt(t, d, isEnum, fields) == Some((Record(isEnum, fields), d.(p := d.p + 1))))
  {
    BlanksTwice(t, true, c);
  }

  /** One field behind its separator. */
  method ReadOneField(s: Scanner, list: FieldList, isEnum: bool) returns (ok: bool, items: bool)
    requires s.Valid() && s.comments && list.Valid() && s !in list.Repr()
    requires Blanks(s.text, true, s.Here()) == s.Here() && At(s.text, s.p) != ')'
    modifies s, list.Repr()
    ensures s.Valid() && list.Valid() && (forall o <- list.Repr() :: o in old(list.Repr()) || fresh(o))
    ensures old(s.p) <= s.p && (ok ==> old(s.p) < s.p)
    ensures ReadFieldsAt(s.text, old(s.Here()), isEnum, old(list.fields)) ==
      if ok then ReadFields(s.text, s.Here(), items, list.fields) else None
    decreases |s.text| - s.p, 2
  {
    hide Blanks, FieldList.Valid, FieldName, WordOf, ReadDoc, Known, ReadFields, ReadField, Take;
    assert allocated(AvlShape.Nodes(list.sorted.shape));
    ghost var fields := list.fields;
    ok, items := false, isEnum;
    if |list.fields| > 0 {
      OneCharacter(s.text, s.p, ',');
      var comma := s.ExpectOperator(",");
      if !comma {
        return;
      }
    }
    DocAtToken(s.text, s.Here());
    var doc := GetLastDocstring(s);
    ok, items := ReadNamedField(s, list, doc, isEnum);
  }

  lemma {:induction false} BlanksEnd(t: string, c: Cursor)
    requires c.p <= |t|
    ensures var d := Blanks(t, true, c); !IsBlank(At(t, d.p)) && At(t, d.p) != '#'
    decreases |t| - c.p
  {
    var ch := At(t, c.p);
    if ch == ' ' || ch == '\t' {
      BlanksEnd(t, c.(p := c.p + 1));
    } else if ch == '\n' {
      BlanksEnd(t, Cursor(c.p + 1, c.p + 1, if c.line == c.p then None else c.comment));
    } else if ch == '#' {
      BlanksEnd(t, c.(p := LineEnd(t, c.p), comment := if c.comment.None? then Some(c.p) else c.comment));
    }
  }

  lemma DocAtToken(t: string, c: Cursor)
    requires c.p <= |t|
    ensures Blanks(t, true, ReadDoc(t, c).1) == ReadDoc(t, c).1
  {
    BlanksEnd(t, c);
  }

  /** One field from its name on. */
  method ReadNamedField(s: Scanner, list: FieldList, doc: Option<string>, isEnum: bool) returns (ok: bool, items: bool)
    requires s.Valid() && s.comments && list.Valid() && s !in list.Repr()
    requires Blanks(s.text, true, s.Here()) == s.Here()
    modifies s, list.Repr()
    ensures s.Valid() && list.Valid() && (forall o <- list.Repr() :: o in old(list.Repr()) || fresh(o))
    ensures old(s.p) <= s.p && (ok ==> old(s.p) < s.p)
    ensures ReadField(s.text, old(s.Here()), doc, isEnum, old(list.fields)) ==
      if ok then ReadFields(s.text, s.Here(), items, list.fields) else None
    decreases |s.text| - s.p, 1
  {
    hide Blanks, FieldList.Valid, WordOf, Known, ReadFields, Take, Idl.ReadType;
    assert allocated(AvlShape.Nodes(list.sorted.shape));
    ok, items := false, isEnum;
    var name := ExpectFieldName(s);
    if name.None? {
      return;
    }
    if |list.fields| == 0 {
      var c := s.Peek();
      items := c != ':';
    }
    var ty := None;
    if !items {
      var colon := TakeOperator(s, ':');
      if !colon {
        return;
      }
      ty := ReadType(s);
      if ty.None? {
        return;
      }
    }
    ok := list.Add(TypeField(name.value, ty, doc));
  }

  // ---------------------------------------------------------------- interfaces

  /** The members of an interface in the order of their names. */
  const MEMBER_ORDER: Ordered.Order<string, Member> := Names.ByName((m: Member) => m.name)

  lemma MemberOrderLawful()
    ensures Ordered.Lawful(MEMBER_ORDER)
  {
    Names.ByNameLawful((m: Member) => m.name);
  }

  /** An interface being read: its members in the order of the text, and sorted. */
  class MemberList {
    var members: seq<Member>
    const sorted: AvlTree<string, Member>

    ghost predicate Valid()
      reads this, sorted, AvlShape.Nodes(sorted.shape)
    {
      && sorted.Valid() && sorted.order == MEMBER_ORDER
      && (forall m :: m in sorted.Contents() <==> m in members)
      && (forall i, j :: 0 <= i < j < |members| ==> members[i].name != members[j].name)
    }

    ghost function Repr(): set<object>
      reads this, sorted
    {
      {this} + sorted.Repr()
    }

    constructor ()
      ensures Valid() && fresh(Repr()) && members == []
    {
      members := [];
      MemberOrderLawful();
      var tree := new AvlTree<string, Member>(MEMBER_ORDER);
      sorted := tree;
    }

    /** Adds a member behind the others, unless there is one of that name. */
    method Add(m: Member) returns (ok: bool)
      requires Valid()
      modifies Repr()
      ensures Valid() && (forall o <- Repr() :: o in old(Repr()) || fresh(o))
      ensures ok == !HasMember(old(members), m.name)
      ensures members == if ok then old(members) + [m] else old(members)
    {
      hide Ordered.Sorted, Ordered.Rank, Ordered.Has, Ordered.Insert, Ordered.Lawful, AvlTree.Valid;
      TreeSorted(sorted);
      MembersKnown(sorted.Contents(), members, m.name);
      MemberInserted(sorted.Contents(), members, m);
      var status := sorted.Insert(m.name, m);
      if status.KeyExists? {
        return false;
      }
      members := members + [m];
      ok := true;
    }

    /** Whether a type is declared under a name. */
    method GetType(name: string) returns (found: bool)
      requires Valid()
      ensures found == Declared(members, name)
    {
      var e := sorted.Find(name);
      MembersKnown(sorted.Contents(), members, name);
      match e {
        case Null => found := false;
        case Value(m) =>
          found := m.kind.AliasOf?;
          var i :| 0 <= i < |members| && members[i] == m;
          if j :| 0 <= j < |members| && members[j].name == name && members[j].kind.AliasOf? {
            assert i == j;
          }
      }
    }
  }

  lemma MembersKnown(contents: seq<Member>, members: seq<Member>, name: string)
    requires Ordered.Sorted(MEMBER_ORDER, contents) && forall m :: m in contents <==> m in members
    ensures Ordered.Has(MEMBER_ORDER, contents, name) <==> HasMember(members, name)
  {
    MemberOrderLawful();
    Ordered.HasIff(MEMBER_ORDER, contents, name);
    if i :| 0 <= i < |contents| && contents[i].name == name {
      assert contents[i] in members;
    }
    if i :| 0 <= i < |members| && members[i].name == name {
      assert members[i] in contents;
    }
  }

  lemma MemberInserted(contents: seq<Member>, members: seq<Member>, m: Member)
    requires forall x :: x in contents <==> x in members
    ensures forall x :: x in Ordered.Insert(MEMBER_ORDER, contents, m) <==> x in members + [m]
  {
    var r := Ordered.Rank(MEMBER_ORDER, contents, m.name);
    assert contents == contents[..r] + contents[r..];
  }

  /** The kind of member a keyword announces. */
  method ReadMemberKeyword(s: Scanner) returns (keyword: Option<string>)
    requires s.Valid() && s.comments && Blanks(s.text, true, s.Here()) == s.Here()
    modifies s
    ensures s.Valid() && keyword == MemberKeyword(s.text, old(s.p))
    ensures s.Here() == if keyword.Some? then old(s.Here()).(p := old(s.p) + |keyword.value|) else old(s.Here())
  {
    hide Blanks, KeywordAt;
    var ok := s.ReadKeyword("type");
    if ok {
      return Some("type");
    }
    ok := s.ReadKeyword("method");
    if ok {
      return Some("method");
    }
    ok := s.ReadKeyword("error");
    if ok {
      return Some("error");
    }
    keyword := None;
  }

  /** What follows the name of a member. */
  method ReadMemberKind(s: Scanner, keyword: string) returns (kind: Option<MemberKind>)
    requires s.Valid() && s.comments
    modifies s
    ensures s.Valid() && old(s.p) <= s.p && (kind.Some? ==> old(s.p) < s.p)
    ensures ReadKind(s.text, old(s.Here()), keyword) == if kind.Some? then Some((kind.value, s.Here())) else None
  {
    hide Blanks, Idl.ReadType;
    var ty := ReadType(s);
    if ty.None? {
      return None;
    }
    if keyword == "type" {
      return if ty.value.Record? then Some(AliasOf(ty.value)) else None;
    } else if keyword == "error" {
      return if ty.value.Record? && !ty.value.isEnum then Some(ErrorOf(ty.value)) else None;
    }
    var arrow := s.ExpectOperator("->");
    if !arrow {
      return None;
    }
    var out := ReadType(s);
    if out.None? || !ty.value.Record? || ty.value.isEnum || !out.value.Record? || out.value.isEnum {
      return None;
    }
    kind := Some(MethodOf(ty.value, out.value));
  }

  method ReadMember(s: Scanner, list: MemberList) returns (ok: bool)
    requires s.Valid() && s.comments && list.Valid() && s !in list.Repr()
    requires Blanks(s.text, true, s.Here()) == s.Here() && At(s.text, s.p) != '\0'
    modifies s, list.Repr()
    ensures s.Valid() && list.Valid() && (forall o <- list.Repr() :: o in old(list.Repr()) || fresh(o))
    ensures old(s.p) <= s.p && (ok ==> old(s.p) < s.p)
    ensures ReadMembersAt(s.text, old(s.Here()), old(list.members)) ==
      if ok then ReadMembers(s.text, s.Here(), list.members) else None
  {
    hide Blanks, MemberList.Valid, WordOf, HasMember, ReadMembers, MemberKeyword, ReadKind, ReadDoc, MemberName;
    assert allocated(AvlShape.Nodes(list.sorted.shape));
    ghost var members := list.members;
    var keyword := ReadMemberKeyword(s);
    if keyword.None? {
      return false;
    }
    DocAtToken(s.text, s.Here());
    var doc := GetLastDocstring(s);
    var name := ExpectMemberName(s);
    if name.None? {
      return false;
    }
    var kind := ReadMemberKind(s, keyword.value);
    if kind.None? {
      return false;
    }
    ok := list.Add(Member(name.value, doc, kind.value));
  }

  /** Whether the aliases in a type are declared. */
  method ResolveType(list: MemberList, ty: Type) returns (ok: bool)
    requires list.Valid()
    ensures ok == TryResolve(list.members, ty)
    decreases ty
  {
    hide MemberList.Valid;
    assert allocated(AvlShape.Nodes(list.sorted.shape));
    match ty {
      case Array(e) => ok := ResolveType(list, e);
      case Map(e) => ok := ResolveType(list, e);
      case Alias(name) => ok := list.GetType(name);
      case Record(isEnum, fields) =>
        if isEnum {
          return true;
        }
        for i := 0 to |fields|
          invariant list.Valid() && forall j :: 0 <= j < i && fields[j].typ.Some? ==>
            TryResolve(list.members, fields[j].typ.value)
        {
          if fields[i].typ.Some? {
            var known := ResolveType(list, fields[i].typ.value);
            if !known {
              return false;
            }
          }
        }
        ok := true;
      case _ => ok := true;
    }
  }

  method ResolveMember(list: MemberList, kind: MemberKind) returns (ok: bool)
    requires list.Valid()
    ensures ok == ResolveKind(list.members, kind)
  {
    hide MemberList.Valid, TryResolve;
    assert allocated(AvlShape.Nodes(list.sorted.shape));
    match kind {
      case AliasOf(ty) => ok := ResolveType(list, ty);
      case ErrorOf(ty) => ok := ResolveType(list, ty);
      case MethodOf(input, output) =>
        ok := ResolveType(list, input);
        if ok {
          ok := ResolveType(list, output);
        }
    }
  }

  /** Whether all types that are referred to are declared. */
  method ResolveAll(list: MemberList) returns (ok: bool)
    requires list.Valid()
    ensures ok == AllResolved(list.members)
  {
    hide MemberList.Valid, ResolveKind;
    assert allocated(AvlShape.Nodes(list.sorted.shape));
    for j := 0 to |list.members|
      invariant list.Valid() && forall k :: 0 <= k < j ==> ResolveKind(list.members, list.members[k].kind)
    {
      var known := ResolveMember(list, list.members[j].kind);
      if !known {
        return false;
      }
    }
    ok := true;
  }

  /** Reads the description of an interface. */
  method NewInterface(description: string) returns (i: Option<Interface>)
    requires Utf8.AllBytes(description)
    ensures i == ReadInterface(description)
  {
    hide Blanks, ReadDoc, WordOf, InterfaceName, ReadMembers, AllResolved, KeywordAt, MemberList.Valid;
    var s := new Scanner(description, true);
    DocAtToken(s.text, s.Here());
    var doc := GetLastDocstring(s);
    var keyword := s.ReadKeyword("interface");
    if !keyword {
      return None;
    }
    var name := ExpectInterfaceName(s);
    if name.None? {
      return None;
    }
    var list := new MemberList();
    var complete := ReadAllMembers(s, list);
    if !complete {
      return None;
    }
    var known := ResolveAll(list);
    if !known {
      return None;
    }
    i := Some(Interface(name.value, doc, list.members));
  }

  method ReadAllMembers(s: Scanner, list: MemberList) returns (ok: bool)
    requires s.Valid() && s.comments && list.Valid() && s !in list.Repr()
    modifies s, list.Repr()
    ensures s.Valid() && list.Valid()
    ensures ReadMembers(s.text, old(s.Here()), old(list.members)) == if ok then Some(list.members) else None
  {
    hide Blanks, MemberList.Valid, ReadMembersAt;
    ghost var start, members := s.Here(), list.members;
    while true
      invariant s.Valid() && list.Valid() && s !in list.Repr()
        && (forall o <- list.Repr() :: o in old(list.Repr()) || fresh(o))
      invariant ReadMembers(s.text, s.Here(), list.members) == ReadMembers(s.text, start, members)
      decreases |s.text| - s.p
    {
      assert allocated(AvlShape.Nodes(list.sorted.shape));
      MembersBehindBlanks(s.text, s.Here(), list.members);
      var c := s.Peek();
      if c == '\0' {
        return true;
      }
      var more := ReadMember(s, list);
      if !more {
        return false;
      }
    }
  }

  lemma MembersBehindBlanks(t: string, c: Cursor, members: seq<Member>)
    requires c.p <= |t|
    ensures
      var d := Blanks(t, true, c);
      && Blanks(t, true, d) == d && ReadMembers(t, c, members) == ReadMembersAt(t, d, members)
      && (At(t, d.p) == '\0' ==> ReadMembersAt(t, d, members) == Some(members))
  {
    BlanksTwice(t, true, c);
  }
}
