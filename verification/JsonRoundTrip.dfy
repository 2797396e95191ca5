/** Reading back what was printed. */
module JsonRoundTrip {
  import opened Text
  import opened Tokens
  import opened Literals
  import opened Json
  import Floats
  import Ordered
  import Utf8

  // ---------------------------------------------------------------- which values

  /** Apart from nulls, all elements are of one kind: what the typed appends of an array allow. */
  ghost predicate Homogeneous(es: seq<Value>) {
    forall i, j :: 0 <= i < |es| && 0 <= j < |es| && !es[i].Null? && !es[j].Null? ==> KindOf(es[i]) == KindOf(es[j])
  }

  /** The values that objects and arrays can hold: nothing undefined, integers of 64 bits, strings without
      NUL, homogeneous arrays, objects with sorted names and no null field. */
  ghost predicate WellFormed(v: Value) {
    match v
    case Undefined => false
    case Int(i) => LONG_MIN <= i <= LONG_MAX
    case Str(s) => NulFree(s)
    case Arr(es) => Homogeneous(es) && forall i :: 0 <= i < |es| ==> WellFormed(es[i])
    case Obj(fs) => Ordered.Sorted(FIELDS, fs) && forall i :: 0 <= i < |fs| ==> WellFormedField(fs[i])
    case _ => true
  }

  ghost predicate WellFormedField(f: Field) {
    NulFree(f.name) && !f.value.Null? && WellFormed(f.value)
  }

  /** No name with a quote or backslash. */
  ghost predicate Printable(v: Value) {
    match v
    case Arr(es) => forall i :: 0 <= i < |es| ==> Printable(es[i])
    case Obj(fs) => forall i :: 0 <= i < |fs| ==> Unquoted(fs[i].name) && Printable(fs[i].value)
    case _ => true
  }

  /** What the scanner accepts below `depth` enclosing levels: valid UTF-8 throughout, no tab or newline in
      names, and not too much nesting. */
  ghost predicate Legal(v: Value, depth: nat)
    decreases v
  {
    depth + 1 < MAX_DEPTH &&
    match v
    case Str(s) => Utf8.Valid(s)
    case Arr(es) => forall i :: 0 <= i < |es| ==> Legal(es[i], depth + 1)
    case Obj(fs) => forall i :: 0 <= i < |fs| ==> LegalField(fs[i], depth + 1)
    case _ => true
  }

  ghost predicate LegalField(f: Field, depth: nat)
    decreases f
  {
    Plain(f.name) && Utf8.Valid(f.name) && Legal(f.value, depth)
  }

  ghost predicate LegalFields(fs: seq<Field>, depth: nat) {
    forall i :: 0 <= i < |fs| ==> LegalField(fs[i], depth)
  }

  // ---------------------------------------------------------------- blanks

  predicate Blank(s: string) {
    forall i :: 0 <= i < |s| ==> IsBlank(s[i])
  }

  lemma {:induction false} SkipOver(t: string, p: nat, b: string)
    requires Has(t, p, b) && Blank(b)
    ensures Skip(t, p) == Skip(t, p + |b|)
    decreases b
  {
    if b != "" {
      HasAt(t, p, b, 0);
      assert b == [b[0]] + b[1..];
      HasConcat(t, p, [b[0]], b[1..]);
      SkipOver(t, p + 1, b[1..]);
    }
  }

  lemma SkipTo(t: string, p: nat, b: string, c: char)
    requires Has(t, p, b + [c]) && Blank(b) && !IsBlank(c)
    ensures Skip(t, p) == p + |b| && At(t, p + |b|) == c
  {
    HasConcat(t, p, b, [c]);
    HasAt(t, p + |b|, [c], 0);
    SkipOver(t, p, b);
  }

  /** The readers look only at what is behind the blanks. */
  lemma ReadBehindBlanks(t: string, p: nat, q: nat, depth: nat)
    requires p <= |t| && q <= |t| && Skip(t, p) == Skip(t, q)
    ensures ReadValue(t, p, depth) == ReadValue(t, q, depth)
  {
    hide ReadObject, ReadArray, ReadFields, ReadElements, StringAt, NumberAt, KeywordAt;
  }

  /** What may stand behind a printed value. */
  predicate Stop(c: char) {
    c == ',' || c == ']' || c == '}' || c == '\n' || c == '\0'
  }

  lemma PrintStarts(v: Value, indent: int)
    requires WellFormed(v)
    ensures Print(v, indent) != "" && !IsBlank(Print(v, indent)[0]) && Print(v, indent)[0] != ','
      && Print(v, indent)[0] != ']'
  {
    hide FloatText;
    if v.Float? {
      FloatTextStarts(v.f);
    }
  }

  lemma ElementsStart(es: seq<Value>, indent: int)
    ensures var s := PrintElements(es, indent, false); s != "" && Stop(s[0])
  {
  }

  lemma FieldsStart(fs: seq<Field>, indent: int)
    ensures var s := PrintFields(fs, indent, false); s != "" && Stop(s[0])
  {
  }

  // ---------------------------------------------------------------- scalars

  lemma KeywordReads(t: string, p: nat, w: string, depth: nat)
    requires w in {"null", "true", "false"} && Has(t, p, w) && Stop(At(t, p + |w|)) && depth + 1 < MAX_DEPTH
    ensures ReadValue(t, p, depth) ==
      Got(if w == "null" then Null else if w == "true" then Bool(true) else Bool(false), p + |w|)
  {
    hide ReadObject, ReadArray, ReadFields, ReadElements, StringAt, NumberAt;
    HasAt(t, p, w, 0);
    WordAt(t, p, w);
    HasStarts(t, p, "null");
  }

  lemma IntegerReads(t: string, p: nat, i: int, depth: nat)
    requires LONG_MIN <= i <= LONG_MAX && Has(t, p, DecimalText(i)) && Stop(At(t, p + |DecimalText(i)|))
    requires depth + 1 < MAX_DEPTH
    ensures ReadValue(t, p, depth) == Got(Int(i), p + |DecimalText(i)|)
  {
    hide ReadObject, ReadArray, ReadFields, ReadElements, StringAt, NumberAt, Digits;
    HasAt(t, p, DecimalText(i), 0);
    IntegerRoundTrip(t, p, i);
  }

  lemma FloatTextStarts(f: Floats.Float)
    ensures FloatText(f) != "" && (FloatText(f)[0] == '-' || IsDigit(FloatText(f)[0]))
  {
    hide FixedDigits, ExponentText, Floats.ToDecimal;
  }

  lemma FloatReads(t: string, p: nat, f: Floats.Float, depth: nat)
    requires Has(t, p, FloatText(f)) && Stop(At(t, p + |FloatText(f)|)) && depth + 1 < MAX_DEPTH
    ensures ReadValue(t, p, depth) == Got(Float(f), p + |FloatText(f)|)
  {
    hide ReadObject, ReadArray, ReadFields, ReadElements, StringAt, NumberAt, FloatText;
    FloatTextStarts(f);
    HasAt(t, p, FloatText(f), 0);
    FloatRoundTrip(t, p, f);
  }

  lemma StringReads(t: string, p: nat, s: string, depth: nat)
    requires NulFree(s) && Has(t, p, Quote(s)) && depth + 1 < MAX_DEPTH
    ensures ReadValue(t, p, depth) == if Utf8.Valid(s) then Got(Str(s), p + |Quote(s)|) else Got(Undefined, p)
  {
    hide ReadObject, ReadArray, ReadFields, ReadElements, StringAt, NumberAt, Utf8.Valid, Escape;
    HasAt(t, p, Quote(s), 0);
    StringRoundTrip(t, p, s);
  }

  lemma NameReads(t: string, p: nat, name: string)
    requires NulFree(name) && Unquoted(name) && Has(t, p, "\"" + name + "\"")
    ensures StringAt(t, p) == if Plain(name) && Utf8.Valid(name) then Some((name, p + |name| + 2)) else None
  {
    hide StringAt, Unescape, Utf8.Valid, Has;
    assert "\"" + name + "\"" == "\"" + (name + "\"");
    HasConcat(t, p, "\"", name + "\"");
    HasConcat(t, p + 1, name, "\"");
    HasAt(t, p, "\"", 0);
    if Plain(name) {
      UnescapePlain(t, p + 1, name);
    } else {
      UnescapeControl(t, p + 1, name);
    }
    StringAtIs(t, p, name, p + |name| + 2);
  }

  // ---------------------------------------------------------------- arrays and objects

  /** What reading a printed value gives. */
  ghost predicate ReadsAs(r: Read, v: Value, p: nat, end: nat, depth: nat) {
    if Legal(v, depth) then r == Got(v, end) else r.Failed? || r == Got(Undefined, p)
  }

  /** Where the parts of a printed array lie: the value `v` at `b`, and from `c` on the rest. */
  lemma ElementLayout(es: seq<Value>, t: string, p: nat, indent: int, first: bool) returns (b: nat, c: nat)
    requires es != [] && WellFormed(es[0]) && Has(t, p, PrintElements(es, indent, first))
    ensures var text, more := Print(es[0], Deeper(indent)), PrintElements(es[1..], indent, false);
      && Has(t, b, text) && c == b + |text| && c <= |t| && Stop(At(t, c))
      && Has(t, c, more) && c + |more| == p + |PrintElements(es, indent, first)|
    ensures NextAt(t, p, b, first) && At(t, b) != ']'
  {
    hide Has, Print, Skip;
    var sep, margin := Separator(indent, first), ElementMargin(indent);
    var text, more := Print(es[0], Deeper(indent)), PrintElements(es[1..], indent, false);
    b := p + |sep| + |margin|;
    c := b + |text|;
    HasConcat(t, p, sep, margin + (text + more));
    HasConcat(t, p + |sep|, margin, text + more);
    HasConcat(t, b, text, more);
    PrintStarts(es[0], Deeper(indent));
    HasAt(t, b, text, 0);
    ElementsStart(es[1..], indent);
    HasAt(t, c, more, 0);
    SeparatorSkipped(t, p, indent, first, margin);
  }

  /** The next item of a list from `p` on starts at `q`, behind a comma unless it is the first. */
  ghost predicate NextAt(t: string, p: nat, q: nat, first: bool) {
    && p <= |t| && q < |t| && !IsBlank(At(t, q))
    && if first then Skip(t, p) == q else At(t, p) == ',' && Skip(t, p + 1) == q
  }

  lemma SeparatorSkipped(t: string, p: nat, indent: int, first: bool, margin: string)
    requires Has(t, p, Separator(indent, first)) && Has(t, p + |Separator(indent, first)|, margin) && Blank(margin)
    requires var q := p + |Separator(indent, first)| + |margin|; q < |t| && !IsBlank(At(t, q))
    ensures NextAt(t, p, p + |Separator(indent, first)| + |margin|, first)
  {
    hide Has;
    var sep := Separator(indent, first);
    SkipOver(t, p + |sep|, margin);
    if !first {
      HasAt(t, p, sep, 0);
      HasConcat(t, p, ",", Newline(indent));
      SkipOver(t, p + 1, Newline(indent));
    }
  }

  /** One round of the array loop. */
  lemma ElementStep(t: string, p: nat, b: nat, c: nat, depth: nat, done: seq<Value>, v: Value, first: bool)
    requires NextAt(t, p, b, first) && c <= |t| && At(t, b) != ']'
    requires ReadsAs(ReadValue(t, b, depth), v, b, c, depth)
    requires v.Null? || ElementKind(done) == KUndefined || ElementKind(done) == KindOf(v)
    ensures ReadElements(t, p, depth, done, first) ==
      if Legal(v, depth) then ReadElements(t, c, depth, done + [v], false) else None
  {
    hide Legal, ReadValue, ElementKind;
    ReadBehindBlanks(t, if first then Skip(t, p) else p + 1, b, depth);
  }

  lemma ElementKindOf(es: seq<Value>, v: Value)
    requires forall i :: 0 <= i < |es| ==> !es[i].Undefined?
    requires Homogeneous(es + [v]) && !v.Null?
    ensures ElementKind(es) == KUndefined || ElementKind(es) == KindOf(v)
  {
    if es != [] {
      assert (es + [v])[0] == es[0] && (es + [v])[|es|] == v;
      if es[0].Null? {
        var rest := es[1..];
        assert forall i :: 0 <= i < |rest + [v]| ==> (rest + [v])[i] == (es + [v])[i + 1];
        ElementKindOf(rest, v);
      }
    }
  }

  lemma HomogeneousPrefix(done: seq<Value>, v: Value, rest: seq<Value>)
    requires Homogeneous(done + [v] + rest)
    ensures Homogeneous(done + [v])
  {
    assert forall i :: 0 <= i < |done + [v]| ==> (done + [v])[i] == (done + [v] + rest)[i];
  }

  ghost predicate AllLegal(es: seq<Value>, depth: nat) {
    forall i :: 0 <= i < |es| ==> Legal(es[i], depth)
  }

  lemma AllLegalStep(es: seq<Value>, depth: nat)
    requires es != []
    ensures AllLegal(es, depth) <==> Legal(es[0], depth) && AllLegal(es[1..], depth)
  {
    assert es == [es[0]] + es[1..];
  }

  lemma WellFormedDefined(v: Value)
    requires WellFormed(v) && Printable(v)
    ensures !v.Undefined?
  {
  }

  lemma AllLegalEmpty(depth: nat)
    ensures AllLegal([], depth) && LegalFields([], depth)
  {
  }

  lemma ElementsEnd(done: seq<Value>, t: string, p: nat, depth: nat, indent: int)
    requires Has(t, p, PrintElements([], indent, false))
    ensures ReadElements(t, p, depth, done, false) == Some((done, p + |PrintElements([], indent, false)|))
  {
    hide Has, ReadValue;
    SkipTo(t, p, if indent >= 0 then "\n" + Pad(indent * 2) else "", ']');
  }

  lemma FieldsEnd(done: seq<Field>, t: string, p: nat, depth: nat, indent: int)
    requires Has(t, p, PrintFields([], indent, false))
    ensures ReadFields(t, p, depth, done, false) == Some((done, p + |PrintFields([], indent, false)|))
  {
    hide Has, ReadValue, StringAt;
    SkipTo(t, p, Newline(indent) + Margin(indent), '}');
  }

  lemma {:induction false} ReadPrintedElements(es: seq<Value>, done: seq<Value>, t: string, p: nat, depth: nat,
      indent: int, first: bool)
    requires first ==> es != []
    requires forall i :: 0 <= i < |es| ==> WellFormed(es[i]) && Printable(es[i])
    requires forall i :: 0 <= i < |done| ==> !done[i].Undefined?
    requires Homogeneous(done + es)
    requires Has(t, p, PrintElements(es, indent, first))
    ensures ReadElements(t, p, depth, done, first) ==
      if AllLegal(es, depth) then Some((done + es, p + |PrintElements(es, indent, first)|)) else None
    decreases es, 0
  {
    hide *;
    if es == [] {
      ElementsEnd(done, t, p, depth, indent);
      assert done + es == done;
      assert AllLegal(es, depth) by { AllLegalEmpty(depth); }
    } else {
      var v, rest := es[0], es[1..];
      assert done + es == done + [v] + rest;
      WellFormedDefined(v);
      var b, c := ElementLayout(es, t, p, indent, first);
      ReadPrinted(v, t, b, depth, Deeper(indent));
      if !v.Null? {
        HomogeneousPrefix(done, v, rest);
        ElementKindOf(done, v);
      }
      ElementStep(t, p, b, c, depth, done, v, first);
      ReadPrintedElements(rest, done + [v], t, c, depth, indent, false);
      AllLegalStep(es, depth);
    }
  }

  lemma ColonSkipped(t: string, c: nat, indent: int)
    requires Has(t, c, Colon(indent)) && !IsBlank(At(t, c + |Colon(indent)|)) && c + |Colon(indent)| <= |t|
    ensures At(t, c) == ':' && Skip(t, c + 1) == c + |Colon(indent)|
  {
    hide Has;
    HasTail(t, c, Colon(indent));
    SkipOver(t, c + 1, Colon(indent)[1..]);
  }

  /** Where the parts of a printed object lie: the name at `b`, the colon at `c`, the value at `d`, and the rest
      from `e` on. */
  lemma FieldLayout(fs: seq<Field>, t: string, p: nat, indent: int, first: bool)
    returns (b: nat, c: nat, d: nat, e: nat)
    requires fs != [] && WellFormed(fs[0].value) && Has(t, p, PrintFields(fs, indent, first))
    ensures var name, text, more := "\"" + fs[0].name + "\"", Print(fs[0].value, Deeper(indent)),
      PrintFields(fs[1..], indent, false);
      && Has(t, b, name) && c == b + |name|
      && At(t, c) == ':' && Skip(t, c + 1) == d
      && Has(t, d, text) && e == d + |text| && e <= |t| && Stop(At(t, e))
      && Has(t, e, more) && e + |more| == p + |PrintFields(fs, indent, first)|
    ensures NextAt(t, p, b, first) && At(t, b) == '"'
  {
    hide Has, Print, Skip, NextAt, WellFormed, Separator, Colon, Deeper;
    var name := "\"" + fs[0].name + "\"";
    var text, more := Print(fs[0].value, Deeper(indent)), PrintFields(fs[1..], indent, false);
    var sep, margin, colon := Separator(indent, first), Margin(Deeper(indent)), Colon(indent);
    b := p + |sep| + |margin|;
    c := b + |name|;
    d := c + |colon|;
    e := d + |text|;
    HasConcat(t, p, sep, margin + (name + (colon + (text + more))));
    HasPieces(t, p + |sep|, margin, name, colon, text, more);
    HasAt(t, b, name, 0);
    PrintStarts(fs[0].value, Deeper(indent));
    HasAt(t, d, text, 0);
    FieldsStart(fs[1..], indent);
    HasAt(t, e, more, 0);
    SeparatorSkipped(t, p, indent, first, margin);
    ColonSkipped(t, c, indent);
  }

  /** One round of the object loop. */
  lemma FieldStep(t: string, p: nat, b: nat, c: nat, d: nat, e: nat, depth: nat, done: seq<Field>, f: Field,
      first: bool)
    requires NextAt(t, p, b, first) && At(t, b) == '"' && c < |t| && At(t, c) == ':' && Skip(t, c + 1) == d && e <= |t|
    requires StringAt(t, b) == if Plain(f.name) && Utf8.Valid(f.name) then Some((f.name, c)) else None
    requires ReadsAs(ReadValue(t, d, depth), f.value, d, e, depth)
    requires !f.value.Null? && !Ordered.Has(FIELDS, done, f.name)
    ensures ReadFields(t, p, depth, done, first) ==
      if LegalField(f, depth) then ReadFields(t, e, depth, Ordered.Insert(FIELDS, done, f), false) else None
  {
    hide Legal, ReadValue, StringAt, Ordered.Has, Ordered.Insert, Plain, Utf8.Valid;
    ReadBehindBlanks(t, c + 1, d, depth);
  }

  lemma LegalFieldsStep(fs: seq<Field>, depth: nat)
    requires fs != []
    ensures LegalFields(fs, depth) <==> LegalField(fs[0], depth) && LegalFields(fs[1..], depth)
  {
    assert fs == [fs[0]] + fs[1..];
  }

  lemma FieldKey(f: Field)
    ensures FIELDS.keyOf(f) == f.name
  {
  }

  lemma WellFormedFieldParts(f: Field)
    requires WellFormedField(f) && Printable(f.value)
    ensures NulFree(f.name) && !f.value.Null? && WellFormed(f.value)
  {
  }

  lemma {:induction false} ReadPrintedFields(fs: seq<Field>, done: seq<Field>, t: string, p: nat, depth: nat,
      indent: int, first: bool)
    requires first ==> fs != []
    requires forall i :: 0 <= i < |fs| ==> WellFormedField(fs[i]) && Unquoted(fs[i].name) && Printable(fs[i].value)
    requires Ordered.Sorted(FIELDS, done + fs)
    requires Has(t, p, PrintFields(fs, indent, first))
    ensures ReadFields(t, p, depth, done, first) ==
      if LegalFields(fs, depth) then Some((done + fs, p + |PrintFields(fs, indent, first)|)) else None
    decreases fs, 0
  {
    hide *;
    if fs == [] {
      FieldsEnd(done, t, p, depth, indent);
      assert done + fs == done;
      AllLegalEmpty(depth);
    } else {
      var f, rest := fs[0], fs[1..];
      WellFormedFieldParts(f);
      var b, c, d, e := FieldLayout(fs, t, p, indent, first);
      NameReads(t, b, f.name);
      ReadPrinted(f.value, t, d, depth, Deeper(indent));
      FieldsLawful();
      assert done + fs == (done + [f]) + rest;
      Ordered.SortedParts(FIELDS, done + [f], rest);
      Ordered.InsertLast(FIELDS, done, f);
      FieldKey(f);
      FieldStep(t, p, b, c, d, e, depth, done, f, first);
      ReadPrintedFields(rest, done + [f], t, e, depth, indent, false);
      LegalFieldsStep(fs, depth);
    }
  }

  lemma {:induction false} ReadPrintedObject(fs: seq<Field>, t: string, p: nat, depth: nat, indent: int)
    requires WellFormed(Obj(fs)) && Printable(Obj(fs)) && Has(t, p, PrintObject(fs, indent))
    ensures ReadObject(t, p, depth) == if LegalFields(fs, depth) then Some((fs, p + |PrintObject(fs, indent)|))
      else None
    decreases fs, 2
  {
    hide Has, ReadFields, PrintFields, LegalField;
    var text := PrintObject(fs, indent);
    HasAt(t, p, text, 0);
    if fs == [] {
      HasAt(t, p, text, 1);
      ReadsEmpty(t, p + 1, depth);
    } else {
      var n, rest := Newline(indent), PrintFields(fs, indent, true);
      HasConcat(t, p, "{", n + rest);
      HasConcat(t, p + 1, n, rest);
      SkipOver(t, p + 1, n);
      assert [] + fs == fs;
      ReadPrintedFields(fs, [], t, p + 1 + |n|, depth, indent, true);
      FieldsBehindBlanks(t, p + 1, p + 1 + |n|, depth);
    }
  }

  lemma ReadsEmpty(t: string, p: nat, depth: nat)
    requires p <= |t|
    ensures At(t, p) == '}' ==> ReadFields(t, p, depth, [], true) == Some(([], p + 1))
    ensures At(t, p) == ']' ==> ReadElements(t, p, depth, [], true) == Some(([], p + 1))
  {
    hide StringAt, ReadValue, ElementKind, Ordered.Has, Ordered.Insert;
  }

  lemma FieldsBehindBlanks(t: string, p: nat, q: nat, depth: nat)
    requires p <= |t| && q <= |t| && Skip(t, p) == Skip(t, q)
    ensures ReadFields(t, p, depth, [], true) == ReadFields(t, q, depth, [], true)
    ensures ReadElements(t, p, depth, [], true) == ReadElements(t, q, depth, [], true)
  {
    hide StringAt, ReadValue, ElementKind, Ordered.Has, Ordered.Insert;
  }

  lemma {:induction false} ReadPrintedArray(es: seq<Value>, t: string, p: nat, depth: nat, indent: int)
    requires WellFormed(Arr(es)) && Printable(Arr(es)) && Has(t, p, Print(Arr(es), indent))
    ensures ReadArray(t, p, depth) == if AllLegal(es, depth) then Some((es, p + |Print(Arr(es), indent)|)) else None
    decreases es, 2
  {
    hide Has, ReadElements, PrintElements, Legal;
    var text := Print(Arr(es), indent);
    HasAt(t, p, text, 0);
    if es == [] {
      HasAt(t, p, text, 1);
      ReadsEmpty(t, p + 1, depth);
    } else {
      var n, rest := Newline(indent), PrintElements(es, indent, true);
      HasConcat(t, p, "[", n + rest);
      HasConcat(t, p + 1, n, rest);
      SkipOver(t, p + 1, n);
      assert [] + es == es;
      ReadPrintedElements(es, [], t, p + 1 + |n|, depth, indent, true);
      FieldsBehindBlanks(t, p + 1, p + 1 + |n|, depth);
    }
  }

  lemma TooDeep(v: Value, t: string, p: nat, depth: nat)
    requires depth + 1 >= MAX_DEPTH && p <= |t|
    ensures ReadValue(t, p, depth).Failed? && !Legal(v, depth)
  {
  }

  lemma ReadsBracket(t: string, p: nat, depth: nat)
    requires depth + 1 < MAX_DEPTH && p < |t|
    ensures At(t, p) == '[' ==>
      var r := ReadArray(t, p, depth + 1);
      ReadValue(t, p, depth) == if r.None? then Failed else Got(Arr(r.value.0), r.value.1)
    ensures At(t, p) == '{' ==>
      var r := ReadObject(t, p, depth + 1);
      ReadValue(t, p, depth) == if r.None? then Failed else Got(Obj(r.value.0), r.value.1)
  {
    hide ReadArray, ReadObject, StringAt, NumberAt, KeywordAt;
  }

  lemma {:induction false} ReadPrintedShallow(v: Value, t: string, p: nat, depth: nat, indent: int)
    requires WellFormed(v) && Printable(v) && Has(t, p, Print(v, indent))
    requires Stop(At(t, p + |Print(v, indent)|)) && depth + 1 < MAX_DEPTH
    ensures ReadsAs(ReadValue(t, p, depth), v, p, p + |Print(v, indent)|, depth)
    decreases v, 0, 0
  {
    hide ReadValue, ReadArray, ReadObject, PrintElements, PrintFields, Utf8.Valid, Escape, Digits, Has;
    PrintStarts(v, indent);
    HasAt(t, p, Print(v, indent), 0);
    match v
    case Null => KeywordReads(t, p, "null", depth);
    case Bool(b) => KeywordReads(t, p, if b then "true" else "false", depth);
    case Int(i) => IntegerReads(t, p, i, depth);
    case Float(f) => FloatReads(t, p, f, depth);
    case Str(s) => StringReads(t, p, s, depth);
    case Arr(es) =>
      ReadPrintedArray(es, t, p, depth + 1, indent);
      ReadsBracket(t, p, depth);
    case Obj(fs) =>
      ReadPrintedObject(fs, t, p, depth + 1, indent);
      ReadsBracket(t, p, depth);
  }

  /** Reading a printed value gives the value itself, or nothing where the scanner does not accept it. */
  lemma {:induction false} ReadPrinted(v: Value, t: string, p: nat, depth: nat, indent: int)
    requires WellFormed(v) && Printable(v) && Has(t, p, Print(v, indent))
    requires Stop(At(t, p + |Print(v, indent)|))
    ensures ReadsAs(ReadValue(t, p, depth), v, p, p + |Print(v, indent)|, depth)
    decreases v, 0, 1
  {
    hide ReadValue, Legal, Print, WellFormed, Printable;
    if depth + 1 >= MAX_DEPTH {
      TooDeep(v, t, p, depth);
    } else {
      ReadPrintedShallow(v, t, p, depth, indent);
    }
  }

  /** Parsing a printed object gives the object back exactly when the scanner accepts its strings, names and
      depth, whatever the indentation; otherwise parsing fails. */
  lemma RoundTrip(fs: seq<Field>, indent: int)
    requires WellFormed(Obj(fs)) && Printable(Obj(fs))
    ensures Parse(PrintObject(fs, indent)) == if LegalFields(fs, 0) then Some(fs) else None
  {
    hide ReadObject, PrintObject, LegalField, WellFormed, Printable;
    var t := PrintObject(fs, indent);
    HasWhole(t);
    ReadPrintedObject(fs, t, 0, 0, indent);
  }

  /** Names are printed as they are: the text of a field with a quote in its name can be that of two fields. */
  function Forged(a: Field, b: Field): Field {
    Field(a.name + "\":" + Print(a.value, -1) + ",\"" + b.name, b.value)
  }

  /** Whatever two fields are chosen, the one field forged of them reads back as the two. */
  lemma QuotedNameForges(a: Field, b: Field)
    requires WellFormed(Obj([a, b])) && Printable(Obj([a, b])) && LegalFields([a, b], 0)
    ensures Parse(PrintObject([Forged(a, b)], -1)) == Some([a, b])
  {
    hide PrintObject, PrintFields, Print, Parse, WellFormed, Printable, LegalField;
    var v, w := Print(a.value, -1), Print(b.value, -1);
    var f := Forged(a, b);
    assert [f] + [] == [f] && [a] + [b] == [a, b] && [b] + [] == [b];
    PrintOne(f, []);
    PrintOne(a, [b]);
    PrintOne(b, []);
    Regroup("{\"", a.name, "\":", v, ",\"", b.name, "\":", w, "}");
    RoundTrip([a, b], -1);
  }

  lemma Regroup(a: string, b: string, c: string, d: string, e: string, f: string, g: string, h: string, i: string)
    ensures a + (b + c + d + e + f) + g + h + i == a + b + c + d + (e + f + g + h + i)
  {
    assert b + c + d + e + f == b + c + d + (e + f);
    assert e + f + g + h + i == (e + f) + (g + h + i);
  }

  lemma PrintOne(f: Field, rest: seq<Field>)
    ensures PrintFields([f] + rest, -1, true) ==
      "\"" + f.name + "\":" + Print(f.value, -1) + PrintFields(rest, -1, false)
    ensures PrintFields([f] + rest, -1, false) ==
      ",\"" + f.name + "\":" + Print(f.value, -1) + PrintFields(rest, -1, false)
    ensures PrintObject([f] + rest, -1) == "{\"" + f.name + "\":" + Print(f.value, -1) + PrintFields(rest, -1, false)
    ensures PrintFields([], -1, false) == "}"
  {
    hide Print;
    var fs := [f] + rest;
    assert fs[0] == f && fs[1..] == rest;
    assert Separator(-1, true) == "" && Separator(-1, false) == "," && Margin(-1) == "" && Colon(-1) == ":";
  }
}
