/** What the parser accepts. */
module JsonSound {
  import opened Text
  import opened Tokens
  import opened Literals
  import opened Json
  import opened JsonRoundTrip
  import Ordered
  import Utf8

  /** Valid UTF-8 in all strings and names, and fewer than MAX_DEPTH levels below `depth` enclosing ones. */
  ghost predicate Sound(v: Value, depth: nat)
    decreases v
  {
    depth + 1 < MAX_DEPTH &&
    match v
    case Str(s) => Utf8.Valid(s)
    case Arr(es) => forall i :: 0 <= i < |es| ==> Sound(es[i], depth + 1)
    case Obj(fs) => forall i :: 0 <= i < |fs| ==> SoundField(fs[i], depth + 1)
    case _ => true
  }

  ghost predicate SoundField(f: Field, depth: nat)
    decreases f
  {
    Utf8.Valid(f.name) && Sound(f.value, depth)
  }

  ghost predicate GoodElements(es: seq<Value>, depth: nat) {
    Homogeneous(es) && forall i :: 0 <= i < |es| ==> WellFormed(es[i]) && Sound(es[i], depth)
  }

  ghost predicate GoodFields(fs: seq<Field>, depth: nat) {
    Ordered.Sorted(FIELDS, fs) && forall i :: 0 <= i < |fs| ==> WellFormedField(fs[i]) && SoundField(fs[i], depth)
  }

  lemma {:induction false} ValidIsNulFree(s: string)
    requires Utf8.Valid(s)
    ensures NulFree(s)
  {
    if s != "" {
      var n := Utf8.SequenceLength(s);
      ValidIsNulFree(s[n..]);
      assert forall i :: n <= i < |s| ==> s[i] == s[n..][i - n];
    }
  }

  lemma {:induction false} KindCovers(es: seq<Value>, i: nat)
    requires Homogeneous(es) && i < |es| && !es[i].Null? && !es[i].Undefined?
    ensures ElementKind(es) == KindOf(es[i])
  {
    if i > 0 && (es[0].Null? || es[0].Undefined?) {
      var rest := es[1..];
      assert forall j :: 0 <= j < |rest| ==> rest[j] == es[j + 1];
      KindCovers(rest, i - 1);
    }
  }

  lemma AppendElement(es: seq<Value>, v: Value, depth: nat)
    requires GoodElements(es, depth) && WellFormed(v) && Sound(v, depth)
    requires v.Null? || ElementKind(es) == KUndefined || ElementKind(es) == KindOf(v)
    ensures GoodElements(es + [v], depth)
  {
    hide WellFormed, Sound, ElementKind;
    forall i | 0 <= i < |es| && !es[i].Null? ensures v.Null? || KindOf(es[i]) == KindOf(v) {
      WellFormedKind(es[i]);
      KindCovers(es, i);
    }
  }

  lemma WellFormedKind(v: Value)
    requires WellFormed(v)
    ensures KindOf(v) != KUndefined
  {
  }

  lemma AddField(fs: seq<Field>, f: Field, depth: nat)
    requires GoodFields(fs, depth) && WellFormedField(f) && SoundField(f, depth) && !Ordered.Has(FIELDS, fs, f.name)
    ensures GoodFields(Ordered.Insert(FIELDS, fs, f), depth)
  {
    hide WellFormedField, SoundField, Ordered.Has;
    FieldsLawful();
    FieldKey(f);
    Ordered.InsertSorted(FIELDS, fs, f);
  }

  lemma StringIsGood(t: string, p: nat)
    requires p <= |t| && StringAt(t, p).Some?
    ensures var s := StringAt(t, p).value.0; Utf8.Valid(s) && NulFree(s)
  {
    ValidIsNulFree(StringAt(t, p).value.0);
  }

  /** A value that is read is well formed and not nested too deeply, unless it is an unread string. */
  lemma {:induction false} ReadIsGood(t: string, p: nat, depth: nat)
    requires p <= |t|
    ensures var r := ReadValue(t, p, depth);
      r.Got? && !r.value.Undefined? ==> WellFormed(r.value) && Sound(r.value, depth)
    decreases |t| - p, 2
  {
    hide StringAt, NumberAt, KeywordAt, Utf8.Valid, ReadArray, ReadObject;
    var q := Skip(t, p);
    if At(t, q) == '{' {
      ReadObjectIsGood(t, q, depth + 1);
    } else if At(t, q) == '[' {
      ReadArrayIsGood(t, q, depth + 1);
    } else if StringAt(t, q).Some? {
      StringIsGood(t, q);
    }
  }

  lemma {:induction false} ReadObjectIsGood(t: string, p: nat, depth: nat)
    requires p <= |t| && At(t, p) == '{'
    ensures var r := ReadObject(t, p, depth); r.Some? ==> GoodFields(r.value.0, depth)
    decreases |t| - p, 1
  {
    hide ReadFields;
    ReadFieldsIsGood(t, p + 1, depth, [], true);
  }

  lemma {:induction false} ReadArrayIsGood(t: string, p: nat, depth: nat)
    requires p <= |t| && At(t, p) == '['
    ensures var r := ReadArray(t, p, depth); r.Some? ==> GoodElements(r.value.0, depth)
    decreases |t| - p, 1
  {
    hide ReadElements;
    ReadElementsIsGood(t, p + 1, depth, [], true);
  }

  /** Behind an unread string a list cannot go on. */
  lemma StuckAtString(t: string, p: nat, depth: nat, es: seq<Value>, fs: seq<Field>)
    requires p <= |t| && At(t, p) == '"'
    ensures ReadElements(t, p, depth, es, false) == None
    ensures ReadFields(t, p, depth, fs, false) == None
  {
    hide StringAt, ReadValue, ElementKind, Ordered.Has, Ordered.Insert;
  }

  lemma {:induction false} ReadElementsIsGood(t: string, p: nat, depth: nat, es: seq<Value>, first: bool)
    requires p <= |t| && GoodElements(es, depth)
    ensures var r := ReadElements(t, p, depth, es, first); r.Some? ==> GoodElements(r.value.0, depth)
    decreases |t| - p, if first then 4 else 3
  {
    hide ReadValue, ElementKind, WellFormed, Sound, GoodElements;
    var q := Skip(t, p);
    if At(t, q) != ']' && (first || At(t, q) == ',') {
      var start := if first then q else q + 1;
      ReadIsGood(t, start, depth);
      var r := ReadValue(t, start, depth);
      if r.Got? && (r.value.Null? || ElementKind(es) == KUndefined || ElementKind(es) == KindOf(r.value)) {
        if r.value.Undefined? {
          StuckAtString(t, r.next, depth, es + [r.value], []);
        } else {
          AppendElement(es, r.value, depth);
          ReadElementsIsGood(t, r.next, depth, es + [r.value], false);
        }
      }
    }
  }

  lemma {:induction false} ReadFieldsIsGood(t: string, p: nat, depth: nat, fs: seq<Field>, first: bool)
    requires p <= |t| && GoodFields(fs, depth)
    ensures var r := ReadFields(t, p, depth, fs, first); r.Some? ==> GoodFields(r.value.0, depth)
    decreases |t| - p, 3
  {
    hide ReadValue, StringAt, Ordered.Has, Ordered.Insert, WellFormed, Sound, GoodFields, Utf8.Valid;
    var q := Skip(t, p);
    if At(t, q) != '}' && (first || At(t, q) == ',') {
      var start := Skip(t, if first then q else q + 1);
      if StringAt(t, start).Some? {
        StringIsGood(t, start);
        var (name, n) := StringAt(t, start).value;
        var c := Skip(t, n);
        if At(t, c) == ':' && !Ordered.Has(FIELDS, fs, name) {
          ReadIsGood(t, c + 1, depth);
          var r := ReadValue(t, c + 1, depth);
          if r.Got? {
            if r.value.Undefined? {
              StuckAtString(t, r.next, depth, [], Ordered.Insert(FIELDS, fs, Field(name, Undefined)));
            } else if r.value.Null? {
              ReadFieldsIsGood(t, r.next, depth, fs, false);
            } else {
              var f := Field(name, r.value);
              AddField(fs, f, depth);
              ReadFieldsIsGood(t, r.next, depth, Ordered.Insert(FIELDS, fs, f), false);
            }
          }
        }
      }
    }
  }

  /** An accepted document is a well-formed object: nothing in it is undefined, null fields are gone, names are
      sorted and unique, arrays are homogeneous, strings and names are valid UTF-8, nesting stays below MAX_DEPTH. */
  lemma AcceptedIsGood(t: string)
    requires Parse(t).Some?
    ensures WellFormed(Obj(Parse(t).value)) && GoodFields(Parse(t).value, 0)
  {
    hide ReadFields;
    if At(t, Skip(t, 0)) == '{' {
      ReadFieldsIsGood(t, Skip(t, 0) + 1, 0, [], true);
    }
  }

  /** All names can be printed between quotes as they are. */
  ghost predicate PlainNames(v: Value) {
    match v
    case Arr(es) => forall i :: 0 <= i < |es| ==> PlainNames(es[i])
    case Obj(fs) => forall i :: 0 <= i < |fs| ==> PlainName(fs[i])
    case _ => true
  }

  ghost predicate PlainName(f: Field) {
    Plain(f.name) && PlainNames(f.value)
  }

  lemma {:induction false} SoundIsLegal(v: Value, depth: nat)
    requires Sound(v, depth) && PlainNames(v)
    ensures Legal(v, depth)
    decreases v
  {
    hide Utf8.Valid;
    match v
    case Arr(es) =>
      forall i | 0 <= i < |es| ensures Legal(es[i], depth + 1) {
        SoundIsLegal(es[i], depth + 1);
      }
    case Obj(fs) =>
      forall i | 0 <= i < |fs| ensures LegalField(fs[i], depth + 1) {
        SoundIsLegal(fs[i].value, depth + 1);
      }
    case _ =>
  }

  /** Printing an accepted document without floats and with plain names, and parsing the result, changes nothing:
      the printed form is canonical. */
  lemma ParsePrintParse(t: string, indent: int)
    requires Parse(t).Some? && Printable(Obj(Parse(t).value)) && PlainNames(Obj(Parse(t).value))
    ensures Parse(PrintObject(Parse(t).value, indent)) == Parse(t)
  {
    hide Parse, PrintObject;
    var fs := Parse(t).value;
    AcceptedIsGood(t);
    RoundTrip(fs, indent);
    forall i | 0 <= i < |fs| ensures LegalField(fs[i], 0) {
      assert SoundField(fs[i], 0) && PlainName(fs[i]);
      SoundIsLegal(fs[i].value, 0);
    }
  }
}
