/** JSON documents as they can be written, and what they stand for: exactly these are accepted (lib/value.c,
    lib/object.c, lib/array.c). */
module JsonGrammar {
  import opened Text
  import opened Tokens
  import opened Literals
  import opened Json
  import opened JsonRoundTrip
  import opened Numerals
  import opened Spellings
  import JsonSound
  import Ordered
  import Utf8

  // ---------------------------------------------------------------- what can be written

  /** A value with the blanks in front of it. */
  datatype Written = Written(lead: string, form: Form)

  /** Elements and entries are kept with the blanks in front of the comma that separates them from the one before; a
      list ends with the blanks in front of its bracket. */
  datatype Form =
    | WNull
    | WBool(b: bool)
    | WNumber(n: Numeral)
    | WString(s: seq<Spelling>)
    | WArray(items: seq<Item>, close: string)
    | WObject(entries: seq<Entry>, close: string)

  datatype Item = Item(gap: string, value: Written)

  datatype Entry = Entry(gap: string, lead: string, name: seq<Spelling>, colon: string, value: Written)

  /** A document is an object between blanks. */
  datatype Document = Document(lead: string, entries: seq<Entry>, close: string, trail: string)

  function FormText(f: Form): string
    decreases f, 0
  {
    match f
    case WNull => "null"
    case WBool(b) => if b then "true" else "false"
    case WNumber(n) => Numerals.TextOf(n)
    case WString(s) => Literal(s)
    case WArray(items, close) => "[" + ItemsText(items, close, true)
    case WObject(entries, close) => "{" + EntriesText(entries, close, true)
  }

  function TextOf(w: Written): string
    decreases w, 0
  {
    w.lead + FormText(w.form)
  }

  function Comma(gap: string, first: bool): string {
    if first then "" else gap + ","
  }

  function ItemsText(items: seq<Item>, close: string, first: bool): string
    decreases items, 0
  {
    if items == [] then close + "]"
    else Comma(items[0].gap, first) + (TextOf(items[0].value) + ItemsText(items[1..], close, false))
  }

  function EntriesText(entries: seq<Entry>, close: string, first: bool): string
    decreases entries, 0
  {
    if entries == [] then close + "}"
    else
      var e := entries[0];
      Comma(e.gap, first) + (e.lead + (Literal(e.name) + (e.colon + (":" + (TextOf(e.value)
        + EntriesText(entries[1..], close, false))))))
  }

  function DocumentText(d: Document): string {
    d.lead + (("{" + EntriesText(d.entries, d.close, true)) + d.trail)
  }

  // ---------------------------------------------------------------- what it stands for

  function NumberOf(n: Numeral): Value {
    if !WellWritten(n) then Undefined
    else
      match Meaning(n, false)
      case None => Undefined
      case Some(Integer(i)) => Int(i)
      case Some(Decimal(f)) => Float(f)
  }

  function StringOf(s: seq<Spelling>): string {
    if AllProper(s) then BodyMeaning(s) else ""
  }

  function ValueOf(f: Form): Value
    decreases f, 0
  {
    match f
    case WNull => Null
    case WBool(b) => Bool(b)
    case WNumber(n) => NumberOf(n)
    case WString(s) => Str(StringOf(s))
    case WArray(items, _) => Arr(ValuesOf(items))
    case WObject(entries, _) => Obj(FieldsOf([], entries))
  }

  function ValuesOf(items: seq<Item>): seq<Value>
    decreases items, 0
  {
    if items == [] then [] else [ValueOf(items[0].value.form)] + ValuesOf(items[1..])
  }

  /** Entries that are null are left out. */
  function FieldsOf(fs: seq<Field>, entries: seq<Entry>): seq<Field>
    decreases entries, 0
  {
    if entries == [] then fs
    else
      var v := ValueOf(entries[0].value.form);
      FieldsOf(if v.Null? then fs else Ordered.Insert(FIELDS, fs, Field(StringOf(entries[0].name), v)), entries[1..])
  }

  // ---------------------------------------------------------------- what is allowed

  predicate AllBlank(s: string) {
    forall i :: 0 <= i < |s| ==> s[i] == ' ' || s[i] == '\t' || s[i] == '\n'
  }

  predicate GoodString(s: seq<Spelling>) {
    AllProper(s) && Utf8.Valid(StringOf(s))
  }

  /** A numeral that fits, without further blanks in front of it. */
  predicate GoodNumber(n: Numeral) {
    WellWritten(n) && Meaning(n, false).Some? && (n.space != "" ==> !AllBlank(n.space[..1]))
  }

  /** Fewer than a thousand levels, arrays of one kind of values and nulls, and no name that has been given a value
      before. */
  ghost predicate Good(w: Written, depth: nat)
    decreases w, 0
  {
    && AllBlank(w.lead) && depth + 1 < 1000
    && match w.form
       case WNumber(n) => GoodNumber(n)
       case WString(s) => GoodString(s)
       case WArray(items, close) => AllBlank(close) && Homogeneous(ValuesOf(items)) && GoodItems(items, depth + 1)
       case WObject(entries, close) => AllBlank(close) && NewNames(entries) && GoodEntries(entries, depth + 1)
       case _ => true
  }

  ghost predicate GoodItems(items: seq<Item>, depth: nat)
    decreases items, 0
  {
    forall i :: 0 <= i < |items| ==> AllBlank(items[i].gap) && Good(items[i].value, depth)
  }

  ghost predicate GoodEntries(entries: seq<Entry>, depth: nat)
    decreases entries, 0
  {
    forall i :: 0 <= i < |entries| ==> GoodEntry(entries[i], depth)
  }

  ghost predicate GoodEntry(e: Entry, depth: nat)
    decreases e, 0
  {
    AllBlank(e.gap) && AllBlank(e.lead) && AllBlank(e.colon) && GoodString(e.name) && Good(e.value, depth)
  }

  predicate NewNames(entries: seq<Entry>) {
    forall i, j :: 0 <= i < j < |entries| && StringOf(entries[i].name) == StringOf(entries[j].name) ==>
      ValueOf(entries[i].value.form).Null?
  }

  ghost predicate GoodDocument(d: Document) {
    AllBlank(d.lead) && AllBlank(d.close) && AllBlank(d.trail) && NewNames(d.entries) && GoodEntries(d.entries, 0)
  }

  /** The fields of an object are its entries that are not null, sorted by name. */
  lemma {:induction false} FieldsAre(fs: seq<Field>, entries: seq<Entry>)
    requires Ordered.Sorted(FIELDS, fs) && NewNames(entries)
    requires forall i, j :: 0 <= i < |fs| && 0 <= j < |entries| ==> fs[i].name != StringOf(entries[j].name)
    ensures Ordered.Sorted(FIELDS, FieldsOf(fs, entries))
    ensures forall x ::
      x in FieldsOf(fs, entries) <==> x in fs || exists i :: 0 <= i < |entries| && Gives(entries[i], x)
    decreases entries
  {
    hide Ordered.Sorted, Ordered.Insert, ValueOf, StringOf;
    if entries != [] {
      var e, rest := entries[0], entries[1..];
      var v, name := ValueOf(e.value.form), StringOf(e.name);
      assert forall j :: 0 <= j < |rest| ==> rest[j] == entries[j + 1];
      var next := if v.Null? then fs else Ordered.Insert(FIELDS, fs, Field(name, v));
      if !v.Null? {
        AddOne(fs, Field(name, v));
        forall i, j | 0 <= i < |next| && 0 <= j < |rest| ensures next[i].name != StringOf(rest[j].name) {
          assert next[i] in next;
        }
      }
      FieldsAre(next, rest);
      forall x
        ensures x in FieldsOf(fs, entries) <==> x in fs || exists i :: 0 <= i < |entries| && Gives(entries[i], x)
      {
        if i :| 0 <= i < |rest| && Gives(rest[i], x) {
          assert Gives(entries[i + 1], x);
        }
        if i :| 0 <= i < |entries| && Gives(entries[i], x) {
          assert i == 0 || Gives(rest[i - 1], x);
        }
      }
    }
  }

  ghost predicate Gives(e: Entry, x: Field) {
    !ValueOf(e.value.form).Null? && x == Field(StringOf(e.name), ValueOf(e.value.form))
  }

  lemma AddOne(fs: seq<Field>, f: Field)
    requires Ordered.Sorted(FIELDS, fs) && forall i :: 0 <= i < |fs| ==> fs[i].name != f.name
    ensures !Ordered.Has(FIELDS, fs, f.name) && Ordered.Sorted(FIELDS, Ordered.Insert(FIELDS, fs, f))
    ensures forall x :: x in Ordered.Insert(FIELDS, fs, f) <==> x in fs || x == f
  {
    hide Ordered.Sorted, Ordered.Has, Ordered.Rank, Ordered.Lawful;
    FieldsLawful();
    FieldKey(f);
    Ordered.HasIff(FIELDS, fs, f.name);
    Ordered.InsertSorted(FIELDS, fs, f);
    var r := Ordered.Rank(FIELDS, fs, f.name);
    assert fs == fs[..r] + fs[r..];
  }

  // ---------------------------------------------------------------- all that is allowed is read

  /** A value ends here. */
  predicate Stops(t: string, p: nat) {
    At(t, p) in {',', ']', '}', ' ', '\t', '\n'}
  }

  lemma {:induction false} SkipBlanks(t: string, p: nat, b: string)
    requires AllBlank(b) && Has(t, p, b) && !IsBlank(At(t, p + |b|))
    ensures p <= |t| && Skip(t, p) == p + |b|
    decreases |b|
  {
    if b != "" {
      HasTail(t, p, b);
      SkipBlanks(t, p + 1, b[1..]);
    }
  }

  lemma Inside(t: string, p: nat, s: string)
    requires Has(t, p, s)
    ensures p + |s| <= |t|
  {
  }

  lemma FormStarts(f: Form)
    requires f.WNumber? ==> GoodNumber(f.n)
    ensures FormText(f) != "" && !IsBlank(FormText(f)[0]) && FormText(f)[0] !in {']', '}', ','}
    ensures FormText(f)[0] == '{' <==> f.WObject?
    ensures FormText(f)[0] == '[' <==> f.WArray?
    ensures FormText(f)[0] == '"' <==> f.WString?
    ensures f.WNumber? ==> !IsAlpha(FormText(f)[0])
  {
    hide ItemsText, EntriesText, BodyText, Meaning;
    if f.WNumber? {
      NumberStarts(f.n);
    }
  }

  lemma NumberStarts(n: Numeral)
    requires GoodNumber(n)
    ensures Numerals.TextOf(n) != ""
    ensures var c := Numerals.TextOf(n)[0]; !IsBlank(c) && c !in {']', '}', ',', '{', '[', '"'} && !IsAlpha(c)
  {
    hide Meaning, FractionText, Numerals.ExponentText;
    var tail := n.whole + (FractionText(n.fraction) + Numerals.ExponentText(n.exponent));
    assert tail[0] == n.whole[0];
    if n.space != "" {
      assert n.space[..1] == [n.space[0]];
    }
  }

  /** Where a value starts, and that nothing but its own kind can start there. */
  lemma StartsAt(w: Written, t: string, p: nat, depth: nat)
    requires Good(w, depth) && Has(t, p, TextOf(w))
    ensures var q := p + |w.lead|;
      && q < |t| && Skip(t, p) == q && Has(t, q, FormText(w.form)) && p + |TextOf(w)| == q + |FormText(w.form)| <= |t|
      && !IsBlank(At(t, q)) && At(t, q) !in {']', '}', ','}
      && (At(t, q) == '{' <==> w.form.WObject?) && (At(t, q) == '[' <==> w.form.WArray?)
      && (At(t, q) == '"' <==> w.form.WString?) && (w.form.WNumber? ==> !IsAlpha(At(t, q)))
  {
    hide FormText, Has, ValueOf;
    HasConcat(t, p, w.lead, FormText(w.form));
    FormStarts(w.form);
    HasAt(t, p + |w.lead|, FormText(w.form), 0);
    SkipBlanks(t, p, w.lead);
    Inside(t, p + |w.lead|, FormText(w.form));
  }

  lemma WordIsRead(t: string, q: nat, word: string, depth: nat)
    requires word in {"null", "true", "false"} && Has(t, q, word) && !IsWordChar(At(t, q + |word|))
    requires depth + 1 < MAX_DEPTH
    ensures q <= |t|
    ensures ReadValue(t, q, depth) ==
      Got(if word == "null" then Null else Bool(word == "true"), q + |word|)
  {
    hide ReadArray, ReadObject, NumberAt, StringAt;
    HasAt(t, q, word, 0);
    WordAt(t, q, word);
  }

  lemma NumberIsRead(t: string, q: nat, n: Numeral, depth: nat)
    requires GoodNumber(n) && Has(t, q, Numerals.TextOf(n)) && Stops(t, q + |Numerals.TextOf(n)|)
    requires q < |t| && Skip(t, q) == q && At(t, q) !in {'{', '[', '"'} && !IsAlpha(At(t, q)) && depth + 1 < MAX_DEPTH
    ensures ReadValue(t, q, depth) == Got(NumberOf(n), q + |Numerals.TextOf(n)|)
  {
    hide ReadArray, ReadObject, NumberAt, StringAt, WellWritten, Meaning, Numerals.TextOf, Has;
    NumeralIsRead(t, q, n);
  }

  ghost predicate GoodForm(f: Form, depth: nat) {
    match f
    case WNumber(n) => GoodNumber(n)
    case WString(s) => GoodString(s)
    case WArray(items, close) => AllBlank(close) && Homogeneous(ValuesOf(items)) && GoodItems(items, depth + 1)
    case WObject(entries, close) => AllBlank(close) && NewNames(entries) && GoodEntries(entries, depth + 1)
    case _ => true
  }

  lemma GoodParts(w: Written, depth: nat)
    ensures Good(w, depth) <==> AllBlank(w.lead) && depth + 1 < 1000 && GoodForm(w.form, depth)
  {
    hide AllBlank, GoodNumber, GoodString, Homogeneous, NewNames, GoodItems, GoodEntries;
  }

  /** A value is read as what it stands for. */
  lemma {:induction false} WrittenIsRead(w: Written, t: string, p: nat, depth: nat)
    requires Good(w, depth) && Has(t, p, TextOf(w)) && Stops(t, p + |TextOf(w)|)
    ensures p <= |t| && ReadValue(t, p, depth) == Got(ValueOf(w.form), p + |TextOf(w)|)
    ensures !ValueOf(w.form).Undefined?
    decreases w, 0
  {
    hide ReadValue, Has, Skip, TextOf, Good, GoodForm, Stops;
    var q := p + |w.lead|;
    StartsAt(w, t, p, depth);
    SkipTwice(t, p);
    ReadBehindBlanks(t, p, q, depth);
    GoodParts(w, depth);
    FormIsRead(w.form, t, q, depth);
  }

  /** The same for a value without blanks in front of it. */
  lemma {:induction false} FormIsRead(f: Form, t: string, q: nat, depth: nat)
    requires GoodForm(f, depth) && depth + 1 < MAX_DEPTH && Has(t, q, FormText(f)) && Stops(t, q + |FormText(f)|)
    requires q < |t| && Skip(t, q) == q && (f.WNumber? ==> At(t, q) !in {'{', '[', '"'} && !IsAlpha(At(t, q)))
    ensures ReadValue(t, q, depth) == Got(ValueOf(f), q + |FormText(f)|) && !ValueOf(f).Undefined?
    decreases f, 1
  {
    hide ReadValue, Has, Skip, Meaning, WellWritten, ValuesOf, FieldsOf, GoodItems, GoodEntries, NewNames, Homogeneous,
      AllBlank, ItemsText, EntriesText, Literal, StringOf, GoodString;
    match f {
      case WNull => WordIsRead(t, q, "null", depth);
      case WBool(b) => WordIsRead(t, q, if b then "true" else "false", depth);
      case WNumber(n) => NumberIsRead(t, q, n, depth);
      case WString(s) => StringIsRead(s, t, q, depth);
      case WArray(items, close) => ArrayIsRead(items, close, t, q, depth);
      case WObject(entries, close) => ObjectIsRead(entries, close, t, q, depth);
    }
  }

  lemma StringIsRead(s: seq<Spelling>, t: string, q: nat, depth: nat)
    requires GoodString(s) && depth + 1 < MAX_DEPTH && Has(t, q, Literal(s)) && q < |t| && Skip(t, q) == q
    ensures ReadValue(t, q, depth) == Got(Str(StringOf(s)), q + |Literal(s)|)
  {
    hide ReadValue, Has, Skip, StringAt, Utf8.Valid, Literal, BodyMeaning;
    LiteralStarts(t, q, s);
    LiteralIsRead(t, q, s);
    StringValue(t, q, depth);
  }

  lemma {:induction false} ArrayIsRead(items: seq<Item>, close: string, t: string, q: nat, depth: nat)
    requires AllBlank(close) && Homogeneous(ValuesOf(items)) && GoodItems(items, depth + 1) && depth + 1 < MAX_DEPTH
    requires Has(t, q, "[" + ItemsText(items, close, true)) && q < |t| && Skip(t, q) == q
    ensures ReadValue(t, q, depth) == Got(Arr(ValuesOf(items)), q + 1 + |ItemsText(items, close, true)|)
    decreases items, 2
  {
    hide ReadValue, Has, Skip, ValuesOf, GoodItems, Homogeneous, AllBlank, ReadElements, ItemsText;
    HasConcat(t, q, "[", ItemsText(items, close, true));
    HasAt(t, q, "[", 0);
    assert [] + ValuesOf(items) == ValuesOf(items);
    ItemsAreRead(items, close, t, q + 1, depth + 1, [], true);
    ArrayValue(t, q, depth);
  }

  lemma {:induction false} ObjectIsRead(entries: seq<Entry>, close: string, t: string, q: nat, depth: nat)
    requires AllBlank(close) && NewNames(entries) && GoodEntries(entries, depth + 1) && depth + 1 < MAX_DEPTH
    requires Has(t, q, "{" + EntriesText(entries, close, true)) && q < |t| && Skip(t, q) == q
    ensures ReadValue(t, q, depth) == Got(Obj(FieldsOf([], entries)), q + 1 + |EntriesText(entries, close, true)|)
    decreases entries, 2
  {
    hide ReadValue, Has, Skip, FieldsOf, GoodEntries, NewNames, AllBlank, ReadFields, EntriesText, Ordered.Sorted;
    HasConcat(t, q, "{", EntriesText(entries, close, true));
    HasAt(t, q, "{", 0);
    NothingSorted();
    EntriesAreRead(entries, close, t, q + 1, depth + 1, [], true);
    ObjectValue(t, q, depth);
  }

  lemma StringValue(t: string, q: nat, depth: nat)
    requires q < |t| && At(t, q) == '"' && Skip(t, q) == q && depth + 1 < MAX_DEPTH && StringAt(t, q).Some?
    ensures ReadValue(t, q, depth) == Got(Str(StringAt(t, q).value.0), StringAt(t, q).value.1)
  {
    hide ReadArray, ReadObject, NumberAt, StringAt;
  }

  lemma ArrayValue(t: string, q: nat, depth: nat)
    requires q < |t| && At(t, q) == '[' && Skip(t, q) == q && depth + 1 < MAX_DEPTH
    ensures var r := ReadElements(t, q + 1, depth + 1, [], true);
      ReadValue(t, q, depth) == if r.None? then Failed else Got(Arr(r.value.0), r.value.1)
  {
    hide ReadElements, ReadObject, NumberAt, StringAt;
  }

  lemma ObjectValue(t: string, q: nat, depth: nat)
    requires q < |t| && At(t, q) == '{' && Skip(t, q) == q && depth + 1 < MAX_DEPTH
    ensures var r := ReadFields(t, q + 1, depth + 1, [], true);
      ReadValue(t, q, depth) == if r.None? then Failed else Got(Obj(r.value.0), r.value.1)
  {
    hide ReadFields, ReadArray, NumberAt, StringAt;
  }

  /** Behind a value in a list comes what ends it. */
  lemma ListGoesOn(t: string, p: nat, gap: string, c: char)
    requires AllBlank(gap) && c in {',', ']', '}'} && Has(t, p, gap + [c])
    ensures Stops(t, p) && Skip(t, p) == p + |gap| && At(t, p + |gap|) == c && p + |gap| < |t|
  {
    HasConcat(t, p, gap, [c]);
    HasAt(t, p + |gap|, [c], 0);
    SkipBlanks(t, p, gap);
    if gap != "" {
      HasAt(t, p, gap, 0);
    }
  }

  lemma ItemsGoOn(items: seq<Item>, close: string, t: string, p: nat, depth: nat)
    requires GoodItems(items, depth) && AllBlank(close) && Has(t, p, ItemsText(items, close, false))
    ensures Stops(t, p)
  {
    hide Has, TextOf;
    if items == [] {
      ListGoesOn(t, p, close, ']');
    } else {
      HasConcat(t, p, items[0].gap + ",", TextOf(items[0].value) + ItemsText(items[1..], close, false));
      ListGoesOn(t, p, items[0].gap, ',');
    }
  }

  lemma {:induction false} ItemsAreRead(items: seq<Item>, close: string, t: string, p: nat, depth: nat, es: seq<Value>,
      first: bool)
    requires GoodItems(items, depth) && AllBlank(close) && Has(t, p, ItemsText(items, close, first))
    requires Homogeneous(es + ValuesOf(items)) && forall i :: 0 <= i < |es| ==> !es[i].Undefined?
    ensures p <= |t|
    ensures ReadElements(t, p, depth, es, first) == Some((es + ValuesOf(items), p + |ItemsText(items, close, first)|))
    decreases items, 1
  {
    hide ReadElements, ReadValue, Has, Skip, TextOf, Good, Homogeneous, ElementKind, ValueOf;
    Inside(t, p, ItemsText(items, close, first));
    if items == [] {
      ListGoesOn(t, p, close, ']');
      ElementsEnd(t, p, depth, es, first);
      assert es + [] == es;
    } else {
      var w, gap, rest := items[0].value, items[0].gap, items[1..];
      var sep, more := Comma(gap, first), ItemsText(items[1..], close, false);
      HasConcat(t, p, sep, TextOf(w) + more);
      HasConcat(t, p + |sep|, TextOf(w), more);
      var m := p + |sep| + |TextOf(w)|;
      assert forall i :: 0 <= i < |rest| ==> rest[i] == items[i + 1];
      ItemsGoOn(rest, close, t, m, depth);
      WrittenIsRead(w, t, p + |sep|, depth);
      StartsAt(w, t, p + |sep|, depth);
      var v := ValueOf(w.form);
      assert es + ValuesOf(items) == es + [v] + ValuesOf(rest);
      HomogeneousPrefix(es, v, ValuesOf(rest));
      if !v.Null? {
        ElementKindOf(es, v);
      }
      if !first {
        HasConcat(t, p, gap, ",");
        ListGoesOn(t, p, gap, ',');
      }
      OneElement(t, p, depth, es, first, w, gap);
      ItemsAreRead(rest, close, t, m, depth, es + [v], false);
    }
  }

  lemma ElementsEnd(t: string, p: nat, depth: nat, es: seq<Value>, first: bool)
    requires p <= |t| && At(t, Skip(t, p)) == ']'
    ensures ReadElements(t, p, depth, es, first) == Some((es, Skip(t, p) + 1))
  {
  }

  lemma OneElement(t: string, p: nat, depth: nat, es: seq<Value>, first: bool, w: Written, gap: string)
    requires var s := p + |Comma(gap, first)|;
      && p <= s < |t| && ReadValue(t, s, depth).Got? && At(t, Skip(t, s)) !in {']', ','}
      && (!first ==> Skip(t, p) == p + |gap| && At(t, p + |gap|) == ',')
      && var v := ReadValue(t, s, depth).value;
         v.Null? || ElementKind(es) == KUndefined || ElementKind(es) == KindOf(v)
    ensures var r := ReadValue(t, p + |Comma(gap, first)|, depth);
      ReadElements(t, p, depth, es, first) == ReadElements(t, r.next, depth, es + [r.value], false)
  {
    hide ReadValue, ElementKind;
    if first {
      ReadBehindBlanks(t, p, Skip(t, p), depth);
    }
  }

  lemma EntriesGoOn(entries: seq<Entry>, close: string, t: string, p: nat, depth: nat)
    requires GoodEntries(entries, depth) && AllBlank(close) && Has(t, p, EntriesText(entries, close, false))
    ensures Stops(t, p)
  {
    hide Has, TextOf, Literal, Good, GoodString;
    if entries == [] {
      ListGoesOn(t, p, close, '}');
    } else {
      assert GoodEntry(entries[0], depth);
      var e := entries[0];
      EntryTextConcat(e, EntriesText(entries[1..], close, false));
      HasConcat(t, p, e.gap + ",", EntryText(e) + EntriesText(entries[1..], close, false));
      ListGoesOn(t, p, e.gap, ',');
    }
  }

  function EntryText(e: Entry): string {
    e.lead + (Literal(e.name) + (e.colon + (":" + TextOf(e.value))))
  }

  lemma EntryTextConcat(e: Entry, more: string)
    ensures e.lead + (Literal(e.name) + (e.colon + (":" + (TextOf(e.value) + more)))) == EntryText(e) + more
  {
    hide TextOf, Literal;
    var a, b := Literal(e.name), TextOf(e.value);
    assert ":" + (b + more) == (":" + b) + more;
    assert e.colon + (":" + (b + more)) == (e.colon + (":" + b)) + more;
    assert a + (e.colon + (":" + (b + more))) == (a + (e.colon + (":" + b))) + more;
  }

  lemma {:induction false} EntriesAreRead(entries: seq<Entry>, close: string, t: string, p: nat, depth: nat,
      fs: seq<Field>, first: bool)
    requires GoodEntries(entries, depth) && AllBlank(close) && Has(t, p, EntriesText(entries, close, first))
    requires Ordered.Sorted(FIELDS, fs) && NewNames(entries)
    requires forall i, j :: 0 <= i < |fs| && 0 <= j < |entries| ==> fs[i].name != StringOf(entries[j].name)
    ensures p <= |t|
    ensures ReadFields(t, p, depth, fs, first) ==
      Some((FieldsOf(fs, entries), p + |EntriesText(entries, close, first)|))
    decreases entries, 1
  {
    hide ReadFields, ReadValue, StringAt, Has, Skip, TextOf, Literal, Good, ValueOf, StringOf, Ordered.Sorted,
      Ordered.Insert, Ordered.Has, GoodString;
    Inside(t, p, EntriesText(entries, close, first));
    if entries == [] {
      ListGoesOn(t, p, close, '}');
      FieldsFinish(t, p, depth, fs, first);
    } else {
      var e, rest := entries[0], entries[1..];
      assert forall j :: 0 <= j < |rest| ==> rest[j] == entries[j + 1];
      var m := FirstEntry(entries, close, t, p, depth, first);
      var name, v := StringOf(e.name), ValueOf(e.value.form);
      AddOne(fs, Field(name, v));
      OneField(t, p, depth, fs, first, e, m);
      var next := if v.Null? then fs else Ordered.Insert(FIELDS, fs, Field(name, v));
      forall i, j | 0 <= i < |next| && 0 <= j < |rest| ensures next[i].name != StringOf(rest[j].name) {
        assert next[i] in next;
      }
      EntriesAreRead(rest, close, t, m, depth, next, false);
    }
  }

  lemma FirstEntry(entries: seq<Entry>, close: string, t: string, p: nat, depth: nat, first: bool) returns (m: nat)
    requires entries != [] && GoodEntries(entries, depth) && AllBlank(close)
    requires Has(t, p, EntriesText(entries, close, first))
    ensures var e, more := entries[0], EntriesText(entries[1..], close, false);
      && p <= m <= |t| && Has(t, m, more) && m + |more| == p + |EntriesText(entries, close, first)|
      && EntryAt(t, p + |Comma(e.gap, first)|, depth, StringOf(e.name), ValueOf(e.value.form), m)
      && (!first ==> Skip(t, p) == p + |e.gap| && At(t, p + |e.gap|) == ',')
    decreases entries, 0
  {
    hide Has, Skip, TextOf, Literal, Good, ValueOf, StringOf, GoodString, EntryAt;
    var e, rest := entries[0], entries[1..];
    assert GoodEntry(e, depth);
    var sep, more := Comma(e.gap, first), EntriesText(rest, close, false);
    EntryTextConcat(e, more);
    HasConcat(t, p, sep, EntryText(e) + more);
    HasConcat(t, p + |sep|, EntryText(e), more);
    m := p + |sep| + |EntryText(e)|;
    Inside(t, m, more);
    assert forall i :: 0 <= i < |rest| ==> rest[i] == entries[i + 1];
    EntriesGoOn(rest, close, t, m, depth);
    if !first {
      HasConcat(t, p, e.gap, ",");
      ListGoesOn(t, p, e.gap, ',');
    }
    EntryIsRead(e, t, p + |sep|, depth);
  }

  /** The name, the colon and the value of an entry. */
  lemma EntryIsRead(e: Entry, t: string, s: nat, depth: nat)
    requires GoodEntry(e, depth) && Has(t, s, EntryText(e)) && Stops(t, s + |EntryText(e)|)
    ensures EntryAt(t, s, depth, StringOf(e.name), ValueOf(e.value.form), s + |EntryText(e)|)
    decreases e, 0
  {
    hide ReadValue, StringAt, Has, TextOf, Literal, Good, ValueOf, Stops, Utf8.Valid, Skip, StringOf;
    var a := s + |e.lead|;
    var n := a + |Literal(e.name)|;
    var c := n + |e.colon|;
    HasConcat(t, s, e.lead, Literal(e.name) + (e.colon + (":" + TextOf(e.value))));
    HasConcat(t, a, Literal(e.name), e.colon + (":" + TextOf(e.value)));
    HasConcat(t, n, e.colon, ":" + TextOf(e.value));
    HasConcat(t, c, ":", TextOf(e.value));
    LiteralStarts(t, a, e.name);
    SkipBlanks(t, s, e.lead);
    HasAt(t, c, ":", 0);
    SkipBlanks(t, n, e.colon);
    LiteralIsRead(t, a, e.name);
    NameIs(e.name);
    Inside(t, c, ":");
    WrittenIsRead(e.value, t, c + 1, depth);
  }

  lemma NameIs(s: seq<Spelling>)
    requires GoodString(s)
    ensures AllProper(s) && StringOf(s) == BodyMeaning(s) && Utf8.Valid(BodyMeaning(s))
  {
    hide Utf8.Valid;
  }

  lemma LiteralStarts(t: string, p: nat, s: seq<Spelling>)
    requires Has(t, p, Literal(s))
    ensures At(t, p) == '"' && !IsBlank(At(t, p)) && p + |Literal(s)| <= |t|
  {
    HasAt(t, p, Literal(s), 0);
  }

  /** An entry is found behind `s`, and ends at `m`. */
  ghost predicate EntryAt(t: string, s: nat, depth: nat, name: string, v: Value, m: nat) {
    && s <= |t| && At(t, Skip(t, s)) == '"'
    && exists n: nat :: n <= |t| && StringAt(t, Skip(t, s)) == Some((name, n)) && At(t, Skip(t, n)) == ':'
                        && ReadValue(t, Skip(t, n) + 1, depth) == Got(v, m)
  }

  lemma FieldsFinish(t: string, p: nat, depth: nat, fs: seq<Field>, first: bool)
    requires p <= |t| && At(t, Skip(t, p)) == '}'
    ensures ReadFields(t, p, depth, fs, first) == Some((fs, Skip(t, p) + 1))
  {
  }

  lemma OneField(t: string, p: nat, depth: nat, fs: seq<Field>, first: bool, e: Entry, m: nat)
    requires p <= |t| && m <= |t|
    requires var name, v := StringOf(e.name), ValueOf(e.value.form);
      && EntryAt(t, p + |Comma(e.gap, first)|, depth, name, v, m) && !Ordered.Has(FIELDS, fs, name)
    requires !first ==> Skip(t, p) == p + |e.gap| && At(t, p + |e.gap|) == ','
    ensures var name, v := StringOf(e.name), ValueOf(e.value.form);
      ReadFields(t, p, depth, fs, first) ==
        ReadFields(t, m, depth, if v.Null? then fs else Ordered.Insert(FIELDS, fs, Field(name, v)), false)
  {
    hide ReadValue, StringAt, Ordered.Has, Ordered.Insert, StringOf, ValueOf;
    SkipTwice(t, p);
  }

  lemma SkipTwice(t: string, p: nat)
    requires p <= |t|
    ensures Skip(t, Skip(t, p)) == Skip(t, p)
  {
  }

  // ---------------------------------------------------------------- nothing else is read

  lemma {:induction false} SkippedBlanks(t: string, p: nat)
    requires p <= |t|
    ensures AllBlank(t[p..Skip(t, p)]) && Has(t, p, t[p..Skip(t, p)])
    decreases |t| - p
  {
    if IsBlank(At(t, p)) {
      SkippedBlanks(t, p + 1);
      assert t[p..Skip(t, p)] == [t[p]] + t[p + 1..Skip(t, p)];
    }
  }

  lemma Joined(t: string, p: nat, a: string, b: string)
    requires Has(t, p, a) && Has(t, p + |a|, b)
    ensures Has(t, p, a + b)
  {
    HasConcat(t, p, a, b);
  }

  lemma CharThere(t: string, p: nat, c: char)
    requires p < |t| && t[p] == c
    ensures Has(t, p, [c])
  {
    assert t[p..p + 1] == [c];
  }

  lemma KeywordThere(t: string, p: nat, word: string)
    requires p <= |t| && KeywordAt(t, p, word)
    ensures Has(t, p, word) && p + |word| <= |t|
  {
  }

  lemma NumberIsWritten(t: string, q: nat) returns (n: Numeral)
    requires q < |t| && !IsBlank(t[q]) && NumberAt(t, q).Some? && At(t, NumberAt(t, q).value.1) !in {'e', 'E'}
    ensures GoodNumber(n) && Has(t, q, Numerals.TextOf(n)) && NumberAt(t, q).value.1 == q + |Numerals.TextOf(n)|
    ensures NumberOf(n) ==
      match NumberAt(t, q).value.0 case Integer(i) => Int(i) case Decimal(f) => Float(f)
  {
    hide NumberAt, WellWritten, Meaning, Has, Numerals.TextOf;
    n := NumberIsNumeral(t, q);
    if n.space != "" {
      SpaceFirst(t, q, n);
      assert n.space[..1][0] == t[q];
    }
  }

  lemma SpaceFirst(t: string, q: nat, n: Numeral)
    requires n.space != "" && Has(t, q, Numerals.TextOf(n))
    ensures n.space[..1] == [At(t, q)]
  {
    HasAt(t, q, Numerals.TextOf(n), 0);
  }

  /** A value that is read is one that can be written, and was. */
  lemma {:induction false} ReadIsWritten(t: string, p: nat, depth: nat) returns (w: Written)
    requires p <= |t|
    requires var r := ReadValue(t, p, depth); r.Got? && !r.value.Undefined? && At(t, r.next) !in {'e', 'E'}
    ensures Good(w, depth) && Has(t, p, TextOf(w))
    ensures ReadValue(t, p, depth) == Got(ValueOf(w.form), p + |TextOf(w)|)
    decreases |t| - p, 2
  {
    hide Has, ReadValue, FormText, AllBlank, GoodForm, ValueOf, Skip;
    var q := Skip(t, p);
    SkippedBlanks(t, p);
    SkipTwice(t, p);
    ReadBehindBlanks(t, p, q, depth);
    NotTooDeep(t, q, depth);
    var f := FormIsWritten(t, q, depth);
    w := Written(t[p..q], f);
    Joined(t, p, t[p..q], FormText(f));
    GoodParts(w, depth);
  }

  lemma NotTooDeep(t: string, q: nat, depth: nat)
    requires q <= |t| && ReadValue(t, q, depth).Got?
    ensures depth + 1 < MAX_DEPTH
  {
  }

  /** The same for a value without blanks in front of it. */
  lemma {:induction false} FormIsWritten(t: string, q: nat, depth: nat) returns (f: Form)
    requires q <= |t| && Skip(t, q) == q
    requires var r := ReadValue(t, q, depth); r.Got? && !r.value.Undefined? && At(t, r.next) !in {'e', 'E'}
    ensures GoodForm(f, depth) && Has(t, q, FormText(f))
    ensures ReadValue(t, q, depth) == Got(ValueOf(f), q + |FormText(f)|)
    decreases |t| - q, 1
  {
    hide Has, NumberAt, StringAt, KeywordAt, ReadElements, ReadFields, Homogeneous, GoodItems, GoodEntries, NewNames,
      Utf8.Valid, Meaning, WellWritten, BodyMeaning, AllProper, FormText, AllBlank, NumberOf, GoodNumber, StringOf,
      ValuesOf, FieldsOf, GoodString;
    if At(t, q) == '{' {
      NothingSorted();
      var entries, close := EntriesAreWritten(t, q + 1, depth + 1, [], true);
      f := WObject(entries, close);
      CharThere(t, q, '{');
      Joined(t, q, "{", EntriesText(entries, close, true));
      ObjectText(entries, close);
    } else if At(t, q) == '[' {
      NoElements();
      var items, close := ItemsAreWritten(t, q + 1, depth + 1, [], true);
      f := WArray(items, close);
      CharThere(t, q, '[');
      Joined(t, q, "[", ItemsText(items, close, true));
      ArrayText(items, close);
      assert [] + ValuesOf(items) == ValuesOf(items);
    } else if KeywordAt(t, q, "null") {
      f := WNull;
      KeywordThere(t, q, "null");
      WordText();
    } else if KeywordAt(t, q, "true") {
      f := WBool(true);
      KeywordThere(t, q, "true");
      WordText();
    } else if KeywordAt(t, q, "false") {
      f := WBool(false);
      KeywordThere(t, q, "false");
      WordText();
    } else if At(t, q) == '"' {
      var s := LiteralIsSpelled(t, q);
      f := WString(s);
      StringText(s);
    } else {
      NotAtEnd(t, q);
      var n := NumberIsWritten(t, q);
      f := WNumber(n);
      NumberText(n);
    }
  }

  lemma NoElements()
    ensures Homogeneous([])
  {
  }

  lemma ObjectText(entries: seq<Entry>, close: string)
    ensures FormText(WObject(entries, close)) == "{" + EntriesText(entries, close, true)
  {
  }

  lemma ArrayText(items: seq<Item>, close: string)
    ensures FormText(WArray(items, close)) == "[" + ItemsText(items, close, true)
  {
  }

  lemma WordText()
    ensures FormText(WNull) == "null" && FormText(WBool(true)) == "true" && FormText(WBool(false)) == "false"
  {
  }

  lemma StringText(s: seq<Spelling>)
    ensures FormText(WString(s)) == Literal(s)
    ensures AllProper(s) ==> StringOf(s) == BodyMeaning(s) && (Utf8.Valid(BodyMeaning(s)) ==> GoodString(s))
  {
  }

  lemma NumberText(n: Numeral)
    ensures FormText(WNumber(n)) == Numerals.TextOf(n)
  {
  }

  lemma NotAtEnd(t: string, q: nat)
    requires q <= |t| && NumberAt(t, q).Some?
    ensures q < |t|
  {
    hide DecimalAt;
  }

  lemma AppendKind(es: seq<Value>, v: Value)
    requires Homogeneous(es) && forall i :: 0 <= i < |es| ==> !es[i].Undefined?
    requires v.Null? || ElementKind(es) == KUndefined || ElementKind(es) == KindOf(v)
    ensures Homogeneous(es + [v])
  {
    hide ElementKind;
    forall i | 0 <= i < |es| && !es[i].Null? ensures v.Null? || KindOf(es[i]) == KindOf(v) {
      JsonSound.KindCovers(es, i);
      KindIsDefined(es[i]);
    }
  }

  lemma KindIsDefined(v: Value)
    requires !v.Undefined?
    ensures KindOf(v) != KUndefined
  {
  }

  /** A list that goes on after a value goes on with what ends the value. */
  lemma ElementsStop(t: string, p: nat, depth: nat, es: seq<Value>)
    requires p <= |t| && ReadElements(t, p, depth, es, false).Some?
    ensures Stops(t, p) && At(t, p) !in {'e', 'E'} && At(t, p) != '"'
  {
    hide ReadValue, ElementKind;
    BlankOrThere(t, p);
  }

  lemma FieldsStop(t: string, p: nat, depth: nat, fs: seq<Field>)
    requires p <= |t| && ReadFields(t, p, depth, fs, false).Some?
    ensures Stops(t, p) && At(t, p) !in {'e', 'E'} && At(t, p) != '"'
  {
    hide ReadValue, StringAt, Ordered.Has, Ordered.Insert;
    BlankOrThere(t, p);
  }

  lemma BlankOrThere(t: string, p: nat)
    requires p <= |t|
    ensures IsBlank(At(t, p)) || Skip(t, p) == p
  {
  }

  lemma {:induction false} ItemsAreWritten(t: string, p: nat, depth: nat, es: seq<Value>, first: bool)
    returns (items: seq<Item>, close: string)
    requires p <= |t| && ReadElements(t, p, depth, es, first).Some?
    requires Homogeneous(es) && forall i :: 0 <= i < |es| ==> !es[i].Undefined?
    ensures GoodItems(items, depth) && AllBlank(close) && Has(t, p, ItemsText(items, close, first))
    ensures Homogeneous(es + ValuesOf(items))
    ensures ReadElements(t, p, depth, es, first) == Some((es + ValuesOf(items), p + |ItemsText(items, close, first)|))
    decreases |t| - p, if first then 4 else 3
  {
    hide ReadValue, ReadElements, ElementKind, Has, Homogeneous, Good, TextOf, ValueOf, AllBlank, KindOf, Skip, Stops,
      ItemsText;
    var q := Skip(t, p);
    SkippedBlanks(t, p);
    if At(t, q) == ']' {
      items, close := [], t[p..q];
      CharThere(t, q, ']');
      Joined(t, p, close, "]");
      NoItems(close, first);
      ElementsEnd(t, p, depth, es, first);
      assert es + [] == es;
    } else {
      var start := if first then p else q + 1;
      ElementUnfolds(t, p, depth, es, first);
      var r := ReadValue(t, start, depth);
      ElementsStop(t, r.next, depth, es + [r.value]);
      var w := ReadIsWritten(t, start, depth);
      AppendKind(es, r.value);
      var rest, end := ItemsAreWritten(t, r.next, depth, es + [r.value], false);
      var gap := if first then "" else t[p..q];
      items, close := [Item(gap, w)] + rest, end;
      OneItemMore(items, rest, depth);
      assert es + ValuesOf(items) == es + [r.value] + ValuesOf(rest);
      if first {
        NoBlanks();
      } else {
        CharThere(t, q, ',');
        Joined(t, p, gap, ",");
      }
      AssembleItems(t, p, start, items, close, first);
    }
  }

  lemma NoItems(close: string, first: bool)
    ensures ItemsText([], close, first) == close + "]"
  {
  }

  lemma ElementUnfolds(t: string, p: nat, depth: nat, es: seq<Value>, first: bool)
    requires p <= |t| && ReadElements(t, p, depth, es, first).Some? && At(t, Skip(t, p)) != ']'
    ensures first || (Skip(t, p) < |t| && At(t, Skip(t, p)) == ',')
    ensures var r := ReadValue(t, if first then p else Skip(t, p) + 1, depth);
      && r.Got? && p < r.next <= |t|
      && (r.value.Null? || ElementKind(es) == KUndefined || ElementKind(es) == KindOf(r.value))
      && ReadElements(t, p, depth, es, first) == ReadElements(t, r.next, depth, es + [r.value], false)
      && (r.value.Undefined? ==> At(t, r.next) == '"')
  {
    hide ReadValue, ElementKind, KindOf, Skip;
    if first {
      SkipTwice(t, p);
      ReadBehindBlanks(t, p, Skip(t, p), depth);
    }
    UnreadAtQuote(t, if first then p else Skip(t, p) + 1, depth);
  }

  lemma UnreadAtQuote(t: string, p: nat, depth: nat)
    requires p <= |t|
    ensures var r := ReadValue(t, p, depth); r.Got? && r.value.Undefined? ==> At(t, r.next) == '"'
    ensures var r := ReadValue(t, p, depth); r.Got? && r.value.Undefined? ==> r.next == Skip(t, p)
  {
  }

  lemma AssembleItems(t: string, p: nat, start: nat, items: seq<Item>, close: string, first: bool)
    requires items != [] && Has(t, start, TextOf(items[0].value))
    requires Has(t, start + |TextOf(items[0].value)|, ItemsText(items[1..], close, false))
    requires if first then start == p else Has(t, p, items[0].gap + ",") && start == p + |items[0].gap| + 1
    ensures Has(t, p, ItemsText(items, close, first))
    ensures p + |ItemsText(items, close, first)| ==
      start + |TextOf(items[0].value)| + |ItemsText(items[1..], close, false)|
  {
    hide Has, TextOf;
    var text, more := TextOf(items[0].value), ItemsText(items[1..], close, false);
    Joined(t, start, text, more);
    if first {
      assert "" + (text + more) == text + more;
    } else {
      Joined(t, p, items[0].gap + ",", text + more);
    }
  }

  lemma NoBlanks()
    ensures AllBlank("")
  {
  }

  lemma OneItemMore(items: seq<Item>, rest: seq<Item>, depth: nat)
    requires items != [] && items[1..] == rest && GoodItems(rest, depth)
    ensures AllBlank(items[0].gap) && Good(items[0].value, depth) ==> GoodItems(items, depth)
    ensures ValuesOf(items) == [ValueOf(items[0].value.form)] + ValuesOf(rest)
  {
    hide Good, ValueOf, AllBlank;
    assert forall i :: 0 < i < |items| ==> items[i] == rest[i - 1];
  }

  lemma {:induction false} EntriesAreWritten(t: string, p: nat, depth: nat, fs: seq<Field>, first: bool)
    returns (entries: seq<Entry>, close: string)
    requires p <= |t| && ReadFields(t, p, depth, fs, first).Some? && Ordered.Sorted(FIELDS, fs)
    ensures GoodEntries(entries, depth) && AllBlank(close) && Has(t, p, EntriesText(entries, close, first))
    ensures NewNames(entries)
    ensures forall i, j :: 0 <= i < |fs| && 0 <= j < |entries| ==> fs[i].name != StringOf(entries[j].name)
    ensures ReadFields(t, p, depth, fs, first) ==
      Some((FieldsOf(fs, entries), p + |EntriesText(entries, close, first)|))
    decreases |t| - p, 3
  {
    hide ReadFields, ReadValue, StringAt, Has, Good, TextOf, Literal, ValueOf, StringOf, AllBlank, Ordered.Sorted,
      Ordered.Has, Ordered.Insert, GoodString, Skip, EntriesText, GoodEntry, NewNames, EntryText;
    var q := Skip(t, p);
    SkippedBlanks(t, p);
    if At(t, q) == '}' {
      entries, close := [], t[p..q];
      CharThere(t, q, '}');
      Joined(t, p, close, "}");
      NoEntries(close, first);
      FieldsFinish(t, p, depth, fs, first);
    } else {
      var s := if first then p else q + 1;
      if first {
        SkipTwice(t, p);
      } else {
        CommaThere(t, p, depth, fs);
      }
      var e, m := EntryIsWritten(t, p, s, depth, fs, first);
      var name, v := StringOf(e.name), ValueOf(e.value.form);
      NotThere(fs, name);
      AddOne(fs, Field(name, v));
      var next := if v.Null? then fs else Ordered.Insert(FIELDS, fs, Field(name, v));
      var rest, end := EntriesAreWritten(t, m, depth, next, false);
      var gap := if first then "" else t[p..q];
      var x := e.(gap := gap);
      entries, close := [x] + rest, end;
      GapOnly(e, gap, depth);
      EntriesMore(fs, next, x, rest, depth);
      if first {
        NoBlanks();
      } else {
        CharThere(t, q, ',');
        Joined(t, p, gap, ",");
      }
      AssembleEntries(t, p, s, entries, close, first);
    }
  }

  lemma NoEntries(close: string, first: bool)
    ensures EntriesText([], close, first) == close + "}" && NewNames([])
  {
  }

  lemma AssembleEntries(t: string, p: nat, start: nat, entries: seq<Entry>, close: string, first: bool)
    requires entries != [] && Has(t, start, EntryText(entries[0]))
    requires Has(t, start + |EntryText(entries[0])|, EntriesText(entries[1..], close, false))
    requires if first then start == p else Has(t, p, entries[0].gap + ",") && start == p + |entries[0].gap| + 1
    ensures Has(t, p, EntriesText(entries, close, first))
    ensures p + |EntriesText(entries, close, first)| ==
      start + |EntryText(entries[0])| + |EntriesText(entries[1..], close, false)|
  {
    hide Has, TextOf, Literal, EntryText;
    var text, more := EntryText(entries[0]), EntriesText(entries[1..], close, false);
    EntryTextConcat(entries[0], more);
    Joined(t, start, text, more);
    if first {
      assert "" + (text + more) == text + more;
    } else {
      Joined(t, p, entries[0].gap + ",", text + more);
    }
  }

  lemma CommaThere(t: string, p: nat, depth: nat, fs: seq<Field>)
    requires p <= |t| && ReadFields(t, p, depth, fs, false).Some? && At(t, Skip(t, p)) != '}'
    ensures Skip(t, p) < |t| && At(t, Skip(t, p)) == ','
  {
    hide ReadValue, StringAt, Ordered.Has, Ordered.Insert;
  }

  lemma GapOnly(e: Entry, gap: string, depth: nat)
    ensures var x := e.(gap := gap);
      && EntryText(x) == EntryText(e)
      && (AllBlank(gap) && AllBlank(e.lead) && AllBlank(e.colon) && GoodString(e.name) && Good(e.value, depth) ==>
            GoodEntry(x, depth))
  {
    hide TextOf, Literal, AllBlank, GoodString, Good;
  }

  lemma NotThere(fs: seq<Field>, name: string)
    requires Ordered.Sorted(FIELDS, fs) && !Ordered.Has(FIELDS, fs, name)
    ensures forall i :: 0 <= i < |fs| ==> fs[i].name != name
  {
    hide Ordered.Sorted, Ordered.Has, Ordered.Lawful;
    FieldsLawful();
    Ordered.HasIff(FIELDS, fs, name);
    forall i | 0 <= i < |fs| ensures fs[i].name != name {
      FieldKey(fs[i]);
    }
  }

  lemma EntriesMore(fs: seq<Field>, next: seq<Field>, x: Entry, rest: seq<Entry>, depth: nat)
    requires GoodEntries(rest, depth) && NewNames(rest)
    requires forall i :: 0 <= i < |fs| ==> fs[i].name != StringOf(x.name)
    requires forall f :: f in next <==> f in fs || Gives(x, f)
    requires forall i, j :: 0 <= i < |next| && 0 <= j < |rest| ==> next[i].name != StringOf(rest[j].name)
    ensures GoodEntry(x, depth) ==> GoodEntries([x] + rest, depth)
    ensures NewNames([x] + rest)
    ensures forall i, j :: 0 <= i < |fs| && 0 <= j < |[x] + rest| ==> fs[i].name != StringOf(([x] + rest)[j].name)
  {
    hide GoodEntry, ValueOf, StringOf;
    var all := [x] + rest;
    var f := Field(StringOf(x.name), ValueOf(x.value.form));
    assert forall j :: 0 < j < |all| ==> all[j] == rest[j - 1];
    forall i, j | 0 <= i < |fs| && 0 < j < |all| ensures fs[i].name != StringOf(all[j].name) {
      assert fs[i] in next;
    }
    if !f.value.Null? {
      assert Gives(x, f) && f in next;
    }
  }

  /** An entry that is read behind `s` is one that can be written, and was. */
  lemma EntryIsWritten(t: string, p: nat, s: nat, depth: nat, fs: seq<Field>, first: bool) returns (e: Entry, m: nat)
    requires p <= s <= |t| && ReadFields(t, p, depth, fs, first).Some? && At(t, Skip(t, p)) != '}'
    requires if first then Skip(t, s) == Skip(t, p) else s == Skip(t, p) + 1
    ensures p < m <= |t| && m == s + |EntryText(e)|
    ensures AllBlank(e.lead) && AllBlank(e.colon) && GoodString(e.name) && Good(e.value, depth) && e.gap == ""
    ensures Has(t, s, EntryText(e)) && !Ordered.Has(FIELDS, fs, StringOf(e.name))
    ensures !first ==> At(t, Skip(t, p)) == ','
    ensures var name, v := StringOf(e.name), ValueOf(e.value.form);
      ReadFields(t, p, depth, fs, first) ==
        ReadFields(t, m, depth, if v.Null? then fs else Ordered.Insert(FIELDS, fs, Field(name, v)), false)
    decreases |t| - p, 2, 1
  {
    hide ReadFields, ReadValue, StringAt, Has, Good, TextOf, Literal, ValueOf, StringOf, AllBlank, Ordered.Has,
      Ordered.Insert, Skip, GoodString, BodyMeaning, AllProper, Utf8.Valid, Stops;
    var a := Skip(t, s);
    var name, n, c, v, end := FieldUnfolds(t, p, s, depth, fs, first);
    FieldsStop(t, end, depth, if v.Null? then fs else Ordered.Insert(FIELDS, fs, Field(name, v)));
    var spelled := LiteralIsSpelled(t, a);
    StringText(spelled);
    var w := ReadIsWritten(t, c + 1, depth);
    e, m := Entry("", t[s..a], spelled, t[n..c], w), end;
    SkippedBlanks(t, s);
    SkippedBlanks(t, n);
    CharThere(t, c, ':');
    AssembleEntry(t, s, e);
  }

  lemma AssembleEntry(t: string, s: nat, e: Entry)
    requires Has(t, s, e.lead) && Has(t, s + |e.lead|, Literal(e.name))
    requires var n := s + |e.lead| + |Literal(e.name)|;
      Has(t, n, e.colon) && Has(t, n + |e.colon|, ":") && Has(t, n + |e.colon| + 1, TextOf(e.value))
    ensures Has(t, s, EntryText(e))
    ensures |EntryText(e)| == |e.lead| + |Literal(e.name)| + |e.colon| + 1 + |TextOf(e.value)|
  {
    hide Has, TextOf, Literal;
    var a := s + |e.lead|;
    var n := a + |Literal(e.name)|;
    Joined(t, n + |e.colon|, ":", TextOf(e.value));
    Joined(t, n, e.colon, ":" + TextOf(e.value));
    Joined(t, a, Literal(e.name), e.colon + (":" + TextOf(e.value)));
    Joined(t, s, e.lead, Literal(e.name) + (e.colon + (":" + TextOf(e.value))));
  }

  lemma FieldUnfolds(t: string, p: nat, s: nat, depth: nat, fs: seq<Field>, first: bool)
    returns (name: string, n: nat, c: nat, v: Value, m: nat)
    requires p <= s <= |t| && ReadFields(t, p, depth, fs, first).Some? && At(t, Skip(t, p)) != '}'
    requires if first then Skip(t, s) == Skip(t, p) else s == Skip(t, p) + 1
    ensures first || At(t, Skip(t, p)) == ','
    ensures StringAt(t, Skip(t, s)) == Some((name, n)) && n <= |t| && c == Skip(t, n) && c < |t| && t[c] == ':'
    ensures !Ordered.Has(FIELDS, fs, name) && ReadValue(t, c + 1, depth) == Got(v, m) && p < m <= |t| && s <= c
    ensures ReadFields(t, p, depth, fs, first) ==
      ReadFields(t, m, depth, if v.Null? then fs else Ordered.Insert(FIELDS, fs, Field(name, v)), false)
    ensures v.Undefined? ==> At(t, m) == '"'
  {
    hide ReadValue, StringAt, Ordered.Has, Ordered.Insert, Skip;
    SkipTwice(t, p);
    name, n := StringAt(t, Skip(t, s)).value.0, StringAt(t, Skip(t, s)).value.1;
    c := Skip(t, n);
    v, m := ReadValue(t, c + 1, depth).value, ReadValue(t, c + 1, depth).next;
    UnreadAtQuote(t, c + 1, depth);
  }

  // ---------------------------------------------------------------- documents

  /** What is accepted are exactly the documents, and a document is read as what its object stands for. */
  lemma AcceptedExactly(t: string, fs: seq<Field>)
    requires NulFree(t)
    ensures Parse(t) == Some(fs) <==>
      exists d :: GoodDocument(d) && DocumentText(d) == t && FieldsOf([], d.entries) == fs
  {
    hide DocumentText, FieldsOf, GoodDocument, Parse;
    if Parse(t) == Some(fs) {
      var d := DocumentIsWritten(t);
    }
    if d :| GoodDocument(d) && DocumentText(d) == t && FieldsOf([], d.entries) == fs {
      DocumentIsRead(d);
    }
  }

  lemma DocumentIsRead(d: Document)
    requires GoodDocument(d) && NulFree(DocumentText(d))
    ensures Parse(DocumentText(d)) == Some(FieldsOf([], d.entries))
  {
    hide Has, ReadFields, FieldsOf, EntriesText, GoodEntries, NewNames, Skip, AllBlank;
    var t := DocumentText(d);
    var body := "{" + EntriesText(d.entries, d.close, true);
    HasAll(t);
    HasConcat(t, 0, d.lead, body + d.trail);
    HasConcat(t, |d.lead|, body, d.trail);
    HasConcat(t, |d.lead|, "{", EntriesText(d.entries, d.close, true));
    HasAt(t, |d.lead|, "{", 0);
    SkipBlanks(t, 0, d.lead);
    EntriesAreRead(d.entries, d.close, t, |d.lead| + 1, 0, [], true);
    SkipBlanks(t, |d.lead| + |body|, d.trail);
  }

  lemma HasAll(t: string)
    ensures Has(t, 0, t)
  {
    assert t[0..|t|] == t;
  }

  lemma DocumentIsWritten(t: string) returns (d: Document)
    requires NulFree(t) && Parse(t).Some?
    ensures GoodDocument(d) && DocumentText(d) == t && Parse(t) == Some(FieldsOf([], d.entries))
  {
    hide Has, ReadFields, FieldsOf, EntriesText, GoodEntries, NewNames, Skip, AllBlank, Ordered.Sorted;
    var q := Skip(t, 0);
    NothingSorted();
    var entries, close := EntriesAreWritten(t, q + 1, 0, [], true);
    var n := q + 1 + |EntriesText(entries, close, true)|;
    d := Document(t[0..q], entries, close, t[n..Skip(t, n)]);
    SkippedBlanks(t, 0);
    SkippedBlanks(t, n);
    CharThere(t, q, '{');
    Joined(t, q, "{", EntriesText(entries, close, true));
    Joined(t, q, "{" + EntriesText(entries, close, true), d.trail);
    Joined(t, 0, d.lead, ("{" + EntriesText(entries, close, true)) + d.trail);
    WholeText(t, DocumentText(d));
  }

  lemma WholeText(t: string, s: string)
    requires Has(t, 0, s) && |s| == |t|
    ensures s == t
  {
  }

  lemma NothingSorted()
    ensures Ordered.Sorted(FIELDS, [])
  {
  }
}
