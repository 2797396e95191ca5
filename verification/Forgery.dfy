/** What a quote in the name of a parameter can do to a call: names are printed without escaping (lib/object.c). */
module Forgery {
  import opened Text
  import opened Literals
  import opened Json
  import opened Containers
  import opened JsonRoundTrip
  import opened Message
  import Ordered
  import Utf8

  // ---------------------------------------------------------------- fields in any order

  /** The fields of an object to which the given ones are added, one after the other. */
  function InsertAll(done: seq<Field>, fs: seq<Field>): seq<Field>
    decreases fs
  {
    if fs == [] then done else InsertAll(Ordered.Insert(FIELDS, done, fs[0]), fs[1..])
  }

  /** None of the names is there already. */
  ghost predicate Absent(done: seq<Field>, fs: seq<Field>) {
    forall i, j :: 0 <= i < |done| && 0 <= j < |fs| ==> done[i].name != fs[j].name
  }

  lemma AddOne(done: seq<Field>, f: Field, rest: seq<Field>)
    requires Ordered.Sorted(FIELDS, done) && Absent(done, [f] + rest) && DistinctNames([f] + rest)
    ensures !Ordered.Has(FIELDS, done, f.name) && Ordered.Sorted(FIELDS, Ordered.Insert(FIELDS, done, f))
    ensures forall x :: x in Ordered.Insert(FIELDS, done, f) <==> x in done || x == f
    ensures Absent(Ordered.Insert(FIELDS, done, f), rest) && DistinctNames(rest)
  {
    hide Ordered.Sorted, Ordered.Has, Ordered.Rank, Ordered.Lawful;
    var fs, added := [f] + rest, Ordered.Insert(FIELDS, done, f);
    FieldsLawful();
    FieldKey(f);
    Ordered.HasIff(FIELDS, done, f.name);
    assert fs[0] == f && forall j :: 0 <= j < |rest| ==> fs[j+1] == rest[j];
    Ordered.InsertSorted(FIELDS, done, f);
    var r := Ordered.Rank(FIELDS, done, f.name);
    assert done == done[..r] + done[r..];
  }

  /** Fields that are printed in any order are read, and sorted by name. */
  lemma {:induction false} ReadPrintedAnyhow(fs: seq<Field>, done: seq<Field>, t: string, p: nat, depth: nat,
      first: bool)
    requires first ==> fs != []
    requires forall i :: 0 <= i < |fs| ==> WellFormedField(fs[i]) && Unquoted(fs[i].name) && Printable(fs[i].value)
    requires Ordered.Sorted(FIELDS, done) && Absent(done, fs) && DistinctNames(fs)
    requires Has(t, p, PrintFields(fs, -1, first)) && LegalFields(fs, depth)
    ensures ReadFields(t, p, depth, done, first) == Some((InsertAll(done, fs), p + |PrintFields(fs, -1, first)|))
    ensures Ordered.Sorted(FIELDS, InsertAll(done, fs))
    ensures forall x :: x in InsertAll(done, fs) <==> x in done || x in fs
    decreases fs
  {
    hide Has, ReadFields, ReadValue, Print, PrintFields, WellFormedField, Printable, Legal, LegalField, Ordered.Sorted,
      Ordered.Has, Ordered.Insert, Absent, DistinctNames, Unquoted, NextAt;
    if fs == [] {
      FieldsEnd(done, t, p, depth, -1);
    } else {
      var f, rest := fs[0], fs[1..];
      WellFormedFieldParts(f);
      LegalFieldsStep(fs, depth);
      LegalFieldParts(f, depth);
      var b, c, d, e := FieldLayout(fs, t, p, -1, first);
      NameReads(t, b, f.name);
      ReadPrinted(f.value, t, d, depth, -1);
      assert fs == [f] + rest;
      AddOne(done, f, rest);
      FieldStep(t, p, b, c, d, e, depth, done, f, first);
      ReadPrintedAnyhow(rest, Ordered.Insert(FIELDS, done, f), t, e, depth, false);
    }
  }

  lemma LegalFieldParts(f: Field, depth: nat)
    requires LegalField(f, depth)
    ensures Plain(f.name) && Utf8.Valid(f.name) && Legal(f.value, depth)
  {
  }

  // ---------------------------------------------------------------- a forged call

  /** A name that ends the parameters in front of its end, and makes the call one that takes no reply. */
  function ForgedName(a: Field, b: Field): string {
    a.name + "\":" + Print(a.value, -1) + "},\"oneway\":true,\"z\":{\"" + b.name
  }

  /** The fields that are read where a call with this name was printed, in the order of the text. */
  function ForgedFields(name: string, a: Field, b: Field): seq<Field> {
    [Field("method", Str(name)), Field("parameters", Obj([a])), Field("oneway", Bool(true)), Field("z", Obj([b]))]
  }

  lemma TwoFields(name: string, f: Field)
    ensures PackedCall(name, Some([f]), 0) == [Field("method", Str(name)), Field("parameters", Obj([f]))]
  {
    hide PackedCall, Ordered.Sorted;
    var fs := [Field("method", Str(name)), Field("parameters", Obj([f]))];
    CallMembers(name, Some([f]), 0);
    InOrder(fs[0], fs[1]);
    FieldsLawful();
    assert CallFields(name, Some([f]), 0) == fs;
    Ordered.SortedCanonical(FIELDS, PackedCall(name, Some([f]), 0), fs);
  }

  lemma InOrder(a: Field, b: Field)
    requires a.name == "method" && b.name == "parameters"
    ensures Ordered.Sorted(FIELDS, [a, b])
  {
    assert StrCmp("method", "parameters") < 0 by {
      assert "method"[0] == 'm' && "parameters"[0] == 'p';
    }
  }

  function Key(name: string): string {
    "\"" + name + "\":"
  }

  /** A printed object behind its opening brace. */
  lemma PrintNext(f: Field, rest: seq<Field>)
    ensures PrintObject([f] + rest, -1) == "{" + (Key(f.name) + (Print(f.value, -1) + PrintFields(rest, -1, false)))
    ensures PrintFields([f] + rest, -1, false) ==
      "," + (Key(f.name) + (Print(f.value, -1) + PrintFields(rest, -1, false)))
    ensures PrintFields([], -1, false) == "}"
  {
    hide Print, PrintFields;
    PrintOne(f, rest);
    var v, more := Print(f.value, -1), PrintFields(rest, -1, false);
    assert "{\"" + f.name + "\":" + v + more == "{" + ("\"" + f.name + "\":" + (v + more));
    assert ",\"" + f.name + "\":" + v + more == "," + ("\"" + f.name + "\":" + (v + more));
  }

  lemma PrintOneField(f: Field)
    ensures Print(Obj([f]), -1) == "{" + (Key(f.name) + (Print(f.value, -1) + "}"))
  {
    hide Print, Key;
    assert [f] + [] == [f];
    PrintNext(f, []);
    PrintsObject([f]);
  }

  lemma PrintsObject(fs: seq<Field>)
    ensures Print(Obj(fs), -1) == PrintObject(fs, -1) && Print(Bool(true), -1) == "true"
  {
    hide PrintObject;
  }

  lemma HonestText(name: string, f: Field)
    ensures PrintObject(PackedCall(name, Some([f]), 0), -1) ==
      "{" + (Key("method") + (Print(Str(name), -1) + ("," + (Key("parameters") + (Print(Obj([f]), -1) + "}")))))
  {
    hide PackedCall, Print, PrintObject, PrintFields, Key;
    TwoFields(name, f);
    var x, y := Field("method", Str(name)), Field("parameters", Obj([f]));
    assert [x] + [y] == [x, y] && [y] + [] == [y];
    PrintNext(x, [y]);
    PrintNext(y, []);
  }

  lemma ForgedText(name: string, a: Field, b: Field)
    ensures PrintObject(ForgedFields(name, a, b), -1) ==
      "{" + (Key("method") + (Print(Str(name), -1) + ("," + (Key("parameters") + (Print(Obj([a]), -1)
        + ("," + (Key("oneway") + ("true" + ("," + (Key("z") + (Print(Obj([b]), -1) + "}")))))))))))
  {
    hide Print, PrintObject, PrintFields, Key;
    var es := ForgedFields(name, a, b);
    assert [es[0]] + es[1..] == es && [es[1]] + es[2..] == es[1..];
    assert [es[2]] + es[3..] == es[2..] && [es[3]] + [] == es[3..];
    PrintsObject([]);
    PrintNext(es[0], es[1..]);
    PrintNext(es[1], es[2..]);
    PrintNext(es[2], es[3..]);
    PrintNext(es[3], []);
  }

  lemma SameText(name: string, a: Field, b: Field)
    ensures PrintObject(PackedCall(name, Some([Field(ForgedName(a, b), b.value)]), 0), -1) ==
      PrintObject(ForgedFields(name, a, b), -1)
  {
    hide PackedCall, Print, PrintObject, Key;
    var f := Field(ForgedName(a, b), b.value);
    HonestText(name, f);
    ForgedText(name, a, b);
    PrintOneField(f);
    PrintOneField(a);
    PrintOneField(b);
    SameConcatenation(a.name, Print(a.value, -1), b.name, Print(b.value, -1));
  }

  /** What lies between the two names. */
  function Middle(): string {
    "}" + ("," + (Key("oneway") + ("true" + ("," + (Key("z") + "{")))))
  }

  lemma MiddleIs()
    ensures "},\"oneway\":true,\"z\":{\"" == Middle() + "\""
  {
  }

  lemma SameConcatenation(a: string, v: string, b: string, w: string)
    ensures
      var name := a + "\":" + v + "},\"oneway\":true,\"z\":{\"" + b;
      "{" + (Key(name) + (w + "}")) + "}" ==
      "{" + (Key(a) + (v + "}"))
        + ("," + (Key("oneway") + ("true" + ("," + (Key("z") + ("{" + (Key(b) + (w + "}")) + "}"))))))
  {
    MiddleIs();
    var m := Middle();
    var o, z := Key("oneway"), Key("z");
    assert m == "}" + ("," + (o + ("true" + ("," + (z + "{")))));
    hide Middle, Key;
    KeyJoins(a, v, m, b);
    Join(Key(a), v, o, z, Key(b), w);
  }

  lemma KeyJoins(a: string, v: string, m: string, b: string)
    ensures Key(a + "\":" + v + (m + "\"") + b) == Key(a) + (v + (m + Key(b)))
  {
  }

  lemma Join(a: string, v: string, o: string, z: string, b: string, w: string)
    ensures
      "{" + (a + (v + ("}" + ("," + (o + ("true" + ("," + (z + "{"))))) + b)) + (w + "}")) + "}" ==
      "{" + (a + (v + "}")) + ("," + (o + ("true" + ("," + (z + ("{" + (b + (w + "}")) + "}"))))))
  {
  }

  lemma OneField(f: Field, b: Field)
    requires WellFormed(Obj([b])) && f.value == b.value && NulFree(f.name)
    ensures WellFormed(Obj([f]))
  {
    assert WellFormedField([b][0]);
  }

  /** A field that is printed and read back. */
  ghost predicate Fit(f: Field) {
    WellFormedField(f) && Unquoted(f.name) && Printable(f.value) && LegalField(f, 0)
  }

  lemma FitField(f: Field)
    requires f.name in {"method", "parameters", "oneway", "z"} && !f.value.Null?
    requires WellFormed(f.value) && Printable(f.value) && Legal(f.value, 0)
    ensures Fit(f)
  {
    hide WellFormed, Printable, Legal, Utf8.Valid;
    if f.name == "z" {
      NameZ();
    } else {
      MessageNames(f.name);
    }
  }

  lemma NameZ()
    ensures NulFree("z") && Unquoted("z") && Plain("z") && Utf8.Valid("z")
  {
    assert "z"[1..] == "";
  }

  lemma ScalarsFit(name: CString)
    ensures WellFormed(Str(name)) && WellFormed(Bool(true)) && Printable(Str(name)) && Printable(Bool(true))
    ensures Legal(Bool(true), 0) && (Utf8.Valid(name) ==> Legal(Str(name), 0))
  {
  }

  lemma ForgedFieldsFit(name: CString, a: Field, b: Field)
    requires WellFormed(Obj([a])) && Unforgeable(Some([a])) && Receivable(Some([a]))
    requires WellFormed(Obj([b])) && Unforgeable(Some([b])) && Receivable(Some([b])) && Utf8.Valid(name)
    ensures forall f <- ForgedFields(name, a, b) :: Fit(f)
  {
    hide Legal, WellFormed, Printable, Fit, Utf8.Valid;
    var es := ForgedFields(name, a, b);
    ScalarsFit(name);
    FitField(es[0]);
    FitField(es[1]);
    FitField(es[2]);
    FitField(es[3]);
  }

  lemma ForgedNamesDiffer(name: string, a: Field, b: Field)
    ensures DistinctNames(ForgedFields(name, a, b))
  {
    assert |"oneway"| == |"method"| == 6 && "oneway"[0] == 'o' && "method"[0] == 'm' && |"parameters"| == 10;
    assert |"z"| == 1;
  }

  /** The fields are read in the order of the text. */
  lemma ForgedParses(name: CString, a: Field, b: Field)
    requires forall f <- ForgedFields(name, a, b) :: Fit(f)
    ensures var es := ForgedFields(name, a, b);
      && Parse(PrintObject(es, -1)) == Some(InsertAll([], es)) && Ordered.Sorted(FIELDS, InsertAll([], es))
      && forall x :: x in InsertAll([], es) <==> x in es
  {
    hide Print, PrintFields, ReadFields, WellFormedField, Printable, LegalField, Unquoted, DistinctNames, InsertAll,
      Ordered.Sorted, ForgedFields;
    var es := ForgedFields(name, a, b);
    var t, rest := PrintObject(es, -1), PrintFields(es, -1, true);
    FourFields(name, a, b);
    assert forall i :: 0 <= i < |es| ==> es[i] in es;
    assert t == "{" + ("" + rest) && t[1..] == rest;
    assert At(t, 0) == '{' && Has(t, 1, rest);
    NothingSorted();
    ForgedNamesDiffer(name, a, b);
    ReadPrintedAnyhow(es, [], t, 1, 0, true);
  }

  lemma FourFields(name: string, a: Field, b: Field)
    ensures |ForgedFields(name, a, b)| == 4
  {
  }

  lemma ForgedUnpacks(name: CString, a: Field, b: Field, gs: seq<Field>)
    requires Ordered.Sorted(FIELDS, gs) && forall x :: x in gs <==> x in ForgedFields(name, a, b)
    ensures UnpackedCall(gs) == Some(Call(name, [a], CALL_ONEWAY))
  {
    hide FieldNamed, Ordered.Sorted;
    var es := ForgedFields(name, a, b);
    assert |"more"| == 4 && |"oneway"| == |"method"| == 6 && "oneway"[0] == 'o' && "method"[0] == 'm';
    assert |"parameters"| == 10 && |"z"| == 1 && es[0] in es && es[1] in es && es[2] in es;
    Reads(gs, es, "method", Some(Str(name)));
    Reads(gs, es, "parameters", Some(Obj([a])));
    Reads(gs, es, "more", None);
    Reads(gs, es, "oneway", Some(Bool(true)));
  }

  lemma NothingSorted()
    ensures Ordered.Sorted(FIELDS, [])
  {
  }

  /** Whatever two fields are chosen, a call that is to be answered, with one parameter whose name is forged of them,
      arrives as a call that is not, with the first field as its parameter. */
  lemma ParametersForge(name: CString, a: Field, b: Field)
    requires WellFormed(Obj([a])) && Unforgeable(Some([a])) && Receivable(Some([a]))
    requires WellFormed(Obj([b])) && Unforgeable(Some([b])) && Receivable(Some([b])) && Utf8.Valid(name)
    requires NulFree(ForgedName(a, b))
    ensures WellFormed(Obj([Field(ForgedName(a, b), b.value)]))
    ensures RequestIn(RequestText(Request(name, Some([Field(ForgedName(a, b), b.value)]), 0))) ==
      Some(Call(name, [a], CALL_ONEWAY))
  {
    hide PackedCall, Print, PrintObject, ForgedName, ForgedFields, InsertAll, Parse, UnpackedCall, Fit, WellFormed,
      Unforgeable, Receivable, Ordered.Sorted;
    OneField(Field(ForgedName(a, b), b.value), b);
    SameText(name, a, b);
    ForgedFieldsFit(name, a, b);
    ForgedParses(name, a, b);
    ForgedUnpacks(name, a, b, InsertAll([], ForgedFields(name, a, b)));
  }

  /** One such call: its only parameter is 2, and the one that arrives is `a`, which is 1. */
  lemma ArrivesOneWay()
    ensures var forged := Field("a\":1},\"oneway\":true,\"z\":{\"b", Int(2));
      && WellFormed(Obj([forged]))
      && RequestIn(RequestText(Request("m", Some([forged]), 0))) == Some(Call("m", [Field("a", Int(1))], CALL_ONEWAY))
  {
    hide RequestIn, RequestText, Utf8.Valid;
    var a, b := Field("a", Int(1)), Field("b", Int(2));
    assert ForgedName(a, b) == "a\":1},\"oneway\":true,\"z\":{\"b";
    LetterFits("a", 1);
    LetterFits("b", 2);
    LettersValid("m");
    ParametersForge("m", a, b);
  }

  lemma LetterFits(name: string, i: nat)
    requires name in {"a", "b"} && i < 10
    ensures WellFormed(Obj([Field(name, Int(i))])) && Unforgeable(Some([Field(name, Int(i))]))
    ensures Receivable(Some([Field(name, Int(i))]))
  {
    LettersValid(name);
    assert Plain(name);
    var f := Field(name, Int(i));
    assert Legal(f.value, 1) && LegalField(f, 1);
    assert Legal(Obj([f]), 0);
  }
}
