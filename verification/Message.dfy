/** The JSON form of calls and replies (lib/message.c). */
module Message {
  import opened Errors
  import opened Text
  import opened Literals
  import opened Json
  import opened JsonExact
  import opened JsonRoundTrip
  import opened Containers
  import AvlShape
  import Utf8
  import Ordered

  // ---------------------------------------------------------------- flags

  const CALL_MORE: nat := 1
  const CALL_ONEWAY: nat := 2
  const REPLY_CONTINUES: nat := 1

  predicate More(flags: nat) { flags % 2 == 1 }

  predicate OneWay(flags: nat) { flags / 2 % 2 == 1 }

  predicate Continues(flags: nat) { flags % 2 == 1 }

  // ---------------------------------------------------------------- the fields of a message

  /** The fields of an object on which the given ones have been set, one after the other. */
  function SetAll(es: seq<Field>): seq<Field> {
    if es == [] then []
    else
      var last := es[|es|-1];
      WithField(SetAll(es[..|es|-1]), last.name, last.value)
  }

  function ParametersField(parameters: Option<seq<Field>>): seq<Field> {
    if parameters.Some? then [Field("parameters", Obj(parameters.value))] else []
  }

  function Flag(name: string, isSet: bool): seq<Field> {
    if isSet then [Field(name, Bool(true))] else []
  }

  function ErrorField(error: Option<string>): seq<Field> {
    if error.Some? then [Field("error", Str(error.value))] else []
  }

  function CallFields(name: string, parameters: Option<seq<Field>>, flags: nat): seq<Field> {
    [Field("method", Str(name))] + ParametersField(parameters) + Flag("more", More(flags))
      + Flag("oneway", OneWay(flags))
  }

  function ReplyFields(error: Option<string>, parameters: Option<seq<Field>>, flags: nat): seq<Field> {
    ErrorField(error) + ParametersField(parameters) + Flag("continues", Continues(flags))
  }

  function PackedCall(name: string, parameters: Option<seq<Field>>, flags: nat): seq<Field> {
    SetAll(CallFields(name, parameters, flags))
  }

  function PackedReply(error: Option<string>, parameters: Option<seq<Field>>, flags: nat): seq<Field> {
    SetAll(ReplyFields(error, parameters, flags))
  }

  /** Whether a field is missing or of the kind asked for. */
  predicate Lenient(v: Option<Value>, kind: Kind) {
    v.None? || KindOf(v.value) == kind
  }

  predicate IsSet(v: Option<Value>) {
    v == Some(Bool(true))
  }

  function ParametersOf(fs: seq<Field>): seq<Field> {
    match FieldNamed(fs, "parameters")
    case Some(Obj(ps)) => ps
    case _ => []
  }

  datatype Call = Call(name: string, parameters: seq<Field>, flags: nat)

  datatype Reply = Reply(error: Option<string>, parameters: seq<Field>, flags: nat)

  function UnpackedCall(fs: seq<Field>): Option<Call> {
    var name, more, oneway := FieldNamed(fs, "method"), FieldNamed(fs, "more"), FieldNamed(fs, "oneway");
    if name.None? || !name.value.Str? || !Lenient(FieldNamed(fs, "parameters"), KObject)
       || !Lenient(more, KBool) || !Lenient(oneway, KBool) then None
    else
      Some(Call(name.value.s, ParametersOf(fs),
                (if IsSet(more) then CALL_MORE else 0) + (if IsSet(oneway) then CALL_ONEWAY else 0)))
  }

  function UnpackedReply(fs: seq<Field>): Option<Reply> {
    var error, continues := FieldNamed(fs, "error"), FieldNamed(fs, "continues");
    if !Lenient(error, KString) || !Lenient(FieldNamed(fs, "parameters"), KObject)
      || !Lenient(continues, KBool) then None
    else
      Some(Reply(if error.Some? then Some(error.value.s) else None, ParametersOf(fs),
                 if IsSet(continues) then REPLY_CONTINUES else 0))
  }

  // ---------------------------------------------------------------- packing

  /** Setting one more field, or none. */
  lemma SetMore(es: seq<Field>, more: seq<Field>)
    requires |more| <= 1
    ensures SetAll(es + more) == if more == [] then SetAll(es) else WithField(SetAll(es), more[0].name, more[0].value)
  {
    if more == [] {
      assert es + more == es;
    } else {
      assert (es + more)[..|es|] == es;
    }
  }

  method PackCall(name: string, parameters: Option<seq<Field>>, flags: nat) returns (r: Outcome, call: VarlinkObject)
    ensures fresh(call.Repr()) && call.Valid()
    ensures r == if More(flags) && OneWay(flags) then InvalidCall else Success
    ensures r.Success? ==> call.Fields() == PackedCall(name, parameters, flags)
  {
    hide WithField, VarlinkObject.Valid, SetAll, More, OneWay;
    call := new VarlinkObject();
    if More(flags) && OneWay(flags) {
      return InvalidCall, call;
    }
    ghost var es := [Field("method", Str(name))];
    NothingSet();
    SetMore([], es);
    assert [] + es == es;
    r := call.Set("method", Str(name));
    SetMore(es, ParametersField(parameters));
    if parameters.Some? {
      r := call.Set("parameters", Obj(parameters.value));
    }
    SetMore(es + ParametersField(parameters), Flag("more", More(flags)));
    if More(flags) {
      r := call.Set("more", Bool(true));
    }
    SetMore(es + ParametersField(parameters) + Flag("more", More(flags)), Flag("oneway", OneWay(flags)));
    if OneWay(flags) {
      r := call.Set("oneway", Bool(true));
    }
  }

  lemma NothingSet()
    ensures SetAll([]) == []
  {
  }

  method PackReply(error: Option<string>, parameters: Option<seq<Field>>, flags: nat) returns (reply: VarlinkObject)
    ensures fresh(reply.Repr()) && reply.Valid() && reply.Fields() == PackedReply(error, parameters, flags)
  {
    hide WithField, VarlinkObject.Valid, SetAll, Continues;
    reply := new VarlinkObject();
    var r: Outcome;
    NothingSet();
    SetMore([], ErrorField(error));
    assert [] + ErrorField(error) == ErrorField(error);
    if error.Some? {
      r := reply.Set("error", Str(error.value));
    }
    SetMore(ErrorField(error), ParametersField(parameters));
    if parameters.Some? {
      r := reply.Set("parameters", Obj(parameters.value));
    }
    SetMore(ErrorField(error) + ParametersField(parameters), Flag("continues", Continues(flags)));
    if Continues(flags) {
      r := reply.Set("continues", Bool(true));
    }
  }

  // ---------------------------------------------------------------- unpacking

  method UnpackCall(call: VarlinkObject) returns (r: Outcome, unpacked: Call)
    requires call.Valid()
    ensures r == if UnpackedCall(call.Fields()).Some? then Success else InvalidMessage
    ensures r.Success? ==> UnpackedCall(call.Fields()) == Some(unpacked)
  {
    hide FieldNamed, VarlinkObject.Valid;
    assert allocated(AvlShape.Nodes(call.fields.shape));
    unpacked := Call("", [], 0);
    var rName, name := call.GetString("method");
    if !rName.Success? {
      return InvalidMessage, unpacked;
    }
    var rParameters, parameters := call.GetObject("parameters");
    if rParameters.InvalidType? {
      return InvalidMessage, unpacked;
    }
    var rMore, more := call.GetBool("more");
    if rMore.InvalidType? {
      return InvalidMessage, unpacked;
    }
    var rOneWay, oneway := call.GetBool("oneway");
    if rOneWay.InvalidType? {
      return InvalidMessage, unpacked;
    }
    var flags := 0;
    if more {
      flags := flags + CALL_MORE;
    }
    if oneway {
      flags := flags + CALL_ONEWAY;
    }
    return Success, Call(name, parameters, flags);
  }

  method UnpackReply(reply: VarlinkObject) returns (r: Outcome, unpacked: Reply)
    requires reply.Valid()
    ensures r == if UnpackedReply(reply.Fields()).Some? then Success else InvalidMessage
    ensures r.Success? ==> UnpackedReply(reply.Fields()) == Some(unpacked)
  {
    hide FieldNamed, VarlinkObject.Valid;
    assert allocated(AvlShape.Nodes(reply.fields.shape));
    unpacked := Reply(None, [], 0);
    var rError, error := reply.GetString("error");
    if rError.InvalidType? {
      return InvalidMessage, unpacked;
    }
    var rParameters, parameters := reply.GetObject("parameters");
    if rParameters.InvalidType? {
      return InvalidMessage, unpacked;
    }
    var rContinues, continues := reply.GetBool("continues");
    if rContinues.InvalidType? {
      return InvalidMessage, unpacked;
    }
    return Success, Reply(if rError.Success? then Some(error) else None, parameters,
                          if continues then REPLY_CONTINUES else 0);
  }

  // ---------------------------------------------------------------- round trips

  /** Setting a field that is not there yet adds it and nothing else. */
  lemma SetMembers(fs: seq<Field>, f: Field)
    requires Ordered.Sorted(FIELDS, fs) && forall x <- fs :: x.name != f.name
    ensures Ordered.Sorted(FIELDS, WithField(fs, f.name, f.value))
    ensures forall x :: x in WithField(fs, f.name, f.value) <==> x in fs || x == f
  {
    hide Ordered.Sorted, Ordered.Lawful, Ordered.Rank;
    FieldsLawful();
    Ordered.HasIff(FIELDS, fs, f.name);
    assert !Ordered.Has(FIELDS, fs, f.name);
    Ordered.InsertSorted(FIELDS, fs, f);
    var r := Ordered.Rank(FIELDS, fs, f.name);
    assert fs == fs[..r] + fs[r..];
  }

  ghost predicate DistinctNames(es: seq<Field>) {
    forall i, j :: 0 <= i < j < |es| ==> es[i].name != es[j].name
  }

  /** Fields with distinct names are all there, in the order of their names. */
  lemma {:induction false} SetAllMembers(es: seq<Field>)
    requires DistinctNames(es)
    ensures Ordered.Sorted(FIELDS, SetAll(es)) && forall x :: x in SetAll(es) <==> x in es
  {
    hide WithField, Ordered.Sorted;
    if es == [] {
      NoFieldsSorted();
    } else {
      var front, last := es[..|es|-1], es[|es|-1];
      assert es == front + [last];
      SetAllMembers(front);
      SetMembers(SetAll(front), last);
    }
  }

  lemma NoFieldsSorted()
    ensures Ordered.Sorted(FIELDS, [])
  {
  }

  /** What a message consists of, field by field. */
  lemma CallField(name: string, parameters: Option<seq<Field>>, flags: nat, x: Field)
    ensures x in CallFields(name, parameters, flags) <==>
      || x == Field("method", Str(name)) || (parameters.Some? && x == Field("parameters", Obj(parameters.value)))
      || (More(flags) && x == Field("more", Bool(true))) || (OneWay(flags) && x == Field("oneway", Bool(true)))
  {
    hide More, OneWay;
  }

  lemma ReplyField(error: Option<string>, parameters: Option<seq<Field>>, flags: nat, x: Field)
    ensures x in ReplyFields(error, parameters, flags) <==>
      || (error.Some? && x == Field("error", Str(error.value)))
        || (parameters.Some? && x == Field("parameters", Obj(parameters.value)))
      || (Continues(flags) && x == Field("continues", Bool(true)))
  {
    hide Continues;
  }

  lemma MessageFieldsDistinct(name: string, error: Option<string>, parameters: Option<seq<Field>>, flags: nat)
    ensures DistinctNames(CallFields(name, parameters, flags)) && DistinctNames(ReplyFields(error, parameters, flags))
  {
    hide More, OneWay, Continues;
    assert "method"[0] == 'm' && "oneway"[0] == 'o' && |"more"| == 4 && |"error"| == 5 && |"continues"| == 9
      && |"parameters"| == 10;
  }

  /** A call has exactly the fields it was packed with, in the order of their names. */
  lemma CallMembers(name: string, parameters: Option<seq<Field>>, flags: nat)
    ensures Ordered.Sorted(FIELDS, PackedCall(name, parameters, flags))
    ensures forall x :: x in PackedCall(name, parameters, flags) <==> x in CallFields(name, parameters, flags)
  {
    hide SetAll, CallFields, Ordered.Sorted;
    MessageFieldsDistinct(name, None, parameters, flags);
    SetAllMembers(CallFields(name, parameters, flags));
  }

  lemma ReplyMembers(error: Option<string>, parameters: Option<seq<Field>>, flags: nat)
    ensures Ordered.Sorted(FIELDS, PackedReply(error, parameters, flags))
    ensures forall x :: x in PackedReply(error, parameters, flags) <==> x in ReplyFields(error, parameters, flags)
  {
    hide SetAll, ReplyFields, Ordered.Sorted;
    MessageFieldsDistinct("", error, parameters, flags);
    SetAllMembers(ReplyFields(error, parameters, flags));
  }

  function OrEmpty(parameters: Option<seq<Field>>): seq<Field> {
    if parameters.Some? then parameters.value else []
  }

  lemma FlagsAdd(flags: nat)
    ensures (if More(flags) then CALL_MORE else 0) + (if OneWay(flags) then CALL_ONEWAY else 0) == flags % 4
  {
    var h := flags / 2;
    assert flags == 2 * h + flags % 2 && h == 2 * (h / 2) + h % 2;
    assert flags == 4 * (h / 2) + (2 * (h % 2) + flags % 2);
  }

  /** What a lookup gives is determined by the fields there are. */
  lemma Reads(fs: seq<Field>, es: seq<Field>, name: string, v: Option<Value>)
    requires Ordered.Sorted(FIELDS, fs) && forall x :: x in fs <==> x in es
    requires if v.Some? then Field(name, v.value) in es else forall x <- es :: x.name != name
    ensures FieldNamed(fs, name) == v
  {
    hide Ordered.Sorted;
    if v.Some? {
      FoundField(fs, Field(name, v.value));
    } else {
      FieldsLawful();
      Ordered.HasIff(FIELDS, fs, name);
    }
  }

  /** What the lookups in a packed call give. */
  lemma CallReads(name: string, parameters: Option<seq<Field>>, flags: nat)
    ensures var fs := PackedCall(name, parameters, flags);
      && FieldNamed(fs, "method") == Some(Str(name))
      && FieldNamed(fs, "parameters") == (if parameters.Some? then Some(Obj(parameters.value)) else None)
      && FieldNamed(fs, "more") == (if More(flags) then Some(Bool(true)) else None)
      && FieldNamed(fs, "oneway") == (if OneWay(flags) then Some(Bool(true)) else None)
  {
    hide PackedCall, FieldNamed, More, OneWay;
    var fs, es := PackedCall(name, parameters, flags), CallFields(name, parameters, flags);
    assert "method"[0] == 'm' && "oneway"[0] == 'o' && |"more"| == 4 && |"parameters"| == 10;
    CallMembers(name, parameters, flags);
    assert es[0] == Field("method", Str(name));
    Reads(fs, es, "method", Some(Str(name)));
    Reads(fs, es, "parameters", if parameters.Some? then Some(Obj(parameters.value)) else None);
    Reads(fs, es, "more", if More(flags) then Some(Bool(true)) else None);
    Reads(fs, es, "oneway", if OneWay(flags) then Some(Bool(true)) else None);
  }

  /** Unpacking a packed call gives back its method, its parameters and its two flags. */
  lemma CallUnpacks(name: string, parameters: Option<seq<Field>>, flags: nat)
    ensures UnpackedCall(PackedCall(name, parameters, flags)) == Some(Call(name, OrEmpty(parameters), flags % 4))
  {
    hide PackedCall, FieldNamed, More, OneWay;
    CallReads(name, parameters, flags);
    FlagsAdd(flags);
  }

  lemma ReplyUnpacks(error: Option<string>, parameters: Option<seq<Field>>, flags: nat)
    ensures UnpackedReply(PackedReply(error, parameters, flags)) == Some(Reply(error, OrEmpty(parameters), flags % 2))
  {
    hide PackedReply, FieldNamed;
    var fs, es := PackedReply(error, parameters, flags), ReplyFields(error, parameters, flags);
    assert |"error"| == 5 && |"continues"| == 9 && |"parameters"| == 10;
    ReplyMembers(error, parameters, flags);
    Reads(fs, es, "error", if error.Some? then Some(Str(error.value)) else None);
    Reads(fs, es, "parameters", if parameters.Some? then Some(Obj(parameters.value)) else None);
    Reads(fs, es, "continues", if Continues(flags) then Some(Bool(true)) else None);
  }

  // ---------------------------------------------------------------- which messages are accepted

  /** A field of that name is of the kind asked for, if there is one. */
  predicate Fits(fs: seq<Field>, name: string, kind: Kind) {
    forall x <- fs :: x.name == name ==> KindOf(x.value) == kind
  }

  /** Looking up finds the field of that name. */
  lemma LooksUp(fs: seq<Field>, name: string)
    requires Ordered.Sorted(FIELDS, fs)
    ensures var v := FieldNamed(fs, name);
      if v.Some? then Field(name, v.value) in fs && forall x <- fs :: x.name == name ==> x.value == v.value
      else forall x <- fs :: x.name != name
  {
    hide Ordered.Sorted, FieldNamed;
    if x :| x in fs && x.name == name {
      FoundField(fs, x);
      forall y | y in fs && y.name == name ensures y.value == x.value {
        FoundField(fs, y);
      }
    } else {
      NotFound(fs, name);
    }
  }

  lemma NotFound(fs: seq<Field>, name: string)
    requires Ordered.Sorted(FIELDS, fs) && forall x <- fs :: x.name != name
    ensures FieldNamed(fs, name) == None
  {
    hide Ordered.Sorted;
    FieldsLawful();
    Ordered.HasIff(FIELDS, fs, name);
  }

  /** A message is a call if it has a method, and its parameters and flags are of their kinds, if it has any; what else
      it has does not matter. */
  lemma CallIsAccepted(fs: seq<Field>)
    requires Ordered.Sorted(FIELDS, fs)
    ensures UnpackedCall(fs).Some? <==>
      && (exists name :: Field("method", Str(name)) in fs) && Fits(fs, "parameters", KObject)
      && Fits(fs, "more", KBool) && Fits(fs, "oneway", KBool)
    ensures UnpackedCall(fs).Some? ==>
      var q := UnpackedCall(fs).value;
      && Field("method", Str(q.name)) in fs && (More(q.flags) <==> Field("more", Bool(true)) in fs)
      && (OneWay(q.flags) <==> Field("oneway", Bool(true)) in fs) && q.flags < 4
      && if exists x <- fs :: x.name == "parameters" then Field("parameters", Obj(q.parameters)) in fs
         else q.parameters == []
  {
    hide Ordered.Sorted, FieldNamed;
    LooksUp(fs, "method");
    LooksUp(fs, "parameters");
    LooksUp(fs, "more");
    LooksUp(fs, "oneway");
    Lenience(fs, "parameters", KObject);
    Lenience(fs, "more", KBool);
    Lenience(fs, "oneway", KBool);
  }

  lemma Lenience(fs: seq<Field>, name: string, kind: Kind)
    requires Ordered.Sorted(FIELDS, fs)
    ensures Lenient(FieldNamed(fs, name), kind) <==> Fits(fs, name, kind)
  {
    hide Ordered.Sorted, FieldNamed;
    LooksUp(fs, name);
  }

  /** A message is a reply if its error, its parameters and its flag are of their kinds, if it has any. */
  lemma ReplyIsAccepted(fs: seq<Field>)
    requires Ordered.Sorted(FIELDS, fs)
    ensures UnpackedReply(fs).Some? <==>
      Fits(fs, "error", KString) && Fits(fs, "parameters", KObject) && Fits(fs, "continues", KBool)
    ensures UnpackedReply(fs).Some? ==>
      var a := UnpackedReply(fs).value;
      && (if a.error.Some? then Field("error", Str(a.error.value)) in fs else forall x <- fs :: x.name != "error")
      && (Continues(a.flags) <==> Field("continues", Bool(true)) in fs) && a.flags < 2
      && if exists x <- fs :: x.name == "parameters" then Field("parameters", Obj(a.parameters)) in fs
         else a.parameters == []
  {
    hide Ordered.Sorted, FieldNamed;
    LooksUp(fs, "error");
    LooksUp(fs, "parameters");
    LooksUp(fs, "continues");
    Lenience(fs, "error", KString);
    Lenience(fs, "parameters", KObject);
    Lenience(fs, "continues", KBool);
  }

  // ---------------------------------------------------------------- what can be sent

  /** Strings and parameters as C holds them. */
  type CString = s: string | NulFree(s) witness ""

  type Parameters = fs: seq<Field> | WellFormed(Obj(fs)) witness []

  lemma CallWellFormed(name: CString, parameters: Option<Parameters>, flags: nat)
    ensures forall x <- PackedCall(name, parameters, flags) :: WellFormedField(x)
  {
    hide PackedCall, CallFields, WellFormed;
    CallMembers(name, parameters, flags);
    forall x | x in PackedCall(name, parameters, flags) ensures WellFormedField(x) {
      CallField(name, parameters, flags, x);
      MessageNames(x.name);
      ScalarWellFormed(x.value);
    }
  }

  lemma ReplyWellFormed(error: Option<CString>, parameters: Option<Parameters>, flags: nat)
    ensures forall x <- PackedReply(error, parameters, flags) :: WellFormedField(x)
  {
    hide PackedReply, ReplyFields, WellFormed;
    ReplyMembers(error, parameters, flags);
    forall x | x in PackedReply(error, parameters, flags) ensures WellFormedField(x) {
      ReplyField(error, parameters, flags, x);
      MessageNames(x.name);
      ScalarWellFormed(x.value);
    }
  }

  lemma ScalarWellFormed(v: Value)
    ensures v.Bool? || (v.Str? && NulFree(v.s)) ==> WellFormed(v)
  {
  }

  // ---------------------------------------------------------------- over the text

  predicate Letters(s: string) {
    forall i :: 0 <= i < |s| ==> 'a' <= s[i] <= 'z'
  }

  /** The names of message fields can be printed and read. */
  lemma MessageNames(name: string)
    requires name in {"method", "parameters", "more", "oneway", "error", "continues"}
    ensures NulFree(name) && Unquoted(name) && Plain(name) && Utf8.Valid(name)
  {
    hide Utf8.Valid;
    assert Letters("method") && Letters("parameters") && Letters("more");
    assert Letters("oneway") && Letters("error") && Letters("continues");
    LettersValid(name);
  }

  lemma {:induction false} LettersValid(s: string)
    requires Letters(s)
    ensures Utf8.Valid(s)
  {
    if s != "" {
      LettersValid(s[1..]);
    }
  }

  /** Parameters that an object can hold. */
  ghost predicate Packable(parameters: Option<seq<Field>>) {
    parameters.Some? ==> WellFormed(Obj(parameters.value))
  }

  /** Parameters that the scanner accepts as they are printed. */
  ghost predicate Receivable(parameters: Option<seq<Field>>) {
    parameters.Some? ==> Legal(Obj(parameters.value), 0)
  }

  /** No name in the parameters has a quote or backslash: their text cannot be read as anything else. */
  ghost predicate Unforgeable(parameters: Option<seq<Field>>) {
    parameters.Some? ==> Printable(Obj(parameters.value))
  }

  ghost predicate MessageField(f: Field) {
    && f.name in {"method", "parameters", "more", "oneway", "error", "continues"}
    && match f.value
       case Str(s) => NulFree(s)
       case Bool(_) => true
       case Obj(_) => WellFormed(f.value)
       case _ => false
  }

  lemma MessageFieldReads(f: Field)
    requires MessageField(f)
    ensures WellFormedField(f) && Unquoted(f.name) && (Printable(f.value) <==> f.value.Obj? ==> Printable(f.value))
    ensures LegalField(f, 0) <==>
      match f.value case Str(s) => Utf8.Valid(s) case Obj(_) => Legal(f.value, 0) case _ => true
  {
    MessageNames(f.name);
  }

  /** What is printed and parsed again arrives exactly when every field of the message is accepted; and nothing else
      arrives, if no name in it has a quote or backslash. */
  lemma MessageDelivered(fs: seq<Field>, indent: int)
    requires Ordered.Sorted(FIELDS, fs) && forall x <- fs :: MessageField(x)
    ensures WellFormed(Obj(fs))
    ensures Parse(PrintObject(fs, indent)) == Some(fs) <==> forall x <- fs :: LegalField(x, 0)
    ensures (forall x <- fs :: Printable(x.value)) ==> Parse(PrintObject(fs, indent)) in {None, Some(fs)}
  {
    hide Legal, Utf8.Valid, Parse, PrintObject, Ordered.Sorted, MessageField, LegalField, WellFormedField, Unquoted;
    forall i | 0 <= i < |fs| ensures WellFormedField(fs[i]) && Unquoted(fs[i].name) {
      assert fs[i] in fs;
      MessageFieldReads(fs[i]);
    }
    RoundTripExactly(fs, indent);
    if forall x <- fs :: Printable(x.value) {
      assert Printable(Obj(fs)) by {
        assert forall i :: 0 <= i < |fs| ==> fs[i] in fs;
      }
      RoundTrip(fs, indent);
    }
  }

  /** A printed call is parsed back exactly when its method is valid UTF-8 and its parameters are within what the
      scanner accepts. Otherwise it is refused, or read as something else if a name in it has a quote or backslash. */
  lemma CallDelivered(name: string, parameters: Option<seq<Field>>, flags: nat, indent: int)
    requires NulFree(name) && Packable(parameters)
    ensures var fs := PackedCall(name, parameters, flags);
      && WellFormed(Obj(fs))
      && (Parse(PrintObject(fs, indent)) == Some(fs) <==> Utf8.Valid(name) && Receivable(parameters))
      && (Unforgeable(parameters) ==> Parse(PrintObject(fs, indent)) in {None, Some(fs)})
  {
    hide PackedCall, CallFields, Legal, WellFormed, Printable, LegalField, Utf8.Valid, Parse, PrintObject,
      Ordered.Sorted;
    var fs := PackedCall(name, parameters, flags);
    CallMembers(name, parameters, flags);
    forall x | x in fs ensures MessageField(x) {
      CallField(name, parameters, flags, x);
    }
    forall x | x in fs ensures LegalField(x, 0) <==>
      match x.value case Str(s) => Utf8.Valid(s) case Obj(_) => Legal(x.value, 0) case _ => true {
      MessageFieldReads(x);
    }
    var nameField, ps := Field("method", Str(name)), Field("parameters", Obj(OrEmpty(parameters)));
    CallField(name, parameters, flags, nameField);
    CallField(name, parameters, flags, ps);
    MessageDelivered(fs, indent);
    if Unforgeable(parameters) {
      forall x | x in fs ensures Printable(x.value) {
        CallField(name, parameters, flags, x);
        ScalarPrintable(x.value);
      }
    }
    if Utf8.Valid(name) && Receivable(parameters) {
      forall x | x in fs ensures LegalField(x, 0) {
        CallField(name, parameters, flags, x);
      }
    } else if !Utf8.Valid(name) {
      assert nameField in fs && !LegalField(nameField, 0);
    } else {
      assert ps in fs && !LegalField(ps, 0);
    }
  }

  lemma ScalarPrintable(v: Value)
    ensures v.Bool? || v.Str? ==> Printable(v)
  {
  }

  lemma ReplyDelivered(error: Option<string>, parameters: Option<seq<Field>>, flags: nat, indent: int)
    requires (error.Some? ==> NulFree(error.value)) && Packable(parameters)
    ensures var fs := PackedReply(error, parameters, flags);
      && WellFormed(Obj(fs))
      && (Parse(PrintObject(fs, indent)) == Some(fs) <==>
            (error.Some? ==> Utf8.Valid(error.value)) && Receivable(parameters))
      && (Unforgeable(parameters) ==> Parse(PrintObject(fs, indent)) in {None, Some(fs)})
  {
    hide PackedReply, ReplyFields, Legal, WellFormed, Printable, LegalField, Utf8.Valid, Parse, PrintObject,
      Ordered.Sorted;
    var fs := PackedReply(error, parameters, flags);
    ReplyMembers(error, parameters, flags);
    forall x | x in fs ensures MessageField(x) {
      ReplyField(error, parameters, flags, x);
    }
    forall x | x in fs ensures LegalField(x, 0) <==>
      match x.value case Str(s) => Utf8.Valid(s) case Obj(_) => Legal(x.value, 0) case _ => true {
      MessageFieldReads(x);
    }
    var e := Field("error", Str(if error.Some? then error.value else ""));
    var ps := Field("parameters", Obj(OrEmpty(parameters)));
    ReplyField(error, parameters, flags, e);
    ReplyField(error, parameters, flags, ps);
    MessageDelivered(fs, indent);
    if Unforgeable(parameters) {
      forall x | x in fs ensures Printable(x.value) {
        ReplyField(error, parameters, flags, x);
        ScalarPrintable(x.value);
      }
    }
    if (error.Some? ==> Utf8.Valid(error.value)) && Receivable(parameters) {
      forall x | x in fs ensures LegalField(x, 0) {
        ReplyField(error, parameters, flags, x);
      }
    } else if error.Some? && !Utf8.Valid(error.value) {
      assert e in fs && !LegalField(e, 0);
    } else {
      assert ps in fs && !LegalField(ps, 0);
    }
  }

  // ---------------------------------------------------------------- messages of two sides

  /** A call as the client makes it. */
  datatype Request = Request(name: CString, parameters: Option<Parameters>, flags: nat)

  /** A reply as the server makes it. */
  datatype Response =
    | Output(parameters: Option<Parameters>, flags: nat)
    | Failure(error: CString, parameters: Option<Parameters>)

  function ErrorOf(a: Response): Option<CString> {
    if a.Failure? then Some(a.error) else None
  }

  function FlagsOf(a: Response): nat {
    if a.Failure? then 0 else a.flags
  }

  function RequestText(q: Request): string {
    PrintObject(PackedCall(q.name, q.parameters, q.flags), -1)
  }

  function ResponseText(a: Response): string {
    PrintObject(PackedReply(ErrorOf(a), a.parameters, FlagsOf(a)), -1)
  }

  function RequestIn(frame: string): Option<Call> {
    match Parse(frame)
    case None => None
    case Some(fs) => UnpackedCall(fs)
  }

  function ReplyIn(frame: string): Option<Reply> {
    match Parse(frame)
    case None => None
    case Some(fs) => UnpackedReply(fs)
  }

  /** What a request is on the other side, and what a response is. */
  function CallOf(q: Request): Call {
    Call(q.name, OrEmpty(q.parameters), q.flags % 4)
  }

  function ReplyOf(a: Response): Reply {
    Reply(ErrorOf(a), OrEmpty(a.parameters), FlagsOf(a) % 2)
  }

  lemma FoundMember(fs: seq<Field>, name: string)
    ensures FieldNamed(fs, name).Some? ==> Field(name, FieldNamed(fs, name).value) in fs
  {
    FieldsLawful();
  }

  /** A message that unpacks to a call has all fields of the call, unless the parameters are empty. */
  lemma CallNeeds(gs: seq<Field>, q: Request, x: Field)
    requires UnpackedCall(gs) == Some(CallOf(q)) && OrEmpty(q.parameters) != []
    requires x in PackedCall(q.name, q.parameters, q.flags)
    ensures x in gs
  {
    hide FieldNamed, PackedCall, More, OneWay;
    CallMembers(q.name, q.parameters, q.flags);
    CallField(q.name, q.parameters, q.flags, x);
    FoundMember(gs, x.name);
    FlagsAdd(q.flags);
    FlagsSplit(q.flags);
  }

  lemma FlagsSplit(flags: nat)
    ensures More(flags) == More(flags % 4) && OneWay(flags) == OneWay(flags % 4)
  {
    assert flags == 4 * (flags / 4) + flags % 4;
    assert flags / 2 == 2 * (flags / 4) + flags % 4 / 2;
  }

  /** The text of a request is read as that request exactly when the method is valid UTF-8 and the parameters are within
      what the scanner accepts. If no name in them has a quote or backslash, it is no JSON otherwise. */
  lemma RequestArrives(q: Request)
    ensures RequestIn(RequestText(q)) == Some(CallOf(q)) <==> Utf8.Valid(q.name) && Receivable(q.parameters)
    ensures Unforgeable(q.parameters) && Parse(RequestText(q)).Some? ==> RequestIn(RequestText(q)) == Some(CallOf(q))
  {
    hide Parse, UnpackedCall, PackedCall, PrintObject, Receivable, Unforgeable, Utf8.Valid, WellFormed;
    var fs := PackedCall(q.name, q.parameters, q.flags);
    CallDelivered(q.name, q.parameters, q.flags, -1);
    CallUnpacks(q.name, q.parameters, q.flags);
    if RequestIn(RequestText(q)) == Some(CallOf(q)) {
      var gs := Parse(RequestText(q)).value;
      if OrEmpty(q.parameters) == [] {
        NothingForged(q.parameters);
      } else {
        forall i | 0 <= i < |fs| ensures fs[i] in gs {
          CallNeeds(gs, q, fs[i]);
        }
        NothingAdded(fs, -1, gs);
      }
    }
  }

  lemma NothingForged(parameters: Option<seq<Field>>)
    requires OrEmpty(parameters) == []
    ensures Unforgeable(parameters)
  {
  }

  lemma ReplyNeeds(gs: seq<Field>, a: Response, x: Field)
    requires UnpackedReply(gs) == Some(ReplyOf(a)) && OrEmpty(a.parameters) != []
    requires x in PackedReply(ErrorOf(a), a.parameters, FlagsOf(a))
    ensures x in gs
  {
    hide FieldNamed, PackedReply;
    ReplyMembers(ErrorOf(a), a.parameters, FlagsOf(a));
    ReplyField(ErrorOf(a), a.parameters, FlagsOf(a), x);
    FoundMember(gs, x.name);
  }

  lemma ResponseArrives(a: Response)
    ensures ReplyIn(ResponseText(a)) == Some(ReplyOf(a)) <==>
      (a.Failure? ==> Utf8.Valid(a.error)) && Receivable(a.parameters)
    ensures Unforgeable(a.parameters) && Parse(ResponseText(a)).Some? ==> ReplyIn(ResponseText(a)) == Some(ReplyOf(a))
  {
    hide Parse, UnpackedReply, PackedReply, PrintObject, Receivable, Unforgeable, Utf8.Valid, WellFormed;
    var fs := PackedReply(ErrorOf(a), a.parameters, FlagsOf(a));
    ReplyDelivered(ErrorOf(a), a.parameters, FlagsOf(a), -1);
    ReplyUnpacks(ErrorOf(a), a.parameters, FlagsOf(a));
    if ReplyIn(ResponseText(a)) == Some(ReplyOf(a)) {
      var gs := Parse(ResponseText(a)).value;
      if OrEmpty(a.parameters) == [] {
        NothingForged(a.parameters);
      } else {
        forall i | 0 <= i < |fs| ensures fs[i] in gs {
          ReplyNeeds(gs, a, fs[i]);
        }
        NothingAdded(fs, -1, gs);
      }
    }
  }
}
