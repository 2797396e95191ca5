/** A service and the callbacks of its methods: adding interfaces and answering calls (lib/service.c). */
module Dispatching {
  import opened Errors
  import opened Text
  import opened Json
  import opened JsonRoundTrip
  import opened Containers
  import opened Message
  import opened Uris
  import opened Literals
  import opened Directories
  import opened Services
  import Idl
  import IdlReader
  import IdlReferences
  import IdlRoundTrip
  import IdlSound
  import JsonText
  import Names
  import Ordered
  import Utf8

  // ---------------------------------------------------------------- a service

  /** What a method of a service does: one of the two of the service itself, or what its user has registered. */
  datatype MethodCallback = GetInfo | GetInterfaceDescription | User(act: Message.Call -> Plan)

  /** Callbacks by interface and method. The names of all interfaces lie in the order of `strcmp`. */
  datatype Service = Service(
    about: Description,
    names: seq<string>,
    directory: Directory,
    callbacks: map<(string, string), MethodCallback>)

  datatype Description = Description(
    vendor: Option<CString>,
    product: Option<CString>,
    version: Option<CString>,
    url: Option<CString>)

  const NAMES: Ordered.Order<string, string> := Names.ByName((n: string) => n)

  function Fields(names: seq<string>): Idl.Type {
    Idl.Record(false, seq(|names|, i requires 0 <= i < |names| => Idl.TypeField(names[i], Some(Idl.String), None)))
  }

  /** The errors of the service itself. */
  datatype OwnError = UnknownInterface | UnknownMethod | Unimplemented | BadParameter

  function NameOf(e: OwnError): string {
    match e
    case UnknownInterface => "InterfaceNotFound"
    case UnknownMethod => "MethodNotFound"
    case Unimplemented => "MethodNotImplemented"
    case BadParameter => "InvalidParameter"
  }

  function FieldOf(e: OwnError): CString {
    match e
    case UnknownInterface => "interface"
    case UnknownMethod => "method"
    case Unimplemented => "method"
    case BadParameter => "parameter"
  }

  function OwnMethod(name: string, input: Idl.Type, output: Idl.Type): Idl.Member {
    Idl.Member(name, None, Idl.MethodOf(input, output))
  }

  function ErrorMember(e: OwnError): Idl.Member {
    Idl.Member(NameOf(e), None, Idl.ErrorOf(Fields([FieldOf(e)])))
  }

  /** The interface that every service has, without its documentation (lib/org.varlink.service.varlink). */
  function ServiceInterface(): Idl.Interface {
    Idl.Interface(SERVICE, None,
      [OwnMethod("GetInfo", Fields([]), Idl.Record(false, Fields(["vendor", "product", "version", "url"]).fields
         + [Idl.TypeField("interfaces", Some(Idl.Array(Idl.String)), None)])),
       OwnMethod("GetInterfaceDescription", Fields(["interface"]), Fields(["description"])),
       ErrorMember(UnknownInterface), ErrorMember(UnknownMethod), ErrorMember(Unimplemented),
       ErrorMember(BadParameter)])
  }

  function NewService(about: Description): Service {
    Service(about, [SERVICE], map[SERVICE := ServiceInterface()],
      map[(SERVICE, "GetInfo") := GetInfo, (SERVICE, "GetInterfaceDescription") := GetInterfaceDescription])
  }

  // ---------------------------------------------------------------- looking up a method

  datatype Found = BadName | NoInterface(name: string) | NoMethod(name: string) | NoCallback(name: string)
    | Calls(callback: MethodCallback)

  predicate IsMethod(members: seq<Idl.Member>, name: string) {
    var kind := Directories.KindOf(members, name);
    kind.Some? && kind.value.MethodOf?
  }

  function Find(v: Service, name: string): Found {
    match Identify(name)
    case Rejected(_) => BadName
    case Named(i, m) =>
      if i !in v.directory then NoInterface(i)
      else if !IsMethod(v.directory[i].members, m) then NoMethod(m)
      else if (i, m) !in v.callbacks then NoCallback(m)
      else Calls(v.callbacks[(i, m)])
  }

  // ---------------------------------------------------------------- answering a call

  /** A C string ends at its first NUL. */
  function UpToNul(s: string): (r: CString)
    ensures NulFree(s) ==> r == s
  {
    s[..FirstAt(s, '\0')]
  }

  /** Parameters of one string. */
  function OneString(name: CString, s: string): Parameters {
    var fs := [Field(name, Str(UpToNul(s)))];
    OneWellFormed(name, UpToNul(s));
    fs
  }

  lemma OneWellFormed(name: CString, s: CString)
    ensures WellFormed(Obj([Field(name, Str(s))]))
  {
    hide StrCmp;
    var fs := [Field(name, Str(s))];
    assert Ordered.Sorted(FIELDS, fs);
    assert WellFormedField(fs[0]);
  }

  function FullName(e: OwnError): CString {
    OwnNames(e);
    SERVICE + "." + NameOf(e)
  }

  lemma OwnNames(e: OwnError)
    ensures NulFree(SERVICE + "." + NameOf(e))
    ensures Identify(SERVICE + "." + NameOf(e)) == Named(SERVICE, NameOf(e))
  {
    hide Identify, NameOf;
    PlainService();
    PlainError(e);
    PlainName(SERVICE, NameOf(e));
    JsonText.NulFreeConcat(SERVICE, ".");
    JsonText.NulFreeConcat(SERVICE + ".", NameOf(e));
  }

  lemma PlainService()
    ensures NulFree(SERVICE) && NulFree(".") && forall c <- ":#?/" :: c !in SERVICE
  {
  }

  lemma PlainError(e: OwnError)
    ensures NulFree(NameOf(e)) && '.' !in NameOf(e) && forall c <- ":#?/" :: c !in NameOf(e)
  {
  }

  /** An error of the service itself about a name. */
  function Refuse(e: OwnError, s: string): Answer {
    DoError(FullName(e), Some(OneString(FieldOf(e), s)))
  }

  function IfGiven(name: string, s: Option<CString>): seq<Field> {
    if s.Some? then [Field(name, Str(s.value))] else []
  }

  function InterfacesField(v: Service): Field {
    Field("interfaces", Arr(seq(|v.names|, k requires 0 <= k < |v.names| => Str(UpToNul(v.names[k])))))
  }

  /** The fields that `GetInfo` sets, in that order. */
  function InfoFields(v: Service): seq<Field> {
    IfGiven("vendor", v.about.vendor) + IfGiven("product", v.about.product) + IfGiven("version", v.about.version)
      + IfGiven("url", v.about.url) + [InterfacesField(v)]
  }

  /** Setting fields leaves an object with some of them. */
  lemma {:induction false} SetAllFrom(es: seq<Field>)
    ensures Ordered.Sorted(FIELDS, SetAll(es)) && forall x <- SetAll(es) :: x in es
  {
    hide WithField, Ordered.Sorted, FieldNamed;
    if es == [] {
      NoFieldsSorted();
    } else {
      var front, last := es[..|es|-1], es[|es|-1];
      SetAllFrom(front);
      WithFieldReads(SetAll(front), last.name, last.value, last.name);
      WithFieldFrom(SetAll(front), last.name, last.value);
    }
  }

  lemma WithFieldFrom(fs: seq<Field>, name: string, v: Value)
    ensures forall x <- WithField(fs, name, v) :: x in fs || x == Field(name, v)
  {
    hide Ordered.Rank, Ordered.Has, StrCmp;
    var rest, r := Ordered.Remove(FIELDS, fs, name), Ordered.Rank(FIELDS, fs, name);
    var q := Ordered.Rank(FIELDS, rest, name);
    assert WithField(fs, name, v) == rest[..q] + [Field(name, v)] + rest[q..];
    assert forall x <- rest :: x in fs;
  }

  lemma InfoWellFormed(v: Service)
    ensures WellFormed(Obj(SetAll(InfoFields(v))))
  {
    hide Ordered.Sorted, SetAll, InfoFields;
    SetAllFrom(InfoFields(v));
    forall i | 0 <= i < |SetAll(InfoFields(v))| ensures WellFormedField(SetAll(InfoFields(v))[i]) {
      InfoField(v, SetAll(InfoFields(v))[i]);
    }
  }

  lemma InfoField(v: Service, x: Field)
    requires x in InfoFields(v)
    ensures WellFormedField(x) && Unquoted(x.name) && Printable(x.value)
  {
    hide WellFormedField, Printable, IfGiven, UpToNul;
    var a, interfaces := v.about, InterfacesField(v);
    PlainNames();
    assert x in IfGiven("vendor", a.vendor) || x in IfGiven("product", a.product)
      || x in IfGiven("version", a.version) || x in IfGiven("url", a.url) || x == interfaces;
    if x == interfaces {
      InterfacesFit(v);
    } else if x in IfGiven("vendor", a.vendor) {
      GivenFits("vendor", a.vendor, x);
    } else if x in IfGiven("product", a.product) {
      GivenFits("product", a.product, x);
    } else if x in IfGiven("version", a.version) {
      GivenFits("version", a.version, x);
    } else {
      GivenFits("url", a.url, x);
    }
  }

  lemma PlainNames()
    ensures Unquoted("vendor") && Unquoted("product") && Unquoted("version") && Unquoted("url")
    ensures NulFree("interfaces") && Unquoted("interfaces")
  {
  }

  lemma GivenFits(name: CString, s: Option<CString>, x: Field)
    requires x in IfGiven(name, s) && Unquoted(name)
    ensures WellFormedField(x) && Unquoted(x.name) && Printable(x.value)
  {
  }

  lemma InterfacesFit(v: Service)
    ensures var x := InterfacesField(v); WellFormedField(x) && Unquoted(x.name) && Printable(x.value)
  {
    hide FirstAt;
    PlainNames();
    var es := InterfacesField(v).value.elements;
    forall i | 0 <= i < |es| ensures es[i].Str? && WellFormed(es[i]) && Printable(es[i]) {
      var s: CString := UpToNul(v.names[i]);
      assert es[i] == Str(s);
    }
    assert WellFormed(Arr(es));
  }

  function Info(v: Service): Parameters {
    InfoWellFormed(v);
    SetAll(InfoFields(v))
  }

  /** A callback that answers once returns what became of its answer. */
  function Last(outcomes: seq<Outcome>): Outcome {
    if outcomes == [] then Success else outcomes[|outcomes|-1]
  }

  function AnswerWith(answer: Answer): Plan {
    Plan([answer], Last)
  }

  /** The interface that a call asks about. */
  function AskedAbout(q: Message.Call): Option<string> {
    match FieldNamed(q.parameters, "interface")
    case Some(Str(i)) => Some(i)
    case _ => None
  }

  function Describe(v: Service, asked: Option<string>): Answer {
    match asked
    case None => Refuse(BadParameter, "interface")
    case Some(i) =>
      if i !in v.directory then Refuse(UnknownInterface, i)
      else DoReply(Some(OneString("description", Idl.PrintInterface(v.directory[i], -1))), 0)
  }

  predicate ByLibrary(v: Service, q: Message.Call) {
    var f := Find(v, q.name);
    f.Calls? ==> !f.callback.User?
  }

  /** How the library answers a call by itself. */
  function OwnAnswer(v: Service, q: Message.Call): Answer
    requires ByLibrary(v, q)
  {
    match Find(v, q.name)
    case BadName => Refuse(BadParameter, q.name)
    case NoInterface(i) => Refuse(UnknownInterface, i)
    case NoMethod(m) => Refuse(UnknownMethod, m)
    case NoCallback(m) => Refuse(Unimplemented, m)
    case Calls(GetInfo) => DoReply(Some(Info(v)), 0)
    case Calls(GetInterfaceDescription) => Describe(v, AskedAbout(q))
  }

  function Respond(v: Service, q: Message.Call): Plan {
    if ByLibrary(v, q) then AnswerWith(OwnAnswer(v, q)) else Find(v, q.name).callback.act(q)
  }

  /** The method handler of a service. */
  function Dispatcher(v: Service): Message.Call -> Plan {
    (q: Message.Call) => Respond(v, q)
  }

  // ---------------------------------------------------------------- adding interfaces

  /** The callbacks with those of some methods; the last one of a method counts. */
  function Registered(callbacks: map<(string, string), MethodCallback>, i: string,
      methods: seq<(string, Message.Call -> Plan)>): map<(string, string), MethodCallback> {
    if methods == [] then callbacks
    else
      var last := methods[|methods|-1];
      Registered(callbacks, i, methods[..|methods|-1])[(i, last.0) := User(last.1)]
  }

  /** An interface is added when its description is accepted, all methods are declared there and its name is new. */
  function Added(v: Service, description: string, methods: seq<(string, Message.Call -> Plan)>): (Outcome, Service) {
    match Idl.ReadInterface(description)
    case None => (InvalidInterface, v)
    case Some(i) =>
      if exists k :: 0 <= k < |methods| && !IsMethod(i.members, methods[k].0) then (MethodNotFound, v)
      else if i.name in v.directory then (InvalidInterface, v)
      else
        (Success, v.(names := Ordered.Insert(NAMES, v.names, i.name), directory := v.directory[i.name := i],
                     callbacks := Registered(v.callbacks, i.name, methods)))
  }

  ghost predicate Has(v: Service, i: string, m: string, callback: MethodCallback) {
    (i, m) in v.callbacks && v.callbacks[(i, m)] == callback
  }

  /** An interface is found under its own name, and can be described. */
  ghost predicate Kept(v: Service, n: string)
    requires n in v.directory
  {
    v.directory[n].name == n && IdlRoundTrip.GoodInterface(v.directory[n])
  }

  /** What holds of every service: its own interface is there, and callbacks belong to methods that are declared. */
  ghost predicate Complete(v: Service) {
    && SERVICE in v.directory && v.directory[SERVICE] == ServiceInterface()
    && Ordered.Sorted(NAMES, v.names) && (forall n :: n in v.names <==> n in v.directory)
    && (forall n <- v.directory :: Idl.InterfaceName(n) && Kept(v, n))
    && Has(v, SERVICE, "GetInfo", GetInfo) && Has(v, SERVICE, "GetInterfaceDescription", GetInterfaceDescription)
    && (forall c <- v.callbacks :: c.0 in v.directory && IsMethod(v.directory[c.0].members, c.1))
  }

  lemma {:induction false} KindAt(members: seq<Idl.Member>, k: nat)
    requires k < |members| && forall i :: 0 <= i < k ==> members[i].name != members[k].name
    ensures Directories.KindOf(members, members[k].name) == Some(members[k].kind)
  {
    if k > 0 {
      KindAt(members[1..], k - 1);
    }
  }

  lemma OwnMembers(e: OwnError)
    ensures var kind := Directories.KindOf(ServiceInterface().members, NameOf(e)); kind.Some? && kind.value.ErrorOf?
  {
    hide Fields;
    KindAt(ServiceInterface().members,
      match e case UnknownInterface => 2 case UnknownMethod => 3 case Unimplemented => 4 case BadParameter => 5);
  }

  lemma OwnMethods()
    ensures IsMethod(ServiceInterface().members, "GetInfo")
    ensures IsMethod(ServiceInterface().members, "GetInterfaceDescription")
  {
    hide Fields;
    KindAt(ServiceInterface().members, 0);
    KindAt(ServiceInterface().members, 1);
  }

  lemma NewIsComplete(about: Description)
    ensures Complete(NewService(about))
  {
    hide ServiceInterface, IsMethod, IdlRoundTrip.GoodInterface, Idl.InterfaceName;
    OwnMethods();
    OwnNameIsGood();
    OwnInterfaceIsGood();
  }

  lemma OwnNameIsGood()
    ensures Idl.InterfaceName(SERVICE)
  {
    assert SERVICE[3] == '.';
  }

  lemma OwnInterfaceIsGood()
    ensures ServiceInterface().name == SERVICE && IdlRoundTrip.GoodInterface(ServiceInterface())
  {
    hide IdlRoundTrip.GoodMember, OwnMethod, ErrorMember, IdlReferences.NeededBy, Idl.InterfaceName, Fields, NameOf;
    var ms := ServiceInterface().members;
    OwnNameIsGood();
    OwnMethodsAreGood();
    OwnErrorsAreGood();
    assert forall k :: 0 <= k < |ms| ==> IdlRoundTrip.GoodMember(ms[k]) && IdlReferences.NeededBy(ms[k].kind) == {};
    OwnNamesDiffer();
  }

  lemma OwnNamesDiffer()
    ensures var ms := ServiceInterface().members;
      forall j, k :: 0 <= j < k < |ms| ==> ms[j].name != ms[k].name
  {
    hide Fields;
  }

  lemma OwnErrorsAreGood()
    ensures forall e :: IdlRoundTrip.GoodMember(ErrorMember(e)) && IdlReferences.NeededBy(ErrorMember(e).kind) == {}
  {
    hide IdlRoundTrip.GoodType, IdlReferences.Needed, Fields, FieldOf, NameOf, Idl.MemberName;
    forall e ensures IdlRoundTrip.GoodMember(ErrorMember(e)) && IdlReferences.NeededBy(ErrorMember(e).kind) == {} {
      ErrorNames(e);
      FieldsAreGood([FieldOf(e)]);
    }
  }

  lemma ErrorNames(e: OwnError)
    ensures Idl.MemberName(NameOf(e)) && Idl.FieldName(FieldOf(e))
  {
  }

  lemma OwnMethodsAreGood()
    ensures var ms := ServiceInterface().members;
      forall k :: 0 <= k < 2 ==> IdlRoundTrip.GoodMember(ms[k]) && IdlReferences.NeededBy(ms[k].kind) == {}
  {
    hide IdlRoundTrip.GoodType, IdlReferences.Needed, ErrorMember, Fields, Idl.MemberName, Idl.FieldName;
    OwnFieldNames();
    FieldsAreGood([]);
    FieldsAreGood(["interface"]);
    FieldsAreGood(["description"]);
    InfoTypeIsGood();
  }

  lemma OwnFieldNames()
    ensures Idl.MemberName("GetInfo") && Idl.MemberName("GetInterfaceDescription")
    ensures Idl.FieldName("interface") && Idl.FieldName("description") && Idl.FieldName("interfaces")
    ensures forall n <- ["vendor", "product", "version", "url"] :: Idl.FieldName(n)
  {
  }

  lemma InfoTypeIsGood()
    ensures var ty := Idl.Record(false, Fields(["vendor", "product", "version", "url"]).fields
                + [Idl.TypeField("interfaces", Some(Idl.Array(Idl.String)), None)]);
      IdlRoundTrip.GoodType(ty) && IdlReferences.Needed(ty) == {}
  {
    hide IdlRoundTrip.GoodType, IdlReferences.Needed, Idl.FieldName;
    OwnFieldNames();
    var names := ["vendor", "product", "version", "url"];
    var fields := Fields(names).fields + [Idl.TypeField("interfaces", Some(Idl.Array(Idl.String)), None)];
    assert forall i :: 0 <= i < 4 ==> fields[i].name == names[i] && names[i] in names;
    SimpleIsGood(fields);
  }

  lemma FieldsAreGood(names: seq<string>)
    requires |names| <= 1 && forall n <- names :: Idl.FieldName(n)
    ensures IdlRoundTrip.GoodType(Fields(names)) && IdlReferences.Needed(Fields(names)) == {}
    ensures IdlRoundTrip.IsObject(Fields(names))
  {
    hide IdlRoundTrip.GoodType, IdlReferences.Needed, Idl.FieldName;
    SimpleIsGood(Fields(names).fields);
  }

  predicate Simple(f: Idl.TypeField) {
    Idl.FieldName(f.name) && f.doc.None? && (f.typ == Some(Idl.String) || f.typ == Some(Idl.Array(Idl.String)))
  }

  lemma SimpleIsGood(fields: seq<Idl.TypeField>)
    requires forall i :: 0 <= i < |fields| ==> Simple(fields[i])
    requires forall i, j :: 0 <= i < j < |fields| ==> fields[i].name != fields[j].name
    ensures IdlRoundTrip.GoodType(Idl.Record(false, fields))
    ensures IdlReferences.Needed(Idl.Record(false, fields)) == {}
  {
    hide Idl.FieldName, IdlReferences.NeededFields;
    forall i | 0 <= i < |fields| ensures IdlRoundTrip.GoodField(fields[i], false) {
      assert Simple(fields[i]);
    }
    SimpleNeedsNothing(fields);
  }

  lemma {:induction false} SimpleNeedsNothing(fields: seq<Idl.TypeField>)
    requires forall i :: 0 <= i < |fields| ==> Simple(fields[i])
    ensures IdlReferences.NeededFields(fields) == {}
  {
    hide Idl.FieldName;
    if fields != [] {
      assert Simple(fields[0]);
      SimpleNeedsNothing(fields[1..]);
    }
  }

  lemma InterfaceNamePlain(n: string)
    requires Idl.InterfaceName(n)
    ensures NulFree(n) && forall c <- ":#?/" :: c !in n
  {
    forall i | 0 <= i < |n| ensures n[i] != '\0' && n[i] !in ":#?/" {
      assert Idl.InterfaceChar(n, i);
    }
  }

  lemma MemberNamePlain(m: string)
    requires Idl.MemberName(m)
    ensures '.' !in m && forall c <- ":#?/" :: c !in m
  {
  }

  lemma {:induction false} RegisteredAt(callbacks: map<(string, string), MethodCallback>, i: string,
      methods: seq<(string, Message.Call -> Plan)>, c: (string, string))
    ensures var all := Registered(callbacks, i, methods);
      c in all <==> c in callbacks || (c.0 == i && exists k :: 0 <= k < |methods| && methods[k].0 == c.1)
    ensures var all := Registered(callbacks, i, methods);
      c in callbacks && c.0 != i ==> all[c] == callbacks[c]
  {
    if methods != [] {
      var front := methods[..|methods|-1];
      RegisteredAt(callbacks, i, front, c);
      if k :| 0 <= k < |methods| && methods[k].0 == c.1 {
        assert k < |front| ==> front[k] == methods[k];
      }
      if k :| 0 <= k < |front| && front[k].0 == c.1 {
        assert methods[k] == front[k];
      }
    }
  }

  lemma NameInserted(names: seq<string>, n: string)
    requires Ordered.Sorted(NAMES, names) && n !in names
    ensures Ordered.Sorted(NAMES, Ordered.Insert(NAMES, names, n))
    ensures forall x :: x in Ordered.Insert(NAMES, names, n) <==> x in names || x == n
  {
    hide Ordered.Sorted, Ordered.Lawful, Ordered.Rank, StrCmp;
    Names.ByNameLawful((x: string) => x);
    Ordered.HasIff(NAMES, names, n);
    Ordered.InsertSorted(NAMES, names, n);
    var r := Ordered.Rank(NAMES, names, n);
    assert names == names[..r] + names[r..];
  }

  /** Adding an interface keeps a service complete. */
  lemma AddedIsComplete(v: Service, description: string, methods: seq<(string, Message.Call -> Plan)>)
    requires Complete(v)
    ensures Complete(Added(v, description, methods).1)
  {
    hide Idl.ReadInterface, Idl.InterfaceName, Registered, IsMethod, Ordered.Insert, Ordered.Sorted, ServiceInterface;
    var (r, t) := Added(v, description, methods);
    if r.Success? {
      var i := Idl.ReadInterface(description).value;
      IdlSound.AcceptedInterfaceIsGood(description);
      NameInserted(v.names, i.name);
      forall c | c in t.callbacks ensures c.0 in t.directory && IsMethod(t.directory[c.0].members, c.1) {
        RegisteredAt(v.callbacks, i.name, methods, c);
      }
      RegisteredAt(v.callbacks, i.name, methods, (SERVICE, "GetInfo"));
      RegisteredAt(v.callbacks, i.name, methods, (SERVICE, "GetInterfaceDescription"));
    }
  }

  /** The last of some methods with a name. */
  function LastOf(methods: seq<(string, Message.Call -> Plan)>, name: string): Option<Message.Call -> Plan> {
    if methods == [] then None
    else if methods[|methods|-1].0 == name then Some(methods[|methods|-1].1)
    else LastOf(methods[..|methods|-1], name)
  }

  lemma {:induction false} RegisteredLast(callbacks: map<(string, string), MethodCallback>, i: string,
      methods: seq<(string, Message.Call -> Plan)>, m: string)
    requires (i, m) !in callbacks
    ensures var all, last := Registered(callbacks, i, methods), LastOf(methods, m);
      ((i, m) in all <==> last.Some?) && ((i, m) in all ==> all[(i, m)] == User(last.value))
  {
    if methods != [] {
      RegisteredLast(callbacks, i, methods[..|methods|-1], m);
    }
  }

  /** What calls come to once an interface has been added: a call to a method of it is given to the callback that was
      registered for it; every other call goes where it went before. */
  lemma AddedFinds(v: Service, description: string, methods: seq<(string, Message.Call -> Plan)>, name: string)
    requires Complete(v) && Added(v, description, methods).0.Success?
    ensures var i, t, id := Idl.ReadInterface(description).value, Added(v, description, methods).1, Identify(name);
      if id.Rejected? || id.interfaceName != i.name then Find(t, name) == Find(v, name)
      else
        var last := LastOf(methods, id.member);
        && Find(v, name) == NoInterface(i.name)
        && Find(t, name) == if !IsMethod(i.members, id.member) then NoMethod(id.member)
                            else if last.None? then NoCallback(id.member) else Calls(User(last.value))
  {
    hide Idl.ReadInterface, Idl.InterfaceName, Registered, IsMethod, Ordered.Insert, Ordered.Sorted, ServiceInterface,
      Identify, LastOf;
    var i, id := Idl.ReadInterface(description).value, Identify(name);
    if id.Named? && id.interfaceName == i.name {
      RegisteredLast(v.callbacks, i.name, methods, id.member);
    } else if id.Named? {
      RegisteredAt(v.callbacks, i.name, methods, (id.interfaceName, id.member));
    }
  }

  /** The names under which the methods of an accepted interface are called. */
  lemma MethodIsIdentified(description: string, k: nat)
    requires Idl.ReadInterface(description).Some? && k < |Idl.ReadInterface(description).value.members|
    ensures var i := Idl.ReadInterface(description).value;
      Identify(i.name + "." + i.members[k].name) == Named(i.name, i.members[k].name)
  {
    hide Idl.ReadInterface, Idl.InterfaceName, Idl.MemberName, Identify, IdlRoundTrip.GoodKind, IdlRoundTrip.GoodDoc;
    var i := Idl.ReadInterface(description).value;
    IdlSound.AcceptedInterfaceIsGood(description);
    InterfaceNamePlain(i.name);
    MemberNamePlain(i.members[k].name);
    PlainName(i.name, i.members[k].name);
  }

  // ---------------------------------------------------------------- what the library answers by itself

  /** The method called is declared and implemented; and a call to describe an interface names one that is there. */
  predicate Served(v: Service, q: Message.Call) {
    var f := Find(v, q.name);
    && f.Calls?
    && (f.callback.GetInterfaceDescription? ==> AskedAbout(q).Some? && AskedAbout(q).value in v.directory)
  }

  /** The library's own answer is an error exactly when the call cannot be served. The error is refused exactly when the
      name of the method is malformed. */
  lemma ErrorIffNotServed(v: Service, q: Message.Call)
    requires Complete(v) && ByLibrary(v, q)
    ensures OwnAnswer(v, q).DoError? <==> !Served(v, q)
    ensures Checked(v.directory, q.name, OwnAnswer(v, q)).Success? <==> !Find(v, q.name).BadName?
  {
    hide Identify, Info, ServiceInterface, Ordered.Sorted, Ordered.Insert, Idl.PrintInterface, OneString, IsMethod,
      AskedAbout, Idl.InterfaceName;
    if !Served(v, q) {
      var e := match Find(v, q.name)
        case BadName => BadParameter
        case NoInterface(_) => UnknownInterface
        case NoMethod(_) => UnknownMethod
        case NoCallback(_) => Unimplemented
        case Calls(_) => if AskedAbout(q).None? then BadParameter else UnknownInterface;
      OwnErrorPasses(v, q.name, e);
      assert OwnAnswer(v, q).DoError? && OwnAnswer(v, q).error == FullName(e);
    }
  }

  lemma OwnErrorPasses(v: Service, name: string, e: OwnError)
    requires Complete(v)
    ensures ErrorCheck(v.directory, FullName(e), name).Success? <==> Identify(name).Named?
  {
    hide Identify, ServiceInterface, Ordered.Sorted, IsMethod, Idl.InterfaceName;
    OwnNames(e);
    OwnMembers(e);
    assert ServiceInterface().members == v.directory[SERVICE].members;
  }

  /** `GetInfo` lists the interfaces of the service, each once and in the order of `strcmp`. */
  lemma InfoListsInterfaces(v: Service)
    requires Complete(v)
    ensures var listed := FieldNamed(Info(v), "interfaces");
      && listed == Some(Arr(seq(|v.names|, k requires 0 <= k < |v.names| => Str(v.names[k]))))
      && Ordered.Sorted(NAMES, v.names) && forall n :: n in v.names <==> n in v.directory
  {
    hide Ordered.Sorted, FieldNamed, Idl.InterfaceName, ServiceInterface, Info, UpToNul;
    InterfacesLast(v);
    forall k | 0 <= k < |v.names| ensures UpToNul(v.names[k]) == v.names[k] {
      assert v.names[k] in v.directory;
      InterfaceNamePlain(v.names[k]);
    }
    var es := seq(|v.names|, k requires 0 <= k < |v.names| => Str(v.names[k]));
    assert InterfacesField(v).value.elements == es;
  }

  lemma InterfacesLast(v: Service)
    ensures FieldNamed(Info(v), "interfaces") == Some(InterfacesField(v).value)
  {
    hide Ordered.Sorted, WithField, FieldNamed, IfGiven, InterfacesField;
    var es := InfoFields(v);
    var front := es[..|es|-1];
    assert es[|es|-1] == InterfacesField(v) && InterfacesField(v).name == "interfaces" by {
      NamedInterfaces(v);
    }
    SetAllFrom(front);
    WithFieldReads(SetAll(front), "interfaces", InterfacesField(v).value, "interfaces");
  }

  lemma NamedInterfaces(v: Service)
    ensures InterfacesField(v).name == "interfaces"
  {
  }

  // ---------------------------------------------------------------- the service as an object

  class VarlinkService {
    const about: Description
    var names: seq<string>
    var directory: Directory
    var callbacks: map<(string, string), MethodCallback>

    ghost function Now(): Service
      reads this
    {
      Service(about, names, directory, callbacks)
    }

    constructor (about: Description)
      ensures Now() == NewService(about) && Complete(Now())
    {
      hide Complete, ServiceInterface;
      this.about := about;
      names, directory := [SERVICE], map[SERVICE := ServiceInterface()];
      callbacks := map[
          (SERVICE, "GetInfo") := GetInfo, (SERVICE, "GetInterfaceDescription") := GetInterfaceDescription];
      new;
      NewIsComplete(about);
    }

    /** Adds an interface with callbacks for some of its methods. */
    method AddInterface(description: string, methods: seq<(string, Message.Call -> Plan)>) returns (r: Outcome)
      requires Utf8.AllBytes(description) && Complete(Now())
      modifies this
      ensures (r, Now()) == Added(old(Now()), description, methods) && Complete(Now())
    {
      hide Complete, Idl.ReadInterface, IsMethod;
      AddedIsComplete(Now(), description, methods);
      var i := IdlReader.NewInterface(description);
      if i.None? {
        return InvalidInterface;
      }
      var all, k := callbacks, 0;
      while k < |methods|
        invariant k <= |methods| && all == Registered(callbacks, i.value.name, methods[..k])
        invariant forall j :: 0 <= j < k ==> IsMethod(i.value.members, methods[j].0)
      {
        if !IsMethod(i.value.members, methods[k].0) {
          return MethodNotFound;
        }
        assert methods[..k+1][..k] == methods[..k];
        all := all[(i.value.name, methods[k].0) := User(methods[k].1)];
        k := k + 1;
      }
      assert methods[..k] == methods;
      if i.value.name in directory {
        return InvalidInterface;
      }
      names := Ordered.Insert(NAMES, names, i.value.name);
      directory, callbacks := directory[i.value.name := i.value], all;
      return Success;
    }
  }
}
