/** What clients get to see of a service: what it tells about itself, and which error they get for which call
    (lib/service.c). */
module Information {
  import opened Text
  import opened Json
  import opened Containers
  import opened Message
  import opened Uris
  import opened Directories
  import opened Services
  import opened Dispatching
  import Idl
  import IdlReferences
  import IdlRoundTrip
  import IdlText
  import Ordered

  // ---------------------------------------------------------------- about the service

  function Told(s: Option<CString>): Option<Value> {
    if s.Some? then Some(Str(s.value)) else None
  }

  /** Every string that a service was given is told under its own name, and none that it was not. */
  lemma InfoTells(v: Service)
    ensures FieldNamed(Info(v), "vendor") == Told(v.about.vendor)
    ensures FieldNamed(Info(v), "product") == Told(v.about.product)
    ensures FieldNamed(Info(v), "version") == Told(v.about.version)
    ensures FieldNamed(Info(v), "url") == Told(v.about.url)
    ensures forall x <- Info(v) :: x.name in ["vendor", "product", "version", "url", "interfaces"]
  {
    hide FieldNamed, IfGiven, Told, SetAll;
    InfoRead(v, "vendor");
    InfoRead(v, "product");
    InfoRead(v, "version");
    InfoRead(v, "url");
    SetAllFrom(InfoFields(v));
    NamesGiven(v);
  }

  lemma NamesGiven(v: Service)
    ensures forall x <- InfoFields(v) :: x.name in ["vendor", "product", "version", "url", "interfaces"]
  {
    hide InterfacesField;
    NamedInterfaces(v);
    var a := v.about;
    forall x <- InfoFields(v) ensures x.name in ["vendor", "product", "version", "url", "interfaces"] {
      assert x in IfGiven("vendor", a.vendor) || x in IfGiven("product", a.product)
        || x in IfGiven("version", a.version) || x in IfGiven("url", a.url) || x == InterfacesField(v);
    }
  }

  /** A field behind others is the one that is found, if it has the name. */
  lemma ReadBehind(es: seq<Field>, more: seq<Field>, name: string)
    requires |more| <= 1
    ensures FieldNamed(SetAll(es + more), name) ==
      if more != [] && more[0].name == name then Some(more[0].value) else FieldNamed(SetAll(es), name)
  {
    hide FieldNamed, WithField, SetAll, Ordered.Sorted;
    SetMore(es, more);
    SetAllFrom(es);
    if more != [] {
      WithFieldReads(SetAll(es), more[0].name, more[0].value, name);
    }
  }

  lemma GivenReads(es: seq<Field>, n: string, s: Option<CString>, name: string)
    ensures FieldNamed(SetAll(es + IfGiven(n, s)), name) ==
      if n == name && s.Some? then Told(s) else FieldNamed(SetAll(es), name)
  {
    hide FieldNamed, SetAll;
    ReadBehind(es, IfGiven(n, s), name);
  }

  lemma InfoRead(v: Service, name: string)
    ensures FieldNamed(Info(v), name) ==
      if name == "interfaces" then Some(InterfacesField(v).value)
      else if name == "url" then Told(v.about.url)
      else if name == "version" then Told(v.about.version)
      else if name == "product" then Told(v.about.product)
      else if name == "vendor" then Told(v.about.vendor) else None
  {
    hide FieldNamed, SetAll, IfGiven, InterfacesField;
    var a := v.about;
    var vendor := IfGiven("vendor", a.vendor);
    var product := vendor + IfGiven("product", a.product);
    var version := product + IfGiven("version", a.version);
    var url := version + IfGiven("url", a.url);
    NamedInterfaces(v);
    assert [] + vendor == vendor;
    NothingNamed(name);
    GivenReads([], "vendor", a.vendor, name);
    GivenReads(vendor, "product", a.product, name);
    GivenReads(product, "version", a.version, name);
    GivenReads(version, "url", a.url, name);
    ReadBehind(url, [InterfacesField(v)], name);
    NotTold(a);
  }

  lemma NotTold(a: Description)
    ensures a.vendor.None? ==> Told(a.vendor) == None
    ensures a.product.None? ==> Told(a.product) == None
    ensures a.version.None? ==> Told(a.version) == None
    ensures a.url.None? ==> Told(a.url) == None
  {
  }

  lemma NothingNamed(name: string)
    ensures FieldNamed(SetAll([]), name) == None
  {
  }

  // ---------------------------------------------------------------- which error

  /** An error with one parameter. */
  ghost predicate IsRefusal(a: Answer, error: string, parameter: string, s: string) {
    a.DoError? && a.error == error && a.parameters == Some([Field(parameter, Str(s))])
  }

  predicate Declares(i: Idl.Interface, m: string) {
    exists x <- i.members :: x.name == m && x.kind.MethodOf?
  }

  lemma {:induction false} MethodIsDeclared(members: seq<Idl.Member>, m: string)
    requires forall j, k :: 0 <= j < k < |members| ==> members[j].name != members[k].name
    ensures IsMethod(members, m) <==> exists x <- members :: x.name == m && x.kind.MethodOf?
  {
    if members != [] {
      MethodIsDeclared(members[1..], m);
      if members[0].name == m {
        assert forall k :: 0 < k < |members| ==> members[k].name != m;
      } else {
        assert members == [members[0]] + members[1..];
      }
    }
  }

  /** A call to a method of an interface that is not there, that is not declared, or that has no callback. */
  lemma RefusedWith(v: Service, q: Message.Call, i: CString, m: CString)
    requires Complete(v) && PlainIdentifier(i) && PlainIdentifier(m) && '.' !in m && q.name == i + "." + m
    ensures i !in v.directory ==>
      ByLibrary(v, q) && IsRefusal(OwnAnswer(v, q), "org.varlink.service.InterfaceNotFound", "interface", i)
    ensures i in v.directory && !Declares(v.directory[i], m) ==>
      ByLibrary(v, q) && IsRefusal(OwnAnswer(v, q), "org.varlink.service.MethodNotFound", "method", m)
    ensures i in v.directory && Declares(v.directory[i], m) && (i, m) !in v.callbacks ==>
      ByLibrary(v, q) && IsRefusal(OwnAnswer(v, q), "org.varlink.service.MethodNotImplemented", "method", m)
    ensures i in v.directory && Declares(v.directory[i], m) && (i, m) in v.callbacks ==>
      Find(v, q.name) == Calls(v.callbacks[(i, m)])
  {
    hide Identify, IsMethod, Info, Describe, Refuse, Ordered.Sorted, ServiceInterface, Idl.InterfaceName,
      AskedAbout, IdlRoundTrip.GoodMember;
    PlainName(i, m);
    RefusalIs(UnknownInterface, i);
    RefusalIs(UnknownMethod, m);
    RefusalIs(Unimplemented, m);
    if i in v.directory {
      MethodIsDeclared(v.directory[i].members, m);
    }
  }

  lemma RefusalIs(e: OwnError, s: CString)
    ensures e.UnknownInterface? ==>
      IsRefusal(Refuse(e, s), "org.varlink.service.InterfaceNotFound", "interface", s)
    ensures e.UnknownMethod? ==> IsRefusal(Refuse(e, s), "org.varlink.service.MethodNotFound", "method", s)
    ensures e.Unimplemented? ==> IsRefusal(Refuse(e, s), "org.varlink.service.MethodNotImplemented", "method", s)
    ensures e.BadParameter? ==> IsRefusal(Refuse(e, s), "org.varlink.service.InvalidParameter", "parameter", s)
  {
    hide FullName, UpToNul, FieldOf;
    FullNames();
    Parameter(e);
    assert OneString(FieldOf(e), s) == [Field(FieldOf(e), Str(s))];
  }

  lemma Parameter(e: OwnError)
    ensures FieldOf(e) ==
      if e.UnknownInterface? then "interface" else if e.BadParameter? then "parameter" else "method"
  {
  }

  lemma FullNames()
    ensures FullName(UnknownInterface) == "org.varlink.service.InterfaceNotFound"
    ensures FullName(UnknownMethod) == "org.varlink.service.MethodNotFound"
    ensures FullName(Unimplemented) == "org.varlink.service.MethodNotImplemented"
    ensures FullName(BadParameter) == "org.varlink.service.InvalidParameter"
  {
    MethodErrorNames();
    OtherErrorNames();
  }

  lemma MethodErrorNames()
    ensures FullName(UnknownMethod) == "org.varlink.service.MethodNotFound"
    ensures FullName(Unimplemented) == "org.varlink.service.MethodNotImplemented"
  {
  }

  lemma OtherErrorNames()
    ensures FullName(UnknownInterface) == "org.varlink.service.InterfaceNotFound"
    ensures FullName(BadParameter) == "org.varlink.service.InvalidParameter"
  {
  }

  // ---------------------------------------------------------------- describing an interface

  /** The service's own methods are found under their full names. */
  lemma OwnMethodsFound(v: Service)
    requires Complete(v)
    ensures Find(v, "org.varlink.service.GetInfo") == Calls(GetInfo)
    ensures Find(v, "org.varlink.service.GetInterfaceDescription") == Calls(GetInterfaceDescription)
  {
    hide Identify, Idl.InterfaceName, ServiceInterface, IsMethod, Ordered.Sorted;
    OwnMethods();
    OwnMethodName("GetInfo");
    OwnMethodName("GetInterfaceDescription");
  }

  lemma OwnMethodName(m: string)
    requires m in {"GetInfo", "GetInterfaceDescription"}
    ensures m == "GetInfo" ==> Identify("org.varlink.service.GetInfo") == Named(SERVICE, m)
    ensures m == "GetInterfaceDescription" ==>
      Identify("org.varlink.service.GetInterfaceDescription") == Named(SERVICE, m)
  {
    hide Identify;
    PlainService();
    PlainOwnMethod(m);
    PlainName(SERVICE, m);
    FullMethodNames();
  }

  lemma FullMethodNames()
    ensures SERVICE + "." + "GetInfo" == "org.varlink.service.GetInfo"
    ensures SERVICE + "." + "GetInterfaceDescription" == "org.varlink.service.GetInterfaceDescription"
  {
  }

  lemma PlainOwnMethod(m: string)
    requires m in {"GetInfo", "GetInterfaceDescription"}
    ensures '.' !in m && forall c <- ":#?/" :: c !in m
  {
  }

  lemma ReadBack(v: Service, i: string)
    requires Complete(v) && i in v.directory
    ensures var x, text := v.directory[i], Idl.PrintInterface(v.directory[i], -1);
      && x.name == i && NulFree(text)
      && Idl.ReadInterface(text) == Some(Idl.Interface(x.name, x.doc, IdlRoundTrip.ExpectedMembers(x.members, false)))
  {
    hide Ordered.Sorted, ServiceInterface, Idl.InterfaceName, Idl.ReadInterface, Idl.PrintInterface,
      IdlRoundTrip.Writable, IdlReferences.AllDefined, IdlRoundTrip.ExpectedMembers;
    IdlText.InterfaceNulFree(v.directory[i], -1);
    IdlRoundTrip.InterfaceRoundTrip(v.directory[i], -1);
  }

  /** A call for the description of an interface is answered with a text from which this very interface is read again,
      but for the documentation of its fields; and one that names no interface, or none that is there, with an error
      that says so. */
  lemma DescribesTheInterface(v: Service, q: Message.Call) returns (text: string)
    requires Complete(v) && q.name == "org.varlink.service.GetInterfaceDescription"
    requires AskedAbout(q).Some? ==> NulFree(AskedAbout(q).value)
    ensures ByLibrary(v, q)
    ensures var a, i := OwnAnswer(v, q), AskedAbout(q);
      if i.None? then IsRefusal(a, "org.varlink.service.InvalidParameter", "parameter", "interface")
      else if i.value !in v.directory then
        IsRefusal(a, "org.varlink.service.InterfaceNotFound", "interface", i.value)
      else
        && a == DoReply(a.parameters, 0) && a.parameters == Some([Field("description", Str(text))])
        && var x := v.directory[i.value];
           x.name == i.value
           && Idl.ReadInterface(text) ==
                Some(Idl.Interface(x.name, x.doc, IdlRoundTrip.ExpectedMembers(x.members, false)))
  {
    hide Find, Refuse, Complete, AskedAbout, Idl.ReadInterface, Idl.PrintInterface, IdlRoundTrip.ExpectedMembers;
    text := "";
    OwnMethodsFound(v);
    var i := AskedAbout(q);
    if i.None? {
      RefusalIs(BadParameter, "interface");
    } else if i.value !in v.directory {
      RefusalIs(UnknownInterface, i.value);
    } else {
      text := Idl.PrintInterface(v.directory[i.value], -1);
      ReadBack(v, i.value);
    }
  }

  /** A call for information is answered with it. */
  lemma TellsInfo(v: Service, q: Message.Call)
    requires Complete(v) && q.name == "org.varlink.service.GetInfo"
    ensures ByLibrary(v, q) && OwnAnswer(v, q) == DoReply(Some(Info(v)), 0)
  {
    hide Find, Info, Complete, Refuse, Describe;
    OwnMethodsFound(v);
  }
}
