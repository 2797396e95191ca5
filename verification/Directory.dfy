/** The interfaces of a service, and what may be sent as an error (lib/service.c, lib/interface.c). */
module Directories {
  import opened Errors
  import opened Text
  import opened Uris
  import Idl

  /** Interfaces by name. */
  type Directory = map<string, Idl.Interface>

  const SERVICE: string := "org.varlink.service"

  function KindOf(members: seq<Idl.Member>, name: string): Option<Idl.MemberKind> {
    if members == [] then None
    else if members[0].name == name then Some(members[0].kind)
    else KindOf(members[1..], name)
  }

  function Declared(d: Directory, interfaceName: string, member: string): Option<Idl.MemberKind> {
    if interfaceName in d then KindOf(d[interfaceName].members, member) else None
  }

  /** An error must be declared, by the interface of the method called or by that of the service itself. */
  function ErrorCheck(d: Directory, error: string, name: string): Outcome {
    match Identify(error)
    case Rejected(e) => e
    case Named(i, m) =>
      var kind := Declared(d, i, m);
      if kind.None? || !kind.value.ErrorOf? then InvalidIdentifier
      else
        match Identify(name)
        case Rejected(e) => e
        case Named(j, _) => if i != SERVICE && i != j then InvalidIdentifier else Success
  }

  /** An error of an interface may be sent in answer to a method of the same interface; one of the service itself in
      answer to any; and none otherwise. */
  lemma ErrorMayBeSent(d: Directory, i: string, error: string, j: string, method_: string)
    requires PlainIdentifier(i) && PlainIdentifier(error) && '.' !in error
    requires PlainIdentifier(j) && PlainIdentifier(method_) && '.' !in method_
    ensures ErrorCheck(d, i + "." + error, j + "." + method_).Success? <==>
      && i in d && (exists k :: 0 <= k < |d[i].members| && IsError(d[i].members, k, error))
      && (i == j || i == "org.varlink.service")
  {
    hide Identify;
    PlainName(i, error);
    PlainName(j, method_);
    if i in d {
      KindIsFirst(d[i].members, error);
    }
  }

  predicate PlainIdentifier(s: string) {
    ':' !in s && '#' !in s && '?' !in s && '/' !in s
  }

  /** The first member of that name is an error. */
  predicate IsError(members: seq<Idl.Member>, k: nat, name: string)
    requires k < |members|
  {
    members[k].name == name && members[k].kind.ErrorOf? && forall i :: 0 <= i < k ==> members[i].name != name
  }

  lemma {:induction false} KindIsFirst(members: seq<Idl.Member>, name: string)
    ensures var kind := KindOf(members, name);
      kind.Some? && kind.value.ErrorOf? <==> exists k :: 0 <= k < |members| && IsError(members, k, name)
  {
    if members != [] && members[0].name != name {
      var rest := members[1..];
      KindIsFirst(rest, name);
      if k :| 0 <= k < |rest| && IsError(rest, k, name) {
        assert IsError(members, k + 1, name) by {
          assert forall i :: 0 < i < k + 1 ==> members[i] == rest[i - 1];
        }
      }
      if k :| 0 <= k < |members| && IsError(members, k, name) {
        assert k > 0 && IsError(rest, k - 1, name) by {
          assert forall i :: 0 <= i < k - 1 ==> rest[i] == members[i + 1];
        }
      }
    } else if members != [] {
      assert KindOf(members, name) == Some(members[0].kind);
      if members[0].kind.ErrorOf? {
        assert IsError(members, 0, name);
      }
    }
  }
}
