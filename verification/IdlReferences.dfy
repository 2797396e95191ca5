/** The types that an interface refers to, and where they are defined (lib/interface.c). */
module IdlReferences {
  import opened Idl

  /** The aliases in a type, but for those in types that may be missing. */
  function Needed(ty: Type): set<string> {
    match ty
    case Array(e) => Needed(e)
    case Map(e) => Needed(e)
    case Alias(name) => {name}
    case Record(isEnum, fields) => if isEnum then {} else NeededFields(fields)
    case _ => {}
  }

  function NeededFields(fields: seq<TypeField>): set<string> {
    if fields == [] then {}
    else (if fields[0].typ.Some? then Needed(fields[0].typ.value) else {}) + NeededFields(fields[1..])
  }

  /** The check of references looks up exactly the aliases outside of types that may be missing. */
  lemma {:induction false} ResolvesNeeded(members: seq<Member>, ty: Type)
    ensures TryResolve(members, ty) <==> forall name <- Needed(ty) :: Defines(members, name)
    decreases ty, 0
  {
    match ty
    case Array(e) => ResolvesNeeded(members, e);
    case Map(e) => ResolvesNeeded(members, e);
    case Alias(name) => DeclaredIsDefined(members, name);
    case Record(isEnum, fields) => if !isEnum { ResolvesNeededFields(members, fields); }
    case _ =>
  }

  lemma {:induction false} ResolvesNeededFields(members: seq<Member>, fields: seq<TypeField>)
    ensures (forall i :: 0 <= i < |fields| && fields[i].typ.Some? ==> TryResolve(members, fields[i].typ.value))
      <==> forall name <- NeededFields(fields) :: Defines(members, name)
    decreases fields, 1
  {
    hide Declared, TryResolve;
    if fields != [] {
      if fields[0].typ.Some? {
        ResolvesNeeded(members, fields[0].typ.value);
      }
      ResolvesNeededFields(members, fields[1..]);
      assert fields == [fields[0]] + fields[1..];
    }
  }

  /** There is a type of that name among the members. */
  predicate Defines(members: seq<Member>, name: string) {
    exists m <- members :: m.name == name && m.kind.AliasOf?
  }

  lemma DeclaredIsDefined(members: seq<Member>, name: string)
    ensures Declared(members, name) <==> Defines(members, name)
  {
    if m :| m in members && m.name == name && m.kind.AliasOf? {
      var i :| 0 <= i < |members| && members[i] == m;
    }
  }

  /** The aliases that a member needs: those in its type, or in its input and output. */
  function NeededBy(kind: MemberKind): set<string> {
    match kind
    case AliasOf(ty) => Needed(ty)
    case MethodOf(input, output) => Needed(input) + Needed(output)
    case ErrorOf(ty) => Needed(ty)
  }

  /** All types that the members refer to are there. */
  ghost predicate AllDefined(members: seq<Member>) {
    forall i, name :: 0 <= i < |members| && name in NeededBy(members[i].kind) ==> Defines(members, name)
  }

  lemma MemberNeeds(members: seq<Member>, kind: MemberKind)
    ensures ResolveKind(members, kind) <==> forall name <- NeededBy(kind) :: Defines(members, name)
  {
    hide TryResolve, Needed, Defines;
    match kind
    case AliasOf(ty) => ResolvesNeeded(members, ty);
    case MethodOf(input, output) =>
      ResolvesNeeded(members, input);
      ResolvesNeeded(members, output);
    case ErrorOf(ty) => ResolvesNeeded(members, ty);
  }

  /** The check of references succeeds exactly when all types that the members refer to are there. */
  lemma ResolvedIffDefined(members: seq<Member>)
    ensures AllResolved(members) <==> AllDefined(members)
  {
    hide ResolveKind, NeededBy, Defines;
    forall i | 0 <= i < |members|
      ensures ResolveKind(members, members[i].kind) <==>
        forall name <- NeededBy(members[i].kind) :: Defines(members, name)
    {
      MemberNeeds(members, members[i].kind);
    }
  }
}
