/** The mutable objects and arrays behind JSON values (lib/object.c, lib/array.c). */
module Containers {
  import opened Errors
  import opened Text
  import opened Json
  import opened JsonRoundTrip
  import JsonSound
  import opened AvlTrees
  import AvlShape
  import Ordered

  // ---------------------------------------------------------------- objects

  function FieldNamed(fs: seq<Field>, name: string): (v: Option<Value>)
  {
    var r := Ordered.Rank(FIELDS, fs, name);
    if Ordered.Has(FIELDS, fs, name) then Some(fs[r].value) else None
  }

  /** The fields once `name` holds `v`, whether or not it was there before. */
  function WithField(fs: seq<Field>, name: string, v: Value): seq<Field> {
    Ordered.Insert(FIELDS, Ordered.Remove(FIELDS, fs, name), Field(name, v))
  }

  class VarlinkObject {
    const fields: AvlTree<string, Field>
    var writable: bool

    ghost predicate Valid()
      reads this, fields, AvlShape.Nodes(fields.shape)
    {
      fields.Valid() && fields.order == FIELDS
    }

    /** The fields in the order of their names. */
    ghost function Fields(): seq<Field>
      reads this, fields
    {
      fields.Contents()
    }

    ghost function Repr(): set<object>
      reads this, fields
    {
      {this} + fields.Repr()
    }

    constructor ()
      ensures Valid() && fresh(Repr()) && Fields() == [] && writable
    {
      FieldsLawful();
      writable := true;
      var tree := new AvlTree<string, Field>(FIELDS);
      fields := tree;
    }

    /** Adds a field that is still undefined; a name that is present is an error. */
    method AddField(name: string) returns (ok: bool)
      requires Valid()
      modifies Repr()
      ensures Valid() && (forall o <- Repr() :: o in old(Repr()) || fresh(o)) && writable == old(writable)
      ensures ok == !Ordered.Has(FIELDS, old(Fields()), name)
      ensures Fields() == if ok then Ordered.Insert(FIELDS, old(Fields()), Field(name, Undefined)) else old(Fields())
      ensures ok ==> Ordered.Has(FIELDS, Fields(), name)
    {
      hide Ordered.Rank, Ordered.Sorted, Ordered.Lawful, Ordered.Has, Ordered.Insert;
      FieldsLawful();
      if !Ordered.Has(FIELDS, Fields(), name) {
        Ordered.RemoveInsert(FIELDS, Fields(), Field(name, Undefined));
      }
      var status := fields.Insert(name, Field(name, Undefined));
      ok := status.Done?;
    }

    /** Fills in the value of a field that is present. */
    method FillField(name: string, v: Value)
      requires Valid() && Ordered.Has(FIELDS, Fields(), name)
      modifies Repr()
      ensures Valid() && Repr() == old(Repr()) && writable == old(writable)
      ensures Ordered.Has(FIELDS, old(Fields()), name)
      ensures Fields() == Ordered.Replace(FIELDS, old(Fields()), Field(name, v))
    {
      fields.Replace(Field(name, v));
    }

    method RemoveField(name: string)
      requires Valid()
      modifies Repr()
      ensures Valid() && Repr() <= old(Repr()) && writable == old(writable)
      ensures Fields() == Ordered.Remove(FIELDS, old(Fields()), name)
      ensures !Ordered.Has(FIELDS, Fields(), name)
    {
      hide Ordered.Rank, Ordered.Sorted, Ordered.Lawful, Ordered.Has, Ordered.Remove;
      Ordered.RemoveSorted(FIELDS, Fields(), name);
      var _ := fields.Remove(name);
    }

    method SetNull(name: string) returns (r: Outcome)
      requires Valid()
      modifies Repr()
      ensures Valid() && (forall o <- Repr() :: o in old(Repr()) || fresh(o))
      ensures r == if old(writable) then Success else ReadOnly
      ensures Fields() == if r.Success? then Ordered.Remove(FIELDS, old(Fields()), name) else old(Fields())
    {
      if !writable {
        return ReadOnly;
      }
      RemoveField(name);
      r := Success;
    }

    /** Adds a field with its value. */
    method PutField(name: string, v: Value)
      requires Valid() && !Ordered.Has(FIELDS, Fields(), name)
      modifies Repr()
      ensures Valid() && (forall o <- Repr() :: o in old(Repr()) || fresh(o)) && writable == old(writable)
      ensures Fields() == Ordered.Insert(FIELDS, old(Fields()), Field(name, v))
    {
      hide Ordered.Rank, Ordered.Sorted, Ordered.Lawful, Ordered.Has, Ordered.Insert, Ordered.Replace;
      hide AvlTree.Valid, AvlTree.Repr, AvlTree.Contents, Valid;
      FieldsLawful();
      Ordered.ReplaceInserted(FIELDS, Fields(), Field(name, Undefined), Field(name, v));
      var ok := AddField(name);
      FillField(name, v);
    }

    /** What the typed setters have in common: any previous field of that name is removed first. */
    method Set(name: string, v: Value) returns (r: Outcome)
      requires Valid()
      modifies Repr()
      ensures Valid() && (forall o <- Repr() :: o in old(Repr()) || fresh(o)) && writable == old(writable)
      ensures r == if old(writable) then Success else ReadOnly
      ensures Fields() == if r.Success? then WithField(old(Fields()), name, v) else old(Fields())
    {
      hide Ordered.Rank, Ordered.Sorted, Ordered.Lawful, Ordered.Has, Ordered.Insert, Ordered.Remove;
      hide AvlTree.Valid, AvlTree.Repr, AvlTree.Contents, Valid;
      if !writable {
        return ReadOnly;
      }
      RemoveField(name);
      PutField(name, v);
      r := Success;
    }

    method Lookup(name: string) returns (v: Option<Value>)
      requires Valid()
      ensures v == FieldNamed(Fields(), name)
    {
      var e := fields.Find(name);
      match e {
        case Null => v := None;
        case Value(f) =>
          FoundField(Fields(), f);
          v := Some(f.value);
      }
    }

    /** The names of the fields, in order; the list ends with an entry that is null. */
    method GetFieldNames() returns (names: seq<Option<string>>)
      requires Valid()
      ensures |names| == |Fields()| + 1 && names[|Fields()|] == None
      ensures forall i :: 0 <= i < |Fields()| ==> names[i] == Some(Fields()[i].name)
    {
      hide Ordered.Sorted, Ordered.Lawful;
      fields.ElementCount();
      AvlShape.OrderLengths(fields.shape);
      var n := fields.nElements;
      names := seq(n + 1, _ => None);
      var node := fields.First();
      var i := 0;
      while node != null
        invariant fields.Shaped() && i <= n == |Fields()| == |AvlShape.NodeOrder(fields.shape)|
        invariant node == if i < n then AvlShape.NodeOrder(fields.shape)[i] else null
        invariant |names| == n + 1 && names[n] == None
        invariant forall j :: 0 <= j < i ==> names[j] == Some(Fields()[j].name)
        decreases n - i
      {
        var field;
        field, node := fields.Visit(node, i);
        names := names[i := Some(field.name)];
        i := i + 1;
      }
    }

    /** All fields with their values, each looked up under its name. */
    method Collect() returns (fs: seq<Field>)
      requires Valid()
      ensures fs == Fields()
    {
      hide Ordered.Lawful;
      assert allocated(AvlShape.Nodes(fields.shape));
      var names := GetFieldNames();
      fs := [];
      for i := 0 to |names| - 1
        invariant Valid() && fs == Fields()[..i]
      {
        FoundField(Fields(), Fields()[i]);
        var v := Lookup(names[i].value);
        fs := fs + [Field(names[i].value, v.value)];
      }
    }

    method GetBool(name: string) returns (r: Outcome, b: bool)
      requires Valid()
      ensures r == match FieldNamed(Fields(), name) {
        case None => UnknownField
        case Some(v) => if v.Bool? then Success else InvalidType
      }
      ensures if r.Success? then FieldNamed(Fields(), name) == Some(Bool(b)) else !b
    {
      var v := Lookup(name);
      match v {
        case None => return UnknownField, false;
        case Some(Bool(b')) => return Success, b';
        case Some(_) => return InvalidType, false;
      }
    }

    method GetString(name: string) returns (r: Outcome, s: string)
      requires Valid()
      ensures r == match FieldNamed(Fields(), name) {
        case None => UnknownField
        case Some(v) => if v.Str? then Success else InvalidType
      }
      ensures if r.Success? then FieldNamed(Fields(), name) == Some(Str(s)) else s == ""
    {
      var v := Lookup(name);
      match v {
        case None => return UnknownField, "";
        case Some(Str(s')) => return Success, s';
        case Some(_) => return InvalidType, "";
      }
    }

    method GetObject(name: string) returns (r: Outcome, fs: seq<Field>)
      requires Valid()
      ensures r == match FieldNamed(Fields(), name) {
        case None => UnknownField
        case Some(v) => if v.Obj? then Success else InvalidType
      }
      ensures if r.Success? then FieldNamed(Fields(), name) == Some(Obj(fs)) else fs == []
    {
      var v := Lookup(name);
      match v {
        case None => return UnknownField, [];
        case Some(Obj(fs')) => return Success, fs';
        case Some(_) => return InvalidType, [];
      }
    }
  }

  lemma FoundField(fs: seq<Field>, f: Field)
    requires Ordered.Sorted(FIELDS, fs) && f in fs
    ensures FieldNamed(fs, f.name) == Some(f.value)
  {
    FieldsLawful();
    var i :| 0 <= i < |fs| && fs[i] == f;
    assert fs == fs[..i] + [f] + fs[i+1..];
    StrCmpEqual(f.name, f.name);
    Ordered.RankEnd(FIELDS, fs[..i], f, fs[i+1..], f.name);
  }

  /** Setting a field is a map update: the field reads back, the others are as before. */
  lemma WithFieldReads(fs: seq<Field>, name: string, v: Value, other: string)
    requires Ordered.Sorted(FIELDS, fs)
    ensures Ordered.Sorted(FIELDS, WithField(fs, name, v))
    ensures FieldNamed(WithField(fs, name, v), other) == if other == name then Some(v) else FieldNamed(fs, other)
  {
    FieldsLawful();
    var rest := Ordered.Remove(FIELDS, fs, name);
    var f := Field(name, v);
    Ordered.RemoveSorted(FIELDS, fs, name);
    Ordered.InsertSorted(FIELDS, rest, f);
    var all := WithField(fs, name, v);
    if other == name {
      FoundField(all, f);
    } else {
      forall x: Field | x.name == other ensures x in all <==> x in fs {
        WithFieldMembers(fs, name, v, x);
      }
      SameFields(all, fs, other);
    }
  }

  lemma WithFieldMembers(fs: seq<Field>, name: string, v: Value, x: Field)
    requires Ordered.Sorted(FIELDS, fs) && x.name != name
    ensures x in WithField(fs, name, v) <==> x in fs
  {
    hide Ordered.Rank, Ordered.Sorted, StrCmp;
    var rest := Ordered.Remove(FIELDS, fs, name);
    var r := Ordered.Rank(FIELDS, fs, name);
    var q := Ordered.Rank(FIELDS, rest, name);
    MemberOfParts(rest[..q], Field(name, v), rest[q..], x);
    assert rest == rest[..q] + rest[q..];
    if Ordered.Has(FIELDS, fs, name) {
      assert fs == fs[..r] + [fs[r]] + fs[r+1..];
      StrCmpEqual(name, fs[r].name);
      MemberOfParts(fs[..r], fs[r], fs[r+1..], x);
    }
  }

  lemma MemberOfParts(a: seq<Field>, f: Field, b: seq<Field>, x: Field)
    requires x != f
    ensures x in a + [f] + b <==> x in a + b
  {
  }

  /** A lookup depends on the fields of that name only. */
  lemma SameFields(all: seq<Field>, fs: seq<Field>, name: string)
    requires Ordered.Sorted(FIELDS, all) && Ordered.Sorted(FIELDS, fs)
    requires forall f: Field :: f.name == name ==> (f in all <==> f in fs)
    ensures FieldNamed(all, name) == FieldNamed(fs, name)
  {
    FieldsLawful();
    var a, b := Ordered.Rank(FIELDS, all, name), Ordered.Rank(FIELDS, fs, name);
    if Ordered.Has(FIELDS, all, name) {
      assert all[a] in all;
      FoundField(all, all[a]);
      FoundField(fs, all[a]);
    } else if Ordered.Has(FIELDS, fs, name) {
      assert fs[b] in fs;
      FoundField(all, fs[b]);
    }
  }

  // ---------------------------------------------------------------- arrays

  /** The kind of an array is taken on with the first proper element and kept from then on. */
  lemma {:induction false} ElementKindGrows(es: seq<Value>, v: Value)
    ensures ElementKind(es + [v]) ==
      if ElementKind(es) == KUndefined && !v.Null? then KindOf(v) else ElementKind(es)
  {
    if es != [] {
      assert (es + [v])[1..] == es[1..] + [v];
      ElementKindGrows(es[1..], v);
    }
  }

  /** Whether an array of these elements takes `v` as well. */
  predicate Fits(es: seq<Value>, v: Value) {
    v.Null? || ElementKind(es) == KUndefined || ElementKind(es) == KindOf(v)
  }

  /** What the typed appends let into an array keeps it one that can be printed and read back. */
  lemma AppendStaysWellFormed(es: seq<Value>, v: Value)
    requires WellFormed(Arr(es)) && WellFormed(v) && Fits(es, v)
    ensures WellFormed(Arr(es + [v]))
  {
    hide ElementKind;
    forall i | 0 <= i < |es| && !es[i].Null? ensures v.Null? || KindOf(es[i]) == KindOf(v) {
      JsonSound.WellFormedKind(es[i]);
      JsonSound.KindCovers(es, i);
    }
  }

  class VarlinkArray {
    var elementKind: Kind
    var elements: array<Value>
    var nElements: nat
    var writable: bool

    ghost predicate Valid()
      reads this, elements
    {
      && nElements <= elements.Length
      && elementKind == ElementKind(Contents())
      && (forall i :: nElements <= i < elements.Length ==> elements[i] == Undefined)
    }

    ghost function Contents(): seq<Value>
      reads this, elements
      requires nElements <= elements.Length
    {
      elements[..nElements]
    }

    constructor ()
      ensures Valid() && fresh(elements) && Contents() == [] && writable
    {
      elements := new Value[0];
      nElements, elementKind, writable := 0, KUndefined, true;
    }

    /** Makes room for one more element; the storage doubles when it is full. */
    method AppendSlot()
      requires Valid()
      modifies this, elements
      ensures Valid() && (elements == old(elements) || fresh(elements))
      ensures elements.Length == if old(nElements == elements.Length) then Max(old(elements.Length) * 2, 16)
        else old(elements.Length)
      ensures Contents() == old(Contents()) + [Undefined]
      ensures elementKind == old(elementKind) && writable == old(writable)
    {
      hide ElementKind;
      ghost var was := Contents();
      ElementKindGrows(was, Undefined);
      if nElements == elements.Length {
        var bigger := new Value[Max(elements.Length * 2, 16)](_ => Undefined);
        forall i | 0 <= i < nElements {
          bigger[i] := elements[i];
        }
        assert bigger[..nElements] == elements[..nElements];
        elements := bigger;
      }
      assert elements[..nElements + 1] == was + [Undefined];
      nElements := nElements + 1;
    }

    /** Fills in the slot appended last, in which nothing has been stored yet, when the array takes the value. */
    method FillSlot(v: Value) returns (ok: bool)
      requires Valid() && nElements > 0 && elements[nElements-1] == Undefined
      modifies this, elements
      ensures Valid() && elements == old(elements) && nElements == old(nElements) && writable == old(writable)
      ensures var es := old(Contents())[..nElements-1];
        ok == Fits(es, v) && (ok ==> Contents() == es + [v])
    {
      ghost var es := Contents()[..nElements-1];
      assert Contents() == es + [Undefined];
      ElementKindGrows(es, Undefined);
      ElementKindGrows(es, v);
      if !v.Null? {
        if elementKind == KUndefined {
          elementKind := KindOf(v);
        } else if elementKind != KindOf(v) {
          return false;
        }
      }
      elements[nElements-1] := v;
      assert Contents() == es + [v];
      ok := true;
    }

    /** The typed appends: null, or a value of the kind of the array. */
    method Add(v: Value) returns (r: Outcome)
      requires Valid() && !v.Undefined?
      modifies this, elements
      ensures Valid() && (elements == old(elements) || fresh(elements)) && writable == old(writable)
      ensures r == if !old(writable) then ReadOnly else if Fits(old(Contents()), v) then Success else InvalidType
      ensures Contents() == if r.Success? then old(Contents()) + [v] else old(Contents())
    {
      if !writable {
        return ReadOnly;
      }
      if !v.Null? && elementKind != KUndefined && elementKind != KindOf(v) {
        return InvalidType;
      }
      AppendSlot();
      var ok := FillSlot(v);
      r := Success;
    }

    method GetString(index: nat) returns (r: Outcome, s: string)
      requires Valid()
      ensures r == if index >= |Contents()| then InvalidIndex else if Contents()[index].Str? then Success
        else InvalidType
      ensures r.Success? ==> Contents()[index] == Str(s)
    {
      if index >= nElements {
        return InvalidIndex, "";
      }
      match elements[index] {
        case Str(s') => return Success, s';
        case _ => return InvalidType, "";
      }
    }
  }

  function Max(a: nat, b: nat): nat { if a < b then b else a }
}
