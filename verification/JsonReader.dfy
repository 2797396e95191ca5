/** Reading JSON with the scanner, and writing it (lib/value.c, lib/object.c, lib/array.c): the loops that fill
    mutable objects and arrays, proved against the functions of `Json`. */
module JsonReader {
  import opened Text
  import opened Tokens
  import opened Json
  import opened Scanning
  import opened Containers
  import AvlShape
  import Ordered

  /** What a reader returns for what the grammar says. */
  ghost predicate ReadsValue(s: Scanner, start: nat, depth: nat, v: Option<Value>)
    requires start <= |s.text|
    reads s
  {
    Json.ReadValue(s.text, start, depth) == if v.Some? then Got(v.value, s.p) else Failed
  }

  method ReadValue(s: Scanner, depth: nat) returns (v: Option<Value>)
    requires s.Valid() && !s.comments
    modifies s
    ensures s.Valid() && old(s.p) <= s.p && ReadsValue(s, old(s.p), depth, v)
    decreases |s.text| - s.p, 4
  {
    BlanksSkip(s.text, s.Here());
    if depth + 1 >= MAX_DEPTH {
      return None;
    }
    var c := s.Peek();
    if c == '{' {
      var o := ReadObject(s, depth + 1);
      if o == null {
        return None;
      }
      var fs := o.Collect();
      return Some(Obj(fs));
    } else if c == '[' {
      var a := ReadArray(s, depth + 1);
      if a == null {
        return None;
      }
      return Some(Arr(a.elements[..a.nElements]));
    } else {
      v := ReadScalar(s, depth);
    }
  }

  /** The values that are not containers. */
  method ReadScalar(s: Scanner, depth: nat) returns (v: Option<Value>)
    requires s.Valid() && !s.comments && depth + 1 < MAX_DEPTH
    requires !IsBlank(At(s.text, s.p)) && At(s.text, s.p) != '{' && At(s.text, s.p) != '['
    modifies s
    ensures s.Valid() && old(s.p) <= s.p && ReadsValue(s, old(s.p), depth, v)
  {
    BlanksSkip(s.text, s.Here());
    BlanksTwice(s.text, s.comments, s.Here());
    var isNull := s.ReadKeyword("null");
    if isNull {
      return Some(Null);
    }
    var isTrue := s.ReadKeyword("true");
    if isTrue {
      return Some(Bool(true));
    }
    var isFalse := s.ReadKeyword("false");
    if isFalse {
      return Some(Bool(false));
    }
    var c := s.Peek();
    if c == '"' {
      var r := s.ExpectString();
      return Some(if r.Some? then Str(r.value) else Undefined);
    }
    var n := s.ReadNumber();
    match n {
      case None => return None;
      case Some(Decimal(f)) => return Some(Float(f));
      case Some(Integer(i)) => return Some(Int(i));
    }
  }

  // ---------------------------------------------------------------- objects

  method ReadObject(s: Scanner, depth: nat) returns (o: VarlinkObject?)
    requires s.Valid() && !s.comments
    modifies s
    ensures s.Valid() && old(s.p) <= s.p
    ensures o != null ==> o.Valid() && fresh(o.Repr()) && old(s.p) < s.p
    ensures Json.ReadObject(s.text, old(s.p), depth) == if o != null then Some((o.Fields(), s.p)) else None
    decreases |s.text| - s.p, 3
  {
    hide ReadFields;
    BlanksSkip(s.text, s.Here());
    OneCharacter(s.text, Skip(s.text, s.p), '{');
    var ok := s.ExpectOperator("{");
    if !ok {
      return null;
    }
    var obj := new VarlinkObject();
    var complete := ReadMembers(s, obj, depth);
    o := if complete then obj else null;
  }

  /** The fields of an object up to and with the closing brace. */
  method ReadMembers(s: Scanner, obj: VarlinkObject, depth: nat) returns (ok: bool)
    requires s.Valid() && !s.comments && obj.Valid() && s !in obj.Repr()
    modifies s, obj.Repr()
    ensures s.Valid() && obj.Valid() && (forall o <- obj.Repr() :: o in old(obj.Repr()) || fresh(o)) && old(s.p) <= s.p
    ensures ok ==> old(s.p) < s.p
    ensures ReadFields(s.text, old(s.p), depth, old(obj.Fields()), true) == if ok then Some((obj.Fields(), s.p))
      else None
    decreases |s.text| - s.p, 6
  {
    hide ReadFields, VarlinkObject.Valid;
    ghost var start := s.p;
    var first := true;
    while true
      invariant s.Valid() && start <= s.p && obj.Valid() && s !in obj.Repr()
        && (forall o <- obj.Repr() :: o in old(obj.Repr()) || fresh(o))
      invariant ReadFields(s.text, start, depth, old(obj.Fields()), true) ==
        ReadFields(s.text, s.p, depth, obj.Fields(), first)
      decreases |s.text| - s.p, if first then 1 else 0
    {
      assert allocated(AvlShape.Nodes(obj.fields.shape));
      BlanksSkip(s.text, s.Here());
      FieldsBehindBlanks(s.text, s.p, depth, obj.Fields(), first);
      var c := s.Peek();
      if c == '}' {
        break;
      }
      var more := ReadField(s, obj, depth, first);
      if !more {
        return false;
      }
      first := false;
    }
    BlanksSkip(s.text, s.Here());
    OneCharacter(s.text, s.p, '}');
    ok := s.ExpectOperator("}");
  }

  lemma OneCharacter(t: string, p: nat, c: char)
    ensures c != '\0' ==> (Has(t, p, [c]) <==> At(t, p) == c)
  {
  }

  lemma FieldsBehindBlanks(t: string, p: nat, depth: nat, fs: seq<Field>, first: bool)
    requires p <= |t|
    ensures ReadFields(t, Skip(t, p), depth, fs, first) == ReadFields(t, p, depth, fs, first)
    ensures At(t, Skip(t, p)) == '}' ==> ReadFields(t, p, depth, fs, first) == Some((fs, Skip(t, p) + 1))
  {
    hide StringAt, Json.ReadValue, Ordered.Has, Ordered.Insert;
  }

  /** The name of a field and its colon. */
  method ReadName(s: Scanner, first: bool) returns (name: Option<string>)
    requires s.Valid() && !s.comments
    requires !IsBlank(At(s.text, s.p)) && At(s.text, s.p) != '}'
    modifies s
    ensures s.Valid() && old(s.p) <= s.p
    ensures name == NameAt(s.text, old(s.p), first)
    ensures name.Some? ==> old(s.p) < s.p && s.p == ValueStart(s.text, old(s.p), first)
  {
    BlanksSkip(s.text, s.Here());
    if !first {
      OneCharacter(s.text, s.p, ',');
      var ok := s.ExpectOperator(",");
      if !ok {
        return None;
      }
    }
    BlanksSkip(s.text, s.Here());
    name := s.ExpectString();
    if name.None? {
      return None;
    }
    BlanksSkip(s.text, s.Here());
    OneCharacter(s.text, Skip(s.text, s.p), ':');
    var ok := s.ExpectOperator(":");
    if !ok {
      return None;
    }
  }

  /** The name of the field at `q` and where its value starts. */
  function NameAt(t: string, q: nat, first: bool): Option<string>
    requires q <= |t|
  {
    if !first && At(t, q) != ',' then None
    else
      match StringAt(t, Skip(t, if first then q else q + 1))
      case None => None
      case Some((name, n)) => if At(t, Skip(t, n)) != ':' then None else Some(name)
  }

  function ValueStart(t: string, q: nat, first: bool): (p: nat)
    requires q <= |t| && NameAt(t, q, first).Some?
    ensures q < p <= |t|
  {
    Skip(t, StringAt(t, Skip(t, if first then q else q + 1)).value.1) + 1
  }

  /** How the fields go on behind a value. */
  function AfterField(t: string, r: Read, name: string, depth: nat, fs: seq<Field>): Option<(seq<Field>, nat)>
    requires r.Got? ==> r.next <= |t|
  {
    match r
    case Failed => None
    case Got(v, m) => ReadFields(t, m, depth, if v.Null? then fs else Ordered.Insert(FIELDS, fs, Field(name, v)), false)
  }

  /** One round of the object loop. */
  lemma FieldsStep(t: string, q: nat, depth: nat, fs: seq<Field>, first: bool)
    requires q <= |t| && !IsBlank(At(t, q)) && At(t, q) != '}'
    ensures NameAt(t, q, first) == None ==> ReadFields(t, q, depth, fs, first) == None
    ensures NameAt(t, q, first).Some? ==>
      && var name, c := NameAt(t, q, first).value, ValueStart(t, q, first);
      && (Ordered.Has(FIELDS, fs, name) ==> ReadFields(t, q, depth, fs, first) == None)
      && (!Ordered.Has(FIELDS, fs, name) ==>
            ReadFields(t, q, depth, fs, first) == AfterField(t, Json.ReadValue(t, c, depth), name, depth, fs))
  {
    hide StringAt, Json.ReadValue, Ordered.Has, Ordered.Insert;
  }

  /** One field of an object, behind its separator; a field that turns out to be null is dropped again. */
  method ReadField(s: Scanner, obj: VarlinkObject, depth: nat, first: bool) returns (ok: bool)
    requires s.Valid() && !s.comments && obj.Valid() && s !in obj.Repr()
    requires !IsBlank(At(s.text, s.p)) && At(s.text, s.p) != '}'
    modifies s, obj.Repr()
    ensures s.Valid() && obj.Valid() && (forall o <- obj.Repr() :: o in old(obj.Repr()) || fresh(o)) && old(s.p) <= s.p
    ensures ok ==> old(s.p) < s.p
    ensures ReadFields(s.text, old(s.p), depth, old(obj.Fields()), first) ==
      if ok then ReadFields(s.text, s.p, depth, obj.Fields(), false) else None
    decreases |s.text| - s.p, 5
  {
    hide ReadFields, StringAt, Ordered.Has, Ordered.Insert, Ordered.Remove, Ordered.Replace;
    hide VarlinkObject.Valid;
    assert allocated(AvlShape.Nodes(obj.fields.shape));
    ghost var fs := obj.Fields();
    FieldsStep(s.text, s.p, depth, fs, first);
    var name := ReadName(s, first);
    if name.None? {
      return false;
    }
    var added := obj.AddField(name.value);
    if !added {
      return false;
    }
    assert allocated(AvlShape.Nodes(obj.fields.shape));
    var v := ReadValue(s, depth);
    if v.None? {
      return false;
    }
    Settle(obj, name.value, v.value, fs);
    ok := true;
  }

  /** Stores the value that was read in the field that was added for it. */
  method Settle(obj: VarlinkObject, name: string, v: Value, ghost fs: seq<Field>)
    requires obj.Valid() && !Ordered.Has(FIELDS, fs, name)
    requires obj.Fields() == Ordered.Insert(FIELDS, fs, Field(name, Undefined))
    modifies obj.Repr()
    ensures obj.Valid() && (forall o <- obj.Repr() :: o in old(obj.Repr()) || fresh(o))
    ensures obj.Fields() == if v.Null? then fs else Ordered.Insert(FIELDS, fs, Field(name, v))
  {
    hide Ordered.Has, Ordered.Insert, Ordered.Remove, Ordered.Replace, Ordered.Lawful;
    hide VarlinkObject.Valid;
    FieldsLawful();
    Ordered.RemoveInsert(FIELDS, fs, Field(name, Undefined));
    Ordered.ReplaceInserted(FIELDS, fs, Field(name, Undefined), Field(name, v));
    if v.Null? {
      obj.RemoveField(name);
    } else {
      obj.FillField(name, v);
    }
  }

  // ---------------------------------------------------------------- arrays

  method ReadArray(s: Scanner, depth: nat) returns (a: VarlinkArray?)
    requires s.Valid() && !s.comments
    modifies s
    ensures s.Valid() && old(s.p) <= s.p
    ensures a != null ==> a.Valid() && fresh(a) && fresh(a.elements) && old(s.p) < s.p
    ensures Json.ReadArray(s.text, old(s.p), depth) == if a != null then Some((a.Contents(), s.p)) else None
    decreases |s.text| - s.p, 3
  {
    hide ReadElements;
    BlanksSkip(s.text, s.Here());
    OneCharacter(s.text, Skip(s.text, s.p), '[');
    var ok := s.ExpectOperator("[");
    if !ok {
      return null;
    }
    var arr := new VarlinkArray();
    var complete := ReadSlots(s, arr, depth);
    a := if complete then arr else null;
  }

  /** The elements of an array up to and with the closing bracket. */
  method ReadSlots(s: Scanner, arr: VarlinkArray, depth: nat) returns (ok: bool)
    requires s.Valid() && !s.comments && arr.Valid()
    modifies s, arr, arr.elements
    ensures s.Valid() && arr.Valid() && (arr.elements == old(arr.elements) || fresh(arr.elements)) && old(s.p) <= s.p
    ensures ReadElements(s.text, old(s.p), depth, old(arr.Contents()), true) ==
      if ok then Some((arr.Contents(), s.p)) else None
    decreases |s.text| - s.p, 7
  {
    hide ReadElements, ElementKind;
    ghost var start := s.p;
    var first := true;
    while true
      invariant s.Valid() && start <= s.p && arr.Valid() && (arr.elements == old(arr.elements) || fresh(arr.elements))
      invariant
        ReadElements(s.text, start, depth, old(arr.Contents()), true) ==
          ReadElements(s.text, s.p, depth, arr.Contents(), first)
      decreases |s.text| - s.p, if first then 1 else 0
    {
      BlanksSkip(s.text, s.Here());
      ElementsBehindBlanks(s.text, s.p, depth, arr.Contents(), first);
      var c := s.Peek();
      if c == ']' {
        break;
      }
      var more := ReadElement(s, arr, depth, first);
      if !more {
        return false;
      }
      first := false;
    }
    BlanksSkip(s.text, s.Here());
    OneCharacter(s.text, s.p, ']');
    ok := s.ExpectOperator("]");
  }

  lemma ElementsBehindBlanks(t: string, p: nat, depth: nat, es: seq<Value>, first: bool)
    requires p <= |t|
    ensures ReadElements(t, Skip(t, p), depth, es, first) == ReadElements(t, p, depth, es, first)
    ensures At(t, Skip(t, p)) == ']' ==> ReadElements(t, p, depth, es, first) == Some((es, Skip(t, p) + 1))
  {
    hide Json.ReadValue, ElementKind;
  }

  /** How the elements go on behind a value. */
  function AfterElement(t: string, r: Read, depth: nat, es: seq<Value>): Option<(seq<Value>, nat)>
    requires r.Got? ==> r.next <= |t|
  {
    match r
    case Failed => None
    case Got(v, m) => if Fits(es, v) then ReadElements(t, m, depth, es + [v], false) else None
  }

  /** One round of the array loop. */
  lemma ElementsStep(t: string, q: nat, depth: nat, es: seq<Value>, first: bool)
    requires q <= |t| && !IsBlank(At(t, q)) && At(t, q) != ']'
    ensures !first && At(t, q) != ',' ==> ReadElements(t, q, depth, es, first) == None
    ensures first || At(t, q) == ',' ==>
      ReadElements(t, q, depth, es, first) ==
      AfterElement(t, Json.ReadValue(t, if first then q else q + 1, depth), depth, es)
  {
    hide Json.ReadValue, ElementKind;
  }

  /** One element of an array, read into a slot appended for it. */
  method ReadIntoSlot(s: Scanner, arr: VarlinkArray, depth: nat) returns (ok: bool)
    requires s.Valid() && !s.comments && arr.Valid()
    modifies s, arr, arr.elements
    ensures s.Valid() && arr.Valid() && (arr.elements == old(arr.elements) || fresh(arr.elements)) && old(s.p) <= s.p
    ensures AfterElement(s.text, Json.ReadValue(s.text, old(s.p), depth), depth, old(arr.Contents())) ==
      if ok then ReadElements(s.text, s.p, depth, arr.Contents(), false) else None
    decreases |s.text| - s.p, 5
  {
    hide ReadElements, ElementKind, Fits, Skip, Json.ReadValue;
    ghost var es := arr.Contents();
    arr.AppendSlot();
    assert arr.Contents()[|es|] == Undefined && arr.elements[arr.nElements-1] == Undefined;
    var v := ReadValue(s, depth);
    if v.None? {
      return false;
    }
    ok := arr.FillSlot(v.value);
  }

  /** One element of an array, behind its separator. */
  method ReadElement(s: Scanner, arr: VarlinkArray, depth: nat, first: bool) returns (ok: bool)
    requires s.Valid() && !s.comments && arr.Valid()
    requires !IsBlank(At(s.text, s.p)) && At(s.text, s.p) != ']'
    modifies s, arr, arr.elements
    ensures s.Valid() && arr.Valid() && (arr.elements == old(arr.elements) || fresh(arr.elements))
    ensures old(s.p) <= s.p && (ok && !first ==> old(s.p) < s.p)
    ensures ReadElements(s.text, old(s.p), depth, old(arr.Contents()), first) ==
      if ok then ReadElements(s.text, s.p, depth, arr.Contents(), false) else None
    decreases |s.text| - s.p, 6
  {
    hide ReadElements, ElementKind, AfterElement, Skip, Json.ReadValue;
    ElementsStep(s.text, s.p, depth, arr.Contents(), first);
    BlanksSkip(s.text, s.Here());
    if !first {
      OneCharacter(s.text, s.p, ',');
      var comma := s.ExpectOperator(",");
      if !comma {
        return false;
      }
    }
    ok := ReadIntoSlot(s, arr, depth);
  }
}
