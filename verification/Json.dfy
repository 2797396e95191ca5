/** JSON values: the abstract form of objects, arrays and values, how they are printed and how they are read
    (lib/value.c, lib/object.c, lib/array.c). */
module Json {
  import opened Text
  import opened Tokens
  import opened Literals
  import Floats
  import Names
  import Ordered

  /** A value; an array or object stands for its contents. Floats are finite. */
  datatype Value =
    | Undefined
    | Null
    | Bool(b: bool)
    | Int(i: int)
    | Float(f: Floats.Float)
    | Str(s: string)
    | Arr(elements: seq<Value>)
    | Obj(fields: seq<Field>)

  datatype Field = Field(name: string, value: Value)

  datatype Kind = KUndefined | KNull | KBool | KInt | KFloat | KString | KArray | KObject

  function KindOf(v: Value): Kind {
    match v
    case Undefined => KUndefined
    case Null => KNull
    case Bool(_) => KBool
    case Int(_) => KInt
    case Float(_) => KFloat
    case Str(_) => KString
    case Arr(_) => KArray
    case Obj(_) => KObject
  }

  /** The fields of an object lie in the order of `strcmp` on their names. */
  const FIELDS: Ordered.Order<string, Field> := Names.ByName((f: Field) => f.name)

  lemma FieldsLawful()
    ensures Ordered.Lawful(FIELDS)
  {
    Names.ByNameLawful((f: Field) => f.name);
  }

  /** The kind an array has taken on: that of its first element that is filled in and not null. */
  function ElementKind(es: seq<Value>): Kind {
    if es == [] then KUndefined
    else if es[0].Null? || es[0].Undefined? then ElementKind(es[1..])
    else KindOf(es[0])
  }

  // ---------------------------------------------------------------- reading

  const MAX_DEPTH: nat := 1000

  datatype Read = Failed | Got(value: Value, next: nat)

  /** A value at `p`. A string that cannot be read is reported as read, with nothing stored in the value and
      nothing consumed: its negative error code counts as true. */
  function ReadValue(t: string, p: nat, depth: nat): (r: Read)
    requires p <= |t|
    ensures r.Got? ==> p <= r.next <= |t|
    ensures r.Got? && r.value.Undefined? ==> r.next == Skip(t, p) && At(t, r.next) == '"'
    ensures r.Got? && !r.value.Undefined? ==> p < r.next
    decreases |t| - p, 2
  {
    var d := depth + 1;
    var q := Skip(t, p);
    if d >= MAX_DEPTH then Failed
    else if At(t, q) == '{' then
      match ReadObject(t, q, d)
      case None => Failed
      case Some((fs, n)) => Got(Obj(fs), n)
    else if At(t, q) == '[' then
      match ReadArray(t, q, d)
      case None => Failed
      case Some((es, n)) => Got(Arr(es), n)
    else if KeywordAt(t, q, "null") then Got(Null, q + 4)
    else if KeywordAt(t, q, "true") then Got(Bool(true), q + 4)
    else if KeywordAt(t, q, "false") then Got(Bool(false), q + 5)
    else if At(t, q) == '"' then
      match StringAt(t, q)
      case None => Got(Undefined, q)
      case Some((s, n)) => Got(Str(s), n)
    else
      match NumberAt(t, q)
      case None => Failed
      case Some((Decimal(f), n)) => Got(Float(f), n)
      case Some((Integer(i), n)) => Got(Int(i), n)
  }

  function ReadObject(t: string, p: nat, depth: nat): (r: Option<(seq<Field>, nat)>)
    requires p <= |t|
    ensures r.Some? ==> p < r.value.1 <= |t|
    decreases |t| - p, 1
  {
    var q := Skip(t, p);
    if At(t, q) != '{' then None else ReadFields(t, q + 1, depth, [], true)
  }

  /** The fields of an object from `p` on, added to `fs`. A field that is null is dropped again; a name that
      is already present is an error. */
  function ReadFields(t: string, p: nat, depth: nat, fs: seq<Field>, first: bool): (r: Option<(seq<Field>, nat)>)
    requires p <= |t|
    ensures r.Some? ==> p < r.value.1 <= |t|
    decreases |t| - p, 3
  {
    var q := Skip(t, p);
    if At(t, q) == '}' then Some((fs, q + 1))
    else if !first && At(t, q) != ',' then None
    else
      match StringAt(t, Skip(t, if first then q else q + 1))
      case None => None
      case Some((name, n)) =>
        var c := Skip(t, n);
        if At(t, c) != ':' || Ordered.Has(FIELDS, fs, name) then None
        else
          match ReadValue(t, c + 1, depth)
          case Failed => None
          case Got(v, m) => ReadFields(t, m, depth, if v.Null? then fs
            else Ordered.Insert(FIELDS, fs, Field(name, v)), false)
  }

  function ReadArray(t: string, p: nat, depth: nat): (r: Option<(seq<Value>, nat)>)
    requires p <= |t|
    ensures r.Some? ==> p < r.value.1 <= |t|
    decreases |t| - p, 1
  {
    var q := Skip(t, p);
    if At(t, q) != '[' then None else ReadElements(t, q + 1, depth, [], true)
  }

  /** The elements of an array from `p` on, appended to `es`; all of one kind, except for nulls. */
  function ReadElements(t: string, p: nat, depth: nat, es: seq<Value>, first: bool): (r: Option<(seq<Value>, nat)>)
    requires p <= |t|
    ensures r.Some? ==> p < r.value.1 <= |t|
    decreases |t| - p, if first then 4 else 3
  {
    var q := Skip(t, p);
    if At(t, q) == ']' then Some((es, q + 1))
    else if !first && At(t, q) != ',' then None
    else
      match ReadValue(t, if first then q else q + 1, depth)
      case Failed => None
      case Got(v, m) =>
        if !v.Null? && ElementKind(es) != KUndefined && ElementKind(es) != KindOf(v) then None
        else ReadElements(t, m, depth, es + [v], false)
  }

  /** A whole document: one object and nothing behind it. */
  function Parse(t: string): Option<seq<Field>> {
    match ReadObject(t, 0, 0)
    case None => None
    case Some((fs, n)) => if At(t, Skip(t, n)) == '\0' then Some(fs) else None
  }

  // ---------------------------------------------------------------- printing

  function Spaces(n: nat): (s: string)
    ensures |s| == n && forall i :: 0 <= i < n ==> s[i] == ' '
  {
    seq(n, _ => ' ')
  }

  /** A single space printed in a field of the given width. */
  function Pad(width: nat): string {
    Spaces(if width == 0 then 1 else width)
  }

  function Newline(indent: int): string {
    if indent >= 0 then "\n" else ""
  }

  function Deeper(indent: int): int {
    if indent >= 0 then indent + 1 else -1
  }

  function Margin(indent: int): string {
    if indent >= 0 then Spaces(2 * indent) else ""
  }

  function ElementMargin(indent: int): string {
    if indent >= 0 then Pad((indent + 1) * 2) else ""
  }

  function ArrayEnd(indent: int): string {
    (if indent >= 0 then "\n" + Pad(indent * 2) else "") + "]"
  }

  function ObjectEnd(indent: int): string {
    Newline(indent) + Margin(indent) + "}"
  }

  /** The text of a value; a negative `indent` prints on one line. `Undefined`, for which the printer aborts, has no
      text here. */
  function Print(v: Value, indent: int): string
    decreases v, 0
  {
    match v
    case Undefined => ""
    case Float(f) => FloatText(f)
    case Null => "null"
    case Bool(b) => if b then "true" else "false"
    case Int(i) => DecimalText(i)
    case Str(s) => Quote(s)
    case Arr(es) => if es == [] then "[]" else "[" + (Newline(indent) + PrintElements(es, indent, true))
    case Obj(fs) => PrintObject(fs, indent)
  }

  function PrintObject(fs: seq<Field>, indent: int): string
    decreases fs, 1
  {
    if fs == [] then "{}" else "{" + (Newline(indent) + PrintFields(fs, indent, true))
  }

  function Separator(indent: int, first: bool): string {
    if first then "" else "," + Newline(indent)
  }

  /** The text of an array from an element on, up to its closing bracket. */
  function PrintElements(es: seq<Value>, indent: int, first: bool): string
    decreases es, 0
  {
    if es == [] then ArrayEnd(indent)
    else Separator(indent, first) + (ElementMargin(indent)
         + (Print(es[0], Deeper(indent)) + PrintElements(es[1..], indent, false)))
  }

  function Colon(indent: int): string {
    if indent >= 0 then ": " else ":"
  }

  /** The text of an object from a field on, up to its closing brace. Names are printed between quotes,
      without escaping. */
  function PrintFields(fs: seq<Field>, indent: int, first: bool): string
    decreases fs, 0
  {
    if fs == [] then ObjectEnd(indent)
    else Separator(indent, first) + (Margin(Deeper(indent))
         + (("\"" + fs[0].name + "\"") + (Colon(indent)
         + (Print(fs[0].value, Deeper(indent)) + PrintFields(fs[1..], indent, false)))))
  }
}
