/** When exactly an object is read back as it was printed, whatever its names are. Names are printed as they are, so a
    quote in one can end it, and names and values behind it are read differently. The proof weighs texts: what is read
    weighs no more than the text it is read from, and a text that is printed weighs less than what it stands for if
    one of its names would have to be escaped. */
module JsonExact {
  import opened Text
  import opened Tokens
  import opened Literals
  import opened Json
  import opened JsonRoundTrip
  import opened JsonSound
  import Floats
  import Ordered
  import Utf8

  // ---------------------------------------------------------------- weights

  predicate Special(c: char) {
    c == '"' || c == '\\' || c == '\t' || c == '\n'
  }

  /** What can stand in a number or in a hexadecimal escape, what is not ASCII, spaces and newlines weigh nothing. */
  predicate Light(c: char) {
    || c == ' ' || c == '\n' || c == '.' || IsDigit(c) || IsSign(c)
    || 'a' <= c <= 'f' || 'A' <= c <= 'F' || c as int >= 0x80
  }

  /** A control character that may stand in a literal weighs as much as its escape. */
  function CharWeight(c: char): nat {
    if Light(c) then 0
    else if c as int >= 0x20 || c == '\t' || c as int == 8 || c as int == 12 then 1
    else 2
  }

  function Weight(s: string): nat {
    if s == "" then 0 else CharWeight(s[0]) + Weight(s[1..])
  }

  lemma {:induction false} WeightConcat(a: string, b: string)
    ensures Weight(a + b) == Weight(a) + Weight(b)
    decreases a
  {
    hide CharWeight;
    if a == "" {
      assert a + b == b;
    } else {
      assert (a + b)[1..] == a[1..] + b;
      WeightConcat(a[1..], b);
    }
  }

  /** The weight of the text from `p` on. */
  function Ahead(t: string, p: nat): nat
    requires p <= |t|
  {
    Weight(t[p..])
  }

  lemma AheadStep(t: string, p: nat)
    requires p < |t|
    ensures Ahead(t, p) == CharWeight(t[p]) + Ahead(t, p + 1)
  {
    assert t[p..][1..] == t[p+1..];
  }

  lemma {:induction false} AheadFalls(t: string, p: nat, q: nat)
    requires p <= q <= |t|
    ensures Ahead(t, p) >= Ahead(t, q)
    decreases q - p
  {
    hide Ahead, CharWeight;
    if p < q {
      AheadStep(t, p);
      AheadFalls(t, p + 1, q);
    }
  }

  lemma AheadHas(t: string, p: nat, w: string)
    requires Has(t, p, w) && p + |w| <= |t|
    ensures Ahead(t, p) == Weight(w) + Ahead(t, p + |w|)
  {
    assert t[p..] == w + t[p + |w|..];
    WeightConcat(w, t[p + |w|..]);
  }

  /** Bytes that weigh one each. */
  predicate Solid(s: string) {
    forall i :: 0 <= i < |s| ==> CharWeight(s[i]) == 1
  }

  lemma {:induction false} SolidWeight(s: string)
    requires Solid(s)
    ensures Weight(s) == |s|
  {
    if s != "" {
      SolidWeight(s[1..]);
    }
  }

  // ---------------------------------------------------------------- literals

  lemma {:induction false} EscapeConcat(a: string, b: string)
    ensures Escape(a + b) == Escape(a) + Escape(b)
    decreases a
  {
    hide EscapeChar;
    if a == "" {
      assert a + b == b;
    } else {
      assert (a + b)[1..] == a[1..] + b;
      EscapeConcat(a[1..], b);
    }
  }

  lemma EscapeCharWeight(c: char)
    ensures CharWeight(c) <= Weight(EscapeChar(c)) <= 2
    ensures c as int >= 0x80 ==> Weight(EscapeChar(c)) == 0
    ensures CharWeight(c) == Weight(EscapeChar(c)) <==> !Special(c)
  {
    var e := EscapeChar(c);
    if |e| == 1 {
      WeightOne(e[0]);
      assert e == [c];
    } else if |e| == 2 {
      WeightTwo(e[0], e[1]);
      assert e == [e[0], e[1]];
    } else {
      WeightTwo('\\', 'u');
      assert e == ['\\', 'u'] + e[2..];
      WeightConcat(['\\', 'u'], e[2..]);
      LightWeight(e[2..]);
    }
  }

  lemma WeightOne(c: char)
    ensures Weight([c]) == CharWeight(c)
  {
    assert [c][1..] == "";
  }

  lemma WeightTwo(c: char, d: char)
    ensures Weight([c, d]) == CharWeight(c) + CharWeight(d)
  {
    assert [c, d][1..] == [d];
    WeightOne(d);
  }

  lemma {:induction false} LightWeight(s: string)
    requires forall i :: 0 <= i < |s| ==> Light(s[i])
    ensures Weight(s) == 0
  {
    if s != "" {
      LightWeight(s[1..]);
    }
  }

  lemma EscapeOne(c: char)
    ensures Escape([c]) == EscapeChar(c)
  {
    assert [c][1..] == "" && EscapeChar(c) + "" == EscapeChar(c);
  }

  /** A name weighs less than its escaped form if something in it has to be escaped. */
  lemma {:induction false} EscapeWeight(s: string)
    ensures Weight(s) <= Weight(Escape(s))
    ensures NulFree(s) && Weight(s) == Weight(Escape(s)) ==> Plain(s)
  {
    hide EscapeChar, CharWeight;
    if s != "" {
      EscapeWeight(s[1..]);
      EscapeCharWeight(s[0]);
      WeightConcat(EscapeChar(s[0]), Escape(s[1..]));
      assert forall i :: 1 <= i < |s| ==> s[i] == s[1..][i-1];
    }
  }

  /** The bytes of a code point weigh nothing, unless it is one of ASCII. */
  lemma EncodedWeight(cp: int)
    requires Utf8.Scalar(cp)
    ensures Weight(Escape(Utf8.Encode(cp))) <= 2
  {
    var s := Utf8.Encode(cp);
    if cp <= 0x7F {
      EscapeOne(s[0]);
      EscapeCharWeight(s[0]);
    } else {
      HighBytes(s);
    }
  }

  lemma {:induction false} HighBytes(s: string)
    requires forall i :: 0 <= i < |s| ==> s[i] as int >= 0x80
    ensures Weight(Escape(s)) == 0
  {
    if s != "" {
      HighBytes(s[1..]);
      EscapeCharWeight(s[0]);
      WeightConcat(EscapeChar(s[0]), Escape(s[1..]));
    }
  }

  /** What one element of a literal stands for weighs no more, escaped, than the element. */
  lemma PieceWeight(t: string, p: nat)
    requires p <= |t| && Piece(t, p).Some?
    ensures var (s, q) := Piece(t, p).value; Ahead(t, p) >= Weight(Escape(s)) + Ahead(t, q)
  {
    hide Ahead, CodeUnit, Weight, Escape, EscapeChar, CharWeight, Utf8.Encode;
    LetterWeight();
    var (s, q) := Piece(t, p).value;
    AheadStep(t, p);
    if t[p] != '\\' {
      EscapeOne(t[p]);
      EscapeCharWeight(t[p]);
    } else if At(t, p + 1) == 'u' {
      AheadStep(t, p + 1);
      EncodedWeight(UnicodeEscape(t, p + 2).value.0);
      AheadFalls(t, p + 2, q);
    } else {
      AheadStep(t, p + 1);
      SimpleWeight(t[p+1]);
    }
  }

  lemma LetterWeight()
    ensures CharWeight('\\') == CharWeight('u') == 1
  {
  }

  lemma SimpleWeight(c: char)
    requires SimpleEscape(c).Some?
    ensures Weight(Escape([SimpleEscape(c).value])) <= 1 + CharWeight(c)
  {
    var e := SimpleEscape(c).value;
    EscapeOne(e);
    EscapeCharWeight(e);
  }

  lemma {:induction false} UnescapeWeight(t: string, p: nat)
    requires p <= |t| && Unescape(t, p).Some?
    ensures var (s, end) := Unescape(t, p).value; Ahead(t, p) >= Weight(Escape(s)) + 1 + Ahead(t, end)
    decreases |t| - p
  {
    hide Ahead, Piece, Escape, EscapeChar, Weight;
    if At(t, p) == '"' {
      AheadStep(t, p);
      EscapeNothing();
    } else {
      var (piece, q) := Piece(t, p).value;
      var (rest, end) := Unescape(t, q).value;
      PieceWeight(t, p);
      UnescapeWeight(t, q);
      EscapeConcat(piece, rest);
      WeightConcat(Escape(piece), Escape(rest));
    }
  }

  lemma EscapeNothing()
    ensures Weight(Escape("")) == 0
  {
  }

  lemma QuoteWeight(s: string)
    ensures Weight(Quote(s)) == 2 + Weight(Escape(s))
  {
    hide Escape;
    WeightConcat("\"", Escape(s) + "\"");
    WeightConcat(Escape(s), "\"");
    SolidWeight("\"");
    assert Quote(s) == "\"" + (Escape(s) + "\"");
  }

  /** A string that is read weighs no more, printed, than the literal it is read from. */
  lemma StringWeight(t: string, p: nat)
    requires p <= |t| && StringAt(t, p).Some?
    ensures var (s, end) := StringAt(t, p).value; Ahead(t, p) >= Weight(Quote(s)) + Ahead(t, end)
  {
    hide Ahead, Unescape, Escape, Weight, Quote;
    AheadStep(t, p);
    UnescapeWeight(t, p + 1);
    QuoteWeight(StringAt(t, p).value.0);
  }

  // ---------------------------------------------------------------- numbers

  /** Numbers weigh nothing, however they are written. */
  lemma NumbersWeight(v: Value)
    ensures v.Int? ==> Weight(DecimalText(v.i)) == 0
    ensures v.Float? ==> Weight(FloatText(v.f)) == 0
  {
    hide Digits, FixedDigits, ExponentText, Floats.ToDecimal;
    match v
    case Int(i) => LightWeight(DecimalText(i));
    case Float(f) => LightWeight(FloatText(f));
    case _ =>
  }

  // ---------------------------------------------------------------- the cost of a value

  /** What the text of a value weighs if all names are escaped; fields and elements count with their separators. */
  function Cost(v: Value): nat
    decreases v, 0
  {
    match v
    case Null => Weight("null")
    case Bool(b) => Weight(if b then "true" else "false")
    case Str(s) => Weight(Quote(s))
    case Arr(es) => if es == [] then 2 else 1 + ElementsCost(es)
    case Obj(fs) => if fs == [] then 2 else 1 + FieldsCost(fs)
    case _ => 0
  }

  function ElementsCost(es: seq<Value>): nat
    decreases es, 0
  {
    if es == [] then 0 else Cost(es[0]) + 1 + ElementsCost(es[1..])
  }

  function FieldCost(f: Field): nat
    decreases f, 0
  {
    Weight(Quote(f.name)) + 1 + Cost(f.value) + 1
  }

  function FieldsCost(fs: seq<Field>): nat
    decreases fs, 0
  {
    if fs == [] then 0 else FieldCost(fs[0]) + FieldsCost(fs[1..])
  }

  lemma {:induction false} ElementsCostMore(es: seq<Value>, v: Value)
    ensures ElementsCost(es + [v]) == ElementsCost(es) + Cost(v) + 1
    decreases es
  {
    hide Cost;
    if es == [] {
      assert es + [v] == [v] && [v][1..] == [];
    } else {
      assert (es + [v])[0] == es[0] && (es + [v])[1..] == es[1..] + [v];
      ElementsCostMore(es[1..], v);
    }
  }

  lemma {:induction false} FieldsCostConcat(a: seq<Field>, b: seq<Field>)
    ensures FieldsCost(a + b) == FieldsCost(a) + FieldsCost(b)
    decreases a
  {
    hide FieldCost;
    if a == [] {
      assert a + b == b;
    } else {
      assert (a + b)[0] == a[0] && (a + b)[1..] == a[1..] + b;
      FieldsCostConcat(a[1..], b);
    }
  }

  lemma FieldsCostMore(fs: seq<Field>, f: Field)
    ensures FieldsCost(Ordered.Insert(FIELDS, fs, f)) == FieldsCost(fs) + FieldCost(f)
  {
    hide FieldCost;
    var r := Ordered.Rank(FIELDS, fs, FIELDS.keyOf(f));
    FieldsCostConcat(fs[..r] + [f], fs[r..]);
    FieldsCostConcat(fs[..r], [f]);
    FieldsCostConcat(fs[..r], fs[r..]);
    assert fs == fs[..r] + fs[r..] && [f][1..] == [];
  }

  // ---------------------------------------------------------------- reading

  lemma KeywordWeight(t: string, p: nat, word: string)
    requires p <= |t| && KeywordAt(t, p, word)
    ensures Ahead(t, p) == Weight(word) + Ahead(t, p + |word|)
  {
    hide Ahead;
    AheadHas(t, p, word);
  }

  lemma PunctuationWeight(t: string, p: nat)
    requires p < |t| && t[p] in {'{', '}', '[', ']', ',', ':'}
    ensures Ahead(t, p) == 1 + Ahead(t, p + 1)
  {
    hide Ahead;
    AheadStep(t, p);
  }

  /** What is read costs no more than the text it is read from weighs. */
  lemma {:induction false} ReadCosts(t: string, p: nat, depth: nat)
    requires p <= |t|
    ensures var r := ReadValue(t, p, depth); r.Got? ==> Ahead(t, p) >= Cost(r.value) + Ahead(t, r.next)
    decreases |t| - p, 2
  {
    hide Ahead, Weight, Quote, DecimalText, StringAt, NumberAt, KeywordAt, ReadArray, ReadObject, ElementsCost,
      FieldsCost;
    var q := Skip(t, p);
    AheadFalls(t, p, q);
    if At(t, q) == '{' {
      ReadObjectCosts(t, q, depth + 1);
    } else if At(t, q) == '[' {
      ReadArrayCosts(t, q, depth + 1);
    } else if KeywordAt(t, q, "null") {
      KeywordWeight(t, q, "null");
    } else if KeywordAt(t, q, "true") {
      KeywordWeight(t, q, "true");
    } else if KeywordAt(t, q, "false") {
      KeywordWeight(t, q, "false");
    } else if At(t, q) == '"' {
      if StringAt(t, q).Some? {
        StringWeight(t, q);
      }
    } else if NumberAt(t, q).Some? {
      AheadFalls(t, q, NumberAt(t, q).value.1);
    }
  }

  lemma {:induction false} ReadObjectCosts(t: string, p: nat, depth: nat)
    requires p <= |t| && At(t, p) == '{'
    ensures var r := ReadObject(t, p, depth); r.Some? ==> Ahead(t, p) >= Cost(Obj(r.value.0)) + Ahead(t, r.value.1)
    decreases |t| - p, 1
  {
    hide ReadFields, Ahead;
    PunctuationWeight(t, p);
    ReadFieldsCosts(t, p + 1, depth, [], true);
  }

  lemma {:induction false} ReadArrayCosts(t: string, p: nat, depth: nat)
    requires p <= |t| && At(t, p) == '['
    ensures var r := ReadArray(t, p, depth); r.Some? ==> Ahead(t, p) >= Cost(Arr(r.value.0)) + Ahead(t, r.value.1)
    decreases |t| - p, 1
  {
    hide ReadElements, Ahead;
    PunctuationWeight(t, p);
    ReadElementsCosts(t, p + 1, depth, [], true);
  }

  /** The first element has no separator. */
  lemma {:induction false} ReadElementsCosts(t: string, p: nat, depth: nat, es: seq<Value>, first: bool)
    requires p <= |t|
    ensures var r := ReadElements(t, p, depth, es, first);
      r.Some? ==>
        && Ahead(t, p) + ElementsCost(es) + (if first then 1 else 0) >=
             ElementsCost(r.value.0) + 1 + Ahead(t, r.value.1)
        && Ahead(t, p) >= 1 + Ahead(t, r.value.1)
    decreases |t| - p, if first then 4 else 3
  {
    hide ReadValue, ElementKind, Ahead, Cost, ElementsCost;
    var q := Skip(t, p);
    AheadFalls(t, p, q);
    if At(t, q) == ']' {
      PunctuationWeight(t, q);
    } else if first || At(t, q) == ',' {
      var start := if first then q else q + 1;
      if !first {
        PunctuationWeight(t, q);
      }
      var r := ReadValue(t, start, depth);
      if r.Got? {
        ReadCosts(t, start, depth);
        ElementsCostMore(es, r.value);
        ReadElementsCosts(t, r.next, depth, es + [r.value], false);
      }
    }
  }

  lemma {:induction false} ReadFieldsCosts(t: string, p: nat, depth: nat, fs: seq<Field>, first: bool)
    requires p <= |t|
    ensures var r := ReadFields(t, p, depth, fs, first);
      r.Some? ==>
        && Ahead(t, p) + FieldsCost(fs) + (if first then 1 else 0) >= FieldsCost(r.value.0) + 1 + Ahead(t, r.value.1)
        && Ahead(t, p) >= 1 + Ahead(t, r.value.1)
    decreases |t| - p, 3
  {
    hide ReadValue, StringAt, Ordered.Has, Ordered.Insert, Ahead, Cost, FieldsCost, Weight, Quote;
    var q := Skip(t, p);
    AheadFalls(t, p, q);
    if At(t, q) == '}' {
      PunctuationWeight(t, q);
    } else if first || At(t, q) == ',' {
      var comma := if first then q else q + 1;
      if !first {
        PunctuationWeight(t, q);
      }
      var start := Skip(t, comma);
      AheadFalls(t, comma, start);
      if StringAt(t, start).Some? {
        StringWeight(t, start);
        var (name, n) := StringAt(t, start).value;
        var c := Skip(t, n);
        AheadFalls(t, n, c);
        if At(t, c) == ':' && !Ordered.Has(FIELDS, fs, name) {
          PunctuationWeight(t, c);
          ReadCosts(t, c + 1, depth);
          var r := ReadValue(t, c + 1, depth);
          if r.Got? {
            var f := Field(name, r.value);
            FieldsCostMore(fs, f);
            ReadFieldsCosts(t, r.next, depth, if r.value.Null? then fs else Ordered.Insert(FIELDS, fs, f), false);
          }
        }
      }
    }
  }

  // ---------------------------------------------------------------- printing

  lemma {:induction false} NoWeight(s: string)
    requires forall i :: 0 <= i < |s| ==> s[i] == ' ' || s[i] == '\n'
    ensures Weight(s) == 0
  {
    if s != "" {
      NoWeight(s[1..]);
    }
  }

  /** Margins and line ends weigh nothing, punctuation one each. */
  lemma LayoutWeight(indent: int, first: bool)
    ensures Weight(Newline(indent)) == Weight(Margin(indent)) == Weight(ElementMargin(indent)) == 0
    ensures Weight(Separator(indent, first)) == (if first then 0 else 1) && Weight(Colon(indent)) == 1
    ensures Weight(ArrayEnd(indent)) == Weight(ObjectEnd(indent)) == 1
  {
    hide Weight;
    NoWeight(Newline(indent));
    NoWeight(Margin(indent));
    NoWeight(ElementMargin(indent));
    NoWeight("");
    NoWeight(" ");
    SolidWeight(",");
    SolidWeight(":");
    SolidWeight("]");
    SolidWeight("}");
    WeightConcat(",", Newline(indent));
    WeightConcat(":", " ");
    assert ":" + " " == ": ";
    var margin := if indent >= 0 then "\n" + Pad(indent * 2) else "";
    NoWeight(margin);
    WeightConcat(margin, "]");
    WeightConcat(Newline(indent) + Margin(indent), "}");
    WeightConcat(Newline(indent), Margin(indent));
  }

  lemma FieldTextWeight(fs: seq<Field>, indent: int, first: bool)
    requires fs != []
    ensures Weight(PrintFields(fs, indent, first)) ==
      (if first then 0 else 1) + 2 + Weight(fs[0].name) + 1 + Weight(Print(fs[0].value, Deeper(indent)))
        + Weight(PrintFields(fs[1..], indent, false))
  {
    hide Weight, Print, Separator, Margin, Colon;
    var name, rest := "\"" + fs[0].name + "\"", PrintFields(fs[1..], indent, false);
    var text := Print(fs[0].value, Deeper(indent));
    LayoutWeight(indent, first);
    LayoutWeight(Deeper(indent), first);
    WeightConcat(text, rest);
    WeightConcat(Colon(indent), text + rest);
    WeightConcat(name, Colon(indent) + (text + rest));
    WeightConcat(Margin(Deeper(indent)), name + (Colon(indent) + (text + rest)));
    WeightConcat(Separator(indent, first), Margin(Deeper(indent)) + (name + (Colon(indent) + (text + rest))));
    SolidWeight("\"");
    WeightConcat("\"" + fs[0].name, "\"");
    WeightConcat("\"", fs[0].name);
  }

  lemma ElementTextWeight(es: seq<Value>, indent: int, first: bool)
    requires es != []
    ensures Weight(PrintElements(es, indent, first)) ==
      (if first then 0 else 1) + Weight(Print(es[0], Deeper(indent))) + Weight(PrintElements(es[1..], indent, false))
  {
    hide Weight, Print, Separator, ElementMargin;
    var text, rest := Print(es[0], Deeper(indent)), PrintElements(es[1..], indent, false);
    LayoutWeight(indent, first);
    WeightConcat(text, rest);
    WeightConcat(ElementMargin(indent), text + rest);
    WeightConcat(Separator(indent, first), ElementMargin(indent) + (text + rest));
  }

  /** A printed value weighs no more than it costs, and less if one of its names has to be escaped. */
  lemma {:induction false} PrintWeight(v: Value, indent: int)
    requires WellFormed(v)
    ensures Weight(Print(v, indent)) <= Cost(v) && (Weight(Print(v, indent)) == Cost(v) ==> PlainNames(v))
    decreases v, 1
  {
    hide Weight, PrintElements, PrintFields, ElementsCost, FieldsCost, Quote, DecimalText, PlainName;
    match v
    case Arr(es) =>
      BracketsWeight();
      ListWeight('[', ']', indent, PrintElements(es, indent, true));
      if es != [] {
        PrintElementsWeight(es, indent, true);
      }
    case Obj(fs) =>
      BracketsWeight();
      ListWeight('{', '}', indent, PrintFields(fs, indent, true));
      if fs != [] {
        PrintFieldsWeight(fs, indent, true);
      }
    case _ => NumbersWeight(v);
  }

  lemma ListWeight(open: char, close: char, indent: int, text: string)
    requires CharWeight(open) == CharWeight(close) == 1
    ensures Weight([open, close]) == 2 && Weight([open] + (Newline(indent) + text)) == 1 + Weight(text)
  {
    hide Weight, Newline, CharWeight;
    SolidWeight([open]);
    SolidWeight([open, close]);
    LayoutWeight(indent, true);
    WeightConcat([open], Newline(indent) + text);
    WeightConcat(Newline(indent), text);
  }

  lemma BracketsWeight()
    ensures CharWeight('[') == CharWeight(']') == CharWeight('{') == CharWeight('}') == 1
  {
  }

  lemma {:induction false} PrintElementsWeight(es: seq<Value>, indent: int, first: bool)
    requires forall i :: 0 <= i < |es| ==> WellFormed(es[i])
    ensures
      var w := Weight(PrintElements(es, indent, first));
      var cost := ElementsCost(es) + if first && es != [] then 0 else 1;
      w <= cost && (w == cost ==> forall i :: 0 <= i < |es| ==> PlainNames(es[i]))
    decreases es, 0
  {
    hide Weight, Print, Cost, WellFormed, PlainNames;
    if es == [] {
      LayoutWeight(indent, first);
    } else {
      ElementTextWeight(es, indent, first);
      PrintWeight(es[0], Deeper(indent));
      PrintElementsWeight(es[1..], indent, false);
      assert forall i :: 1 <= i < |es| ==> es[i] == es[1..][i-1];
    }
  }

  lemma {:induction false} PrintFieldsWeight(fs: seq<Field>, indent: int, first: bool)
    requires forall i :: 0 <= i < |fs| ==> WellFormedField(fs[i])
    ensures
      var w := Weight(PrintFields(fs, indent, first));
      var cost := FieldsCost(fs) + if first && fs != [] then 0 else 1;
      w <= cost && (w == cost ==> forall i :: 0 <= i < |fs| ==> PlainName(fs[i]))
    decreases fs, 0
  {
    hide Weight, Print, Cost, WellFormed, PlainNames, Quote, Plain;
    if fs == [] {
      LayoutWeight(indent, first);
    } else {
      FieldTextWeight(fs, indent, first);
      QuoteWeight(fs[0].name);
      EscapeWeight(fs[0].name);
      PrintWeight(fs[0].value, Deeper(indent));
      PrintFieldsWeight(fs[1..], indent, false);
      assert forall i :: 1 <= i < |fs| ==> fs[i] == fs[1..][i-1];
    }
  }

  // ---------------------------------------------------------------- the round trip

  lemma {:induction false} PlainPrintable(v: Value)
    requires PlainNames(v)
    ensures Printable(v)
    decreases v
  {
    match v
    case Arr(es) =>
      forall i | 0 <= i < |es| ensures Printable(es[i]) {
        PlainPrintable(es[i]);
      }
    case Obj(fs) =>
      forall i | 0 <= i < |fs| ensures Unquoted(fs[i].name) && Printable(fs[i].value) {
        assert PlainName(fs[i]);
        PlainPrintable(fs[i].value);
      }
    case _ =>
  }

  lemma {:induction false} LegalPlain(v: Value, depth: nat)
    requires Legal(v, depth)
    ensures PlainNames(v)
    decreases v
  {
    hide Utf8.Valid;
    match v
    case Arr(es) =>
      forall i | 0 <= i < |es| ensures PlainNames(es[i]) {
        LegalPlain(es[i], depth + 1);
      }
    case Obj(fs) =>
      forall i | 0 <= i < |fs| ensures PlainName(fs[i]) {
        LegalPlain(fs[i].value, depth + 1);
      }
    case _ =>
  }

  /** Only objects whose names need no escape are read back as they were printed. */
  lemma OnlyPlain(fs: seq<Field>, indent: int)
    requires WellFormed(Obj(fs)) && Parse(PrintObject(fs, indent)) == Some(fs)
    ensures PlainNames(Obj(fs))
  {
    hide ReadObject, PrintObject, WellFormed, PlainNames, Weight, Cost;
    var t := PrintObject(fs, indent);
    PrintWeight(Obj(fs), indent);
    StartsWithBrace(t);
    ReadObjectCosts(t, Skip(t, 0), 0);
    assert t[0..] == t;
    AheadFalls(t, 0, Skip(t, 0));
  }

  /** Fields without their like cost no more than a list in which they all are. */
  lemma {:induction false} SubsetCost(fs: seq<Field>, gs: seq<Field>)
    requires forall i, j :: 0 <= i < j < |fs| ==> fs[i] != fs[j]
    requires forall i :: 0 <= i < |fs| ==> fs[i] in gs
    ensures FieldsCost(fs) <= FieldsCost(gs)
    decreases fs
  {
    hide FieldCost;
    if fs != [] {
      var k :| 0 <= k < |gs| && gs[k] == fs[0];
      var rest := gs[..k] + gs[k+1..];
      assert gs == gs[..k] + ([gs[k]] + gs[k+1..]);
      FieldsCostConcat(gs[..k], [gs[k]] + gs[k+1..]);
      FieldsCostConcat([gs[k]], gs[k+1..]);
      FieldsCostConcat(gs[..k], gs[k+1..]);
      assert [gs[k]][1..] == [];
      forall i | 0 <= i < |fs[1..]| ensures fs[1..][i] in rest {
        assert fs[1..][i] == fs[i+1] != fs[0];
      }
      SubsetCost(fs[1..], rest);
    }
  }

  /** A text in which all fields of an object are read, and perhaps more, is that of an object whose names need no
      escape. */
  lemma NothingAdded(fs: seq<Field>, indent: int, gs: seq<Field>)
    requires WellFormed(Obj(fs)) && Parse(PrintObject(fs, indent)) == Some(gs)
    requires forall i :: 0 <= i < |fs| ==> fs[i] in gs
    ensures PlainNames(Obj(fs)) && gs == fs
  {
    hide ReadObject, PrintObject, WellFormed, PlainNames, Weight, FieldsCost;
    var t := PrintObject(fs, indent);
    PrintWeight(Obj(fs), indent);
    StartsWithBrace(t);
    ReadObjectCosts(t, Skip(t, 0), 0);
    assert t[0..] == t;
    AheadFalls(t, 0, Skip(t, 0));
    WellFormedDistinct(fs);
    SubsetCost(fs, gs);
    if fs == [] {
      NoNames();
    }
    PlainPrintable(Obj(fs));
    RoundTrip(fs, indent);
  }

  lemma NoNames()
    ensures PlainNames(Obj([]))
  {
  }

  lemma WellFormedDistinct(fs: seq<Field>)
    requires WellFormed(Obj(fs))
    ensures forall i, j :: 0 <= i < j < |fs| ==> fs[i] != fs[j]
  {
    hide WellFormedField;
    FieldsLawful();
  }

  lemma StartsWithBrace(t: string)
    requires Parse(t).Some?
    ensures At(t, Skip(t, 0)) == '{' && ReadObject(t, Skip(t, 0), 0) == ReadObject(t, 0, 0)
  {
    hide ReadFields;
  }

  /** The law of printing and parsing, for every object and every indentation: the object is read
      back exactly when its strings and names are valid UTF-8, no name holds a byte that would have to be escaped,
      and nesting stays below MAX_DEPTH. */
  lemma RoundTripExactly(fs: seq<Field>, indent: int)
    requires WellFormed(Obj(fs))
    ensures Parse(PrintObject(fs, indent)) == Some(fs) <==> LegalFields(fs, 0)
  {
    hide Parse, PrintObject, WellFormed, Printable, PlainNames, LegalField;
    if Parse(PrintObject(fs, indent)) == Some(fs) {
      OnlyPlain(fs, indent);
      PlainPrintable(Obj(fs));
      RoundTrip(fs, indent);
    } else if LegalFields(fs, 0) {
      LegalFieldsPlain(fs);
      PlainPrintable(Obj(fs));
      RoundTrip(fs, indent);
    }
  }

  lemma LegalFieldsPlain(fs: seq<Field>)
    requires LegalFields(fs, 0)
    ensures PlainNames(Obj(fs))
  {
    hide Legal;
    forall i | 0 <= i < |fs| ensures PlainName(fs[i]) {
      assert LegalField(fs[i], 0);
      LegalPlain(fs[i].value, 0);
    }
  }

  /** An accepted document is unchanged by printing and parsing exactly when its names need no escape. */
  lemma ParsePrintParseExactly(t: string, indent: int)
    requires Parse(t).Some?
    ensures Parse(PrintObject(Parse(t).value, indent)) == Parse(t) <==> PlainNames(Obj(Parse(t).value))
  {
    hide Parse, PrintObject;
    var fs := Parse(t).value;
    AcceptedIsGood(t);
    RoundTripExactly(fs, indent);
    if PlainNames(Obj(fs)) {
      forall i | 0 <= i < |fs| ensures LegalField(fs[i], 0) {
        assert SoundField(fs[i], 0) && PlainName(fs[i]);
        SoundIsLegal(fs[i].value, 0);
      }
    } else if LegalFields(fs, 0) {
      LegalFieldsPlain(fs);
    }
  }
}
