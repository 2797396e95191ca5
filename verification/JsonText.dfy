/** What the printer never puts into its output. */
module JsonText {
  import opened Text
  import opened Literals
  import opened Json
  import opened JsonRoundTrip
  import Floats
  import Ordered

  lemma NulFreeConcat(a: string, b: string)
    ensures NulFree(a + b) <==> NulFree(a) && NulFree(b)
  {
    assert forall i :: 0 <= i < |a| ==> a[i] == (a + b)[i];
    assert forall i :: 0 <= i < |b| ==> b[i] == (a + b)[|a| + i];
  }

  lemma {:induction false} EscapeNulFree(s: string)
    requires NulFree(s)
    ensures NulFree(Escape(s))
  {
    if s != "" {
      EscapeNulFree(s[1..]);
      NulFreeConcat(EscapeChar(s[0]), Escape(s[1..]));
    }
  }

  lemma FloatNulFree(f: Floats.Float)
    ensures NulFree(FloatText(f))
  {
    hide FixedDigits, ExponentText, Floats.ToDecimal;
    var (n, e) := Floats.ToDecimal(f);
    var s, x := FixedDigits(n, 1 + Floats.DECIMAL_DIG), ExponentText(e);
    assert NulFree(s[..1]) && NulFree(s[1..]) && NulFree(x);
    NulFreeConcat("e", x);
    NulFreeConcat(s[1..], "e" + x);
    NulFreeConcat(".", s[1..] + ("e" + x));
    NulFreeConcat(s[..1], "." + (s[1..] + ("e" + x)));
    NulFreeConcat(if f.negative then "-" else "", s[..1] + ("." + (s[1..] + ("e" + x))));
  }

  lemma LayoutNulFree(indent: int, first: bool)
    ensures NulFree(Separator(indent, first)) && NulFree(ElementMargin(indent)) && NulFree(Margin(indent))
    ensures NulFree(Newline(indent)) && NulFree(Colon(indent)) && NulFree(ArrayEnd(indent))
      && NulFree(ObjectEnd(indent))
  {
  }

  lemma {:induction false} PrintNulFree(v: Value, indent: int)
    requires WellFormed(v)
    ensures NulFree(Print(v, indent))
    decreases v, 0
  {
    match v
    case Str(s) => EscapeNulFree(s);
    case Int(i) =>
    case Float(f) => FloatNulFree(f);
    case Arr(es) =>
      if es != [] {
        PrintElementsNulFree(es, indent, true);
        LayoutNulFree(indent, true);
        NulFreeConcat(Newline(indent), PrintElements(es, indent, true));
      }
    case Obj(fs) => PrintObjectNulFree(fs, indent);
    case _ =>
  }

  /** The text of an object has no NUL, so that one can follow it on the wire. */
  lemma {:induction false} PrintObjectNulFree(fs: seq<Field>, indent: int)
    requires forall f <- fs :: WellFormedField(f)
    ensures NulFree(PrintObject(fs, indent))
    decreases fs, 1
  {
    hide PrintFields;
    if fs != [] {
      PrintFieldsNulFree(fs, indent, true);
      LayoutNulFree(indent, true);
      NulFreeConcat(Newline(indent), PrintFields(fs, indent, true));
    }
  }

  lemma {:induction false} PrintElementsNulFree(es: seq<Value>, indent: int, first: bool)
    requires forall v <- es :: WellFormed(v)
    ensures NulFree(PrintElements(es, indent, first))
    decreases es, 0
  {
    hide WellFormed, Print, Separator, ElementMargin, ArrayEnd;
    LayoutNulFree(indent, first);
    if es != [] {
      PrintNulFree(es[0], Deeper(indent));
      PrintElementsNulFree(es[1..], indent, false);
      var rest := PrintElements(es[1..], indent, false);
      NulFreeConcat(Print(es[0], Deeper(indent)), rest);
      NulFreeConcat(ElementMargin(indent), Print(es[0], Deeper(indent)) + rest);
      NulFreeConcat(Separator(indent, first), ElementMargin(indent) + (Print(es[0], Deeper(indent)) + rest));
    }
  }

  lemma {:induction false} PrintFieldsNulFree(fs: seq<Field>, indent: int, first: bool)
    requires forall f <- fs :: WellFormedField(f)
    ensures NulFree(PrintFields(fs, indent, first))
    decreases fs, 0
  {
    hide WellFormed, Print, Separator, Margin, ObjectEnd, Colon;
    LayoutNulFree(indent, first);
    if fs != [] {
      assert WellFormedField(fs[0]);
      LayoutNulFree(Deeper(indent), first);
      PrintNulFree(fs[0].value, Deeper(indent));
      PrintFieldsNulFree(fs[1..], indent, false);
      var e, f := Print(fs[0].value, Deeper(indent)), PrintFields(fs[1..], indent, false);
      var name := "\"" + fs[0].name + "\"";
      NulFreeConcat(e, f);
      NulFreeConcat(Colon(indent), e + f);
      NulFreeConcat(name, Colon(indent) + (e + f));
      NulFreeConcat(Margin(Deeper(indent)), name + (Colon(indent) + (e + f)));
      NulFreeConcat(Separator(indent, first), Margin(Deeper(indent)) + (name + (Colon(indent) + (e + f))));
    }
  }

  /** What is printed depends on the fields an object has, not on how it came to have them. */
  lemma PrintIsCanonical(a: seq<Field>, b: seq<Field>, indent: int)
    requires Ordered.Sorted(FIELDS, a) && Ordered.Sorted(FIELDS, b) && forall f :: f in a <==> f in b
    ensures PrintObject(a, indent) == PrintObject(b, indent)
  {
    FieldsLawful();
    Ordered.SortedCanonical(FIELDS, a, b);
  }
}
