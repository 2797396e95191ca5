/** Maps whose keys are names, compared with `strcmp`. */
module Names {
  import opened Text
  import opened Ordered

  function ByName<V(!new)>(nameOf: V -> string): Order<string, V> {
    Order((k: string, v: V) => StrCmp(k, nameOf(v)), nameOf)
  }

  /** The order of `strcmp` is fit for a map. */
  lemma ByNameLawful<V(!new)>(nameOf: V -> string)
    ensures Lawful(ByName(nameOf))
  {
    var o := ByName(nameOf);
    forall k, v: V ensures o.compare(k, v) == 0 <==> k == o.keyOf(v) {
      StrCmpEqual(k, nameOf(v));
    }
    forall a: V, b: V ensures o.compare(o.keyOf(a), b) < 0 <==> o.compare(o.keyOf(b), a) > 0 {
      StrCmpSign(nameOf(a), nameOf(b));
    }
    forall k, a: V, b: V
      ensures o.compare(k, a) <= 0 && o.compare(o.keyOf(a), b) < 0 ==> o.compare(k, b) < 0
      ensures o.compare(k, a) >= 0 && o.compare(o.keyOf(a), b) > 0 ==> o.compare(k, b) > 0
    {
      StrCmpTransitive(k, nameOf(a), nameOf(b));
    }
  }
}
