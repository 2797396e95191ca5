/** Sequences kept in the order of a comparison function: the abstract view of every map in the library. */
module Ordered {

  /** A comparison of a search key with a stored value, and the key a value is filed under. */
  datatype Order<!K, !V> = Order(compare: (K, V) -> int, keyOf: V -> K)

  /** Names a triple at which the transitivity laws below are to be used. */
  ghost predicate Triple<K, V>(k: K, a: V, b: V) { true }

  /** What a comparison function owes its map: a key matches exactly its own values, and the sign of the
      comparison is a strict linear order. */
  ghost predicate Lawful<K(!new), V(!new)>(o: Order<K, V>) {
    && (forall k, v {:trigger o.compare(k, v)} :: o.compare(k, v) == 0 <==> k == o.keyOf(v))
    && (forall a, b {:trigger o.compare(o.keyOf(a), b)} ::
          o.compare(o.keyOf(a), b) < 0 <==> o.compare(o.keyOf(b), a) > 0)
    && (forall k, a, b {:trigger Triple(k, a, b)} :: Triple(k, a, b) ==>
          (o.compare(k, a) <= 0 && o.compare(o.keyOf(a), b) < 0 ==> o.compare(k, b) < 0) &&
          (o.compare(k, a) >= 0 && o.compare(o.keyOf(a), b) > 0 ==> o.compare(k, b) > 0))
  }

  lemma Chain<K(!new), V(!new)>(o: Order<K, V>, k: K, a: V, b: V)
    requires Lawful(o)
    ensures o.compare(k, a) <= 0 && o.compare(o.keyOf(a), b) < 0 ==> o.compare(k, b) < 0
    ensures o.compare(k, a) >= 0 && o.compare(o.keyOf(a), b) > 0 ==> o.compare(k, b) > 0
    ensures o.compare(k, a) >= 0 && o.compare(o.keyOf(b), a) < 0 ==> o.compare(k, b) > 0
  {
    assert Triple(k, a, b);
  }

  ghost predicate Before<K, V>(o: Order<K, V>, a: V, b: V) {
    o.compare(o.keyOf(a), b) < 0
  }

  ghost predicate Sorted<K, V>(o: Order<K, V>, c: seq<V>) {
    forall i, j :: 0 <= i < j < |c| ==> Before(o, c[i], c[j])
  }

  /** The number of leading elements that lie before `k`. */
  function Rank<K, V>(o: Order<K, V>, c: seq<V>, k: K): (r: nat)
    ensures r <= |c|
    ensures forall i :: 0 <= i < r ==> o.compare(k, c[i]) > 0
    ensures r < |c| ==> o.compare(k, c[r]) <= 0
  {
    if c == [] || o.compare(k, c[0]) <= 0 then 0 else 1 + Rank(o, c[1..], k)
  }

  predicate Has<K, V>(o: Order<K, V>, c: seq<V>, k: K) {
    var r := Rank(o, c, k);
    r < |c| && o.compare(k, c[r]) == 0
  }

  function Insert<K, V>(o: Order<K, V>, c: seq<V>, v: V): seq<V> {
    var r := Rank(o, c, o.keyOf(v));
    c[..r] + [v] + c[r..]
  }

  function Remove<K, V>(o: Order<K, V>, c: seq<V>, k: K): seq<V> {
    var r := Rank(o, c, k);
    if Has(o, c, k) then c[..r] + c[r+1..] else c
  }

  /** Stores another value under a key that is present. */
  function Replace<K, V>(o: Order<K, V>, c: seq<V>, v: V): seq<V>
    requires Has(o, c, o.keyOf(v))
  {
    c[Rank(o, c, o.keyOf(v)) := v]
  }

  /** A rank is determined by what `Rank` promises. */
  lemma RankUnique<K, V>(o: Order<K, V>, c: seq<V>, k: K, r: nat)
    requires r <= |c|
    requires forall i :: 0 <= i < r ==> o.compare(k, c[i]) > 0
    requires r < |c| ==> o.compare(k, c[r]) <= 0
    ensures Rank(o, c, k) == r
  {
  }

  lemma SortedParts<K, V>(o: Order<K, V>, a: seq<V>, b: seq<V>)
    requires Sorted(o, a + b)
    ensures Sorted(o, a) && Sorted(o, b)
    ensures forall i, j :: 0 <= i < |a| && 0 <= j < |b| ==> Before(o, a[i], b[j])
  {
    var c := a + b;
    forall i, j | 0 <= i < j < |a| ensures Before(o, a[i], a[j]) {
      assert c[i] == a[i] && c[j] == a[j];
    }
    forall i, j | 0 <= i < j < |b| ensures Before(o, b[i], b[j]) {
      assert c[|a| + i] == b[i] && c[|a| + j] == b[j];
    }
    forall i, j | 0 <= i < |a| && 0 <= j < |b| ensures Before(o, a[i], b[j]) {
      assert c[i] == a[i] && c[|a| + j] == b[j];
    }
  }

  lemma SortedJoin<K, V>(o: Order<K, V>, a: seq<V>, b: seq<V>)
    requires Sorted(o, a) && Sorted(o, b)
    requires forall i, j :: 0 <= i < |a| && 0 <= j < |b| ==> Before(o, a[i], b[j])
    ensures Sorted(o, a + b)
  {
  }

  /** Rank in a sequence split at an element: the search goes to one side only. */
  lemma RankSplit<K(!new), V(!new)>(o: Order<K, V>, a: seq<V>, v: V, b: seq<V>, k: K)
    requires Lawful(o) && Sorted(o, a + [v] + b)
    ensures o.compare(k, v) <= 0 ==> Rank(o, a + [v] + b, k) == Rank(o, a, k)
    ensures o.compare(k, v) > 0 ==> Rank(o, a + [v] + b, k) == |a| + 1 + Rank(o, b, k)
  {
    var c := a + [v] + b;
    if o.compare(k, v) <= 0 {
      RankUnique(o, c, k, Rank(o, a, k));
    } else {
      var r := Rank(o, b, k);
      SortedParts(o, a + [v], b);
      SortedParts(o, a, [v]);
      forall i | 0 <= i < |a| ensures o.compare(k, a[i]) > 0 {
        assert Before(o, a[i], [v][0]);
        Chain(o, k, v, a[i]);
      }
      RankUnique(o, c, k, |a| + 1 + r);
    }
  }

  /** Membership in a sequence split at an element. */
  lemma HasSplit<K(!new), V(!new)>(o: Order<K, V>, a: seq<V>, v: V, b: seq<V>, k: K)
    requires Lawful(o) && Sorted(o, a + [v] + b)
    ensures o.compare(k, v) == 0 ==> Has(o, a + [v] + b, k)
    ensures o.compare(k, v) < 0 ==> (Has(o, a + [v] + b, k) <==> Has(o, a, k))
    ensures o.compare(k, v) > 0 ==> (Has(o, a + [v] + b, k) <==> Has(o, b, k))
  {
    RankSplit(o, a, v, b, k);
    if o.compare(k, v) == 0 {
      RankEnd(o, a, v, b, k);
    }
  }

  lemma SliceLeft<V>(a: seq<V>, w: seq<V>, r: nat)
    requires r <= |a|
    ensures (a + w)[..r] == a[..r] && (a + w)[r..] == a[r..] + w
  {
  }

  lemma SliceRight<V>(a: seq<V>, w: seq<V>, q: nat)
    requires q <= |w|
    ensures (a + w)[..|a| + q] == a + w[..q] && (a + w)[|a| + q..] == w[q..]
  {
  }

  /** Insertion into a sequence split at an element, on the side the comparison names. */
  lemma InsertLeft<K(!new), V(!new)>(o: Order<K, V>, a: seq<V>, v: V, b: seq<V>, x: V)
    requires Lawful(o) && Sorted(o, a + [v] + b) && o.compare(o.keyOf(x), v) < 0
    ensures Insert(o, a + [v] + b, x) == Insert(o, a, x) + [v] + b
  {
    RankSplit(o, a, v, b, o.keyOf(x));
    assert a + [v] + b == a + ([v] + b);
    SliceLeft(a, [v] + b, Rank(o, a, o.keyOf(x)));
  }

  lemma InsertRight<K(!new), V(!new)>(o: Order<K, V>, a: seq<V>, v: V, b: seq<V>, x: V)
    requires Lawful(o) && Sorted(o, a + [v] + b) && o.compare(o.keyOf(x), v) > 0
    ensures Insert(o, a + [v] + b, x) == a + [v] + Insert(o, b, x)
  {
    RankSplit(o, a, v, b, o.keyOf(x));
    SliceRight(a + [v], b, Rank(o, b, o.keyOf(x)));
  }

  /** A key that matches the splitting element is found right there. */
  lemma RankEnd<K(!new), V(!new)>(o: Order<K, V>, a: seq<V>, v: V, b: seq<V>, k: K)
    requires Lawful(o) && Sorted(o, a + [v] + b) && o.compare(k, v) == 0
    ensures Rank(o, a + [v] + b, k) == |a|
  {
    SortedParts(o, a + [v], b);
    SortedParts(o, a, [v]);
    forall i | 0 <= i < |a| ensures o.compare(k, a[i]) > 0 {
      assert Before(o, a[i], [v][0]);
      Chain(o, k, v, a[i]);
    }
    RankUnique(o, a + [v] + b, k, |a|);
  }

  /** Removing the key of an element takes out that element and nothing else. */
  lemma RemoveAt<K(!new), V(!new)>(o: Order<K, V>, a: seq<V>, v: V, b: seq<V>, k: K)
    requires Lawful(o) && Sorted(o, a + [v] + b) && o.compare(k, v) == 0
    ensures Has(o, a + [v] + b, k) && Remove(o, a + [v] + b, k) == a + b
  {
    RankEnd(o, a, v, b, k);
  }

  /** Every element from the rank of a key on lies after the key, unless it carries that key. */
  lemma RankAfter<K(!new), V(!new)>(o: Order<K, V>, c: seq<V>, k: K, i: nat)
    requires Lawful(o) && Sorted(o, c)
    requires Rank(o, c, k) <= i < |c|
    ensures (i == Rank(o, c, k) && Has(o, c, k)) || o.compare(k, c[i]) < 0
  {
    var r := Rank(o, c, k);
    if r < i {
      assert Before(o, c[r], c[i]);
      Chain(o, k, c[r], c[i]);
    }
  }

  /** In a sorted sequence `Has` finds a key wherever it is. */
  lemma HasIff<K(!new), V(!new)>(o: Order<K, V>, c: seq<V>, k: K)
    requires Lawful(o) && Sorted(o, c)
    ensures Has(o, c, k) <==> exists i :: 0 <= i < |c| && o.keyOf(c[i]) == k
  {
    if i :| 0 <= i < |c| && o.keyOf(c[i]) == k {
      if Rank(o, c, k) <= i {
        RankAfter(o, c, k, i);
      }
    }
  }

  lemma SortedSplice<K, V>(o: Order<K, V>, a: seq<V>, v: V, b: seq<V>)
    requires Sorted(o, a + b)
    requires forall i :: 0 <= i < |a| ==> Before(o, a[i], v)
    requires forall i :: 0 <= i < |b| ==> Before(o, v, b[i])
    ensures Sorted(o, a + [v] + b)
  {
    SortedParts(o, a, b);
  }

  /** Inserting a new key keeps the order. */
  lemma InsertSorted<K(!new), V(!new)>(o: Order<K, V>, c: seq<V>, v: V)
    requires Lawful(o) && Sorted(o, c) && !Has(o, c, o.keyOf(v))
    ensures Sorted(o, Insert(o, c, v))
  {
    hide Sorted, Rank;
    var k := o.keyOf(v);
    var r := Rank(o, c, k);
    var a, b := c[..r], c[r..];
    assert a + b == c;
    forall i | 0 <= i < |b| ensures Before(o, v, b[i]) {
      RankAfter(o, c, k, r + i);
    }
    forall i | 0 <= i < |a| ensures Before(o, a[i], v) {
      assert o.compare(k, a[i]) > 0;
    }
    SortedSplice(o, a, v, b);
  }

  lemma SortedWithout<K, V>(o: Order<K, V>, a: seq<V>, v: V, b: seq<V>)
    requires Sorted(o, a + [v] + b)
    ensures Sorted(o, a + b)
  {
    SortedParts(o, a + [v], b);
    SortedParts(o, a, [v]);
    forall i, j | 0 <= i < |a| && 0 <= j < |b| ensures Before(o, a[i], b[j]) {
      assert Before(o, (a + [v])[i], b[j]);
    }
    SortedJoin(o, a, b);
  }

  lemma RemoveSorted<K(!new), V(!new)>(o: Order<K, V>, c: seq<V>, k: K)
    requires Lawful(o) && Sorted(o, c)
    ensures Sorted(o, Remove(o, c, k))
    ensures !Has(o, Remove(o, c, k), k)
  {
    hide Sorted, Rank;
    if Has(o, c, k) {
      var r := Rank(o, c, k);
      assert c == c[..r] + [c[r]] + c[r+1..];
      SortedWithout(o, c[..r], c[r], c[r+1..]);
      var d := Remove(o, c, k);
      if r < |d| {
        RankAfter(o, c, k, r + 1);
      }
      RankUnique(o, d, k, r);
    }
  }

  /** Removing what was just inserted gives back the original map. */
  lemma RemoveInsert<K(!new), V(!new)>(o: Order<K, V>, c: seq<V>, v: V)
    requires Lawful(o) && !Has(o, c, o.keyOf(v))
    ensures Has(o, Insert(o, c, v), o.keyOf(v))
    ensures Remove(o, Insert(o, c, v), o.keyOf(v)) == c
  {
    var k := o.keyOf(v);
    var r := Rank(o, c, k);
    var d := Insert(o, c, v);
    assert o.compare(k, v) == 0;
    RankUnique(o, d, k, r);
    assert d[..r] == c[..r] && d[r+1..] == c[r..];
  }

  /** A value that comes after everything stored is appended. */
  lemma InsertLast<K(!new), V(!new)>(o: Order<K, V>, c: seq<V>, v: V)
    requires Lawful(o) && Sorted(o, c + [v])
    ensures !Has(o, c, o.keyOf(v)) && Insert(o, c, v) == c + [v]
  {
    SortedParts(o, c, [v]);
    forall i | 0 <= i < |c| ensures o.compare(o.keyOf(v), c[i]) > 0 {
      assert Before(o, c[i], [v][0]);
    }
    RankUnique(o, c, o.keyOf(v), |c|);
  }

  /** A sorted sequence is determined by its elements, whatever history of insertions and removals led to it. */
  lemma {:induction false} SortedCanonical<K(!new), V(!new)>(o: Order<K, V>, c: seq<V>, d: seq<V>)
    requires Lawful(o) && Sorted(o, c) && Sorted(o, d)
    requires forall v :: v in c <==> v in d
    ensures c == d
  {
    if d != [] { HasMember(d); }
    if c != [] {
      HasMember(c);
      FirstIsLeast(o, c, d);
      FirstIsLeast(o, d, c);
      assert c[0] == d[0];
      assert c == [c[0]] + c[1..] && d == [d[0]] + d[1..];
      SortedParts(o, [c[0]], c[1..]);
      SortedParts(o, [d[0]], d[1..]);
      forall v ensures v in c[1..] <==> v in d[1..] {
        TailMembers(o, c, v);
        TailMembers(o, d, v);
      }
      SortedCanonical(o, c[1..], d[1..]);
    }
  }

  lemma HasMember<V>(c: seq<V>)
    requires c != []
    ensures exists v :: v in c
  {
    assert c[0] in c;
  }

  lemma FirstIsLeast<K(!new), V(!new)>(o: Order<K, V>, c: seq<V>, d: seq<V>)
    requires Lawful(o) && Sorted(o, c) && c != [] && d != []
    requires forall v :: v in d ==> v in c
    ensures d[0] == c[0] || Before(o, c[0], d[0])
  {
    assert d[0] in c;
    var i :| 0 <= i < |c| && c[i] == d[0];
    if i != 0 { assert Before(o, c[0], c[i]); }
  }

  lemma TailMembers<K(!new), V(!new)>(o: Order<K, V>, c: seq<V>, v: V)
    requires Lawful(o) && Sorted(o, c) && c != []
    ensures v in c[1..] <==> v in c && v != c[0]
  {
    if v in c[1..] {
      var i :| 0 <= i < |c[1..]| && c[1..][i] == v;
      assert Before(o, c[0], c[i+1]);
    }
  }

  /** Values under the same key take the same place among the others. */
  lemma SameKeyOrder<K(!new), V(!new)>(o: Order<K, V>, v: V, w: V, x: V)
    requires Lawful(o) && o.keyOf(v) == o.keyOf(w)
    ensures Before(o, v, x) <==> Before(o, w, x)
    ensures Before(o, x, v) <==> Before(o, x, w)
  {
  }

  lemma ReplaceSorted<K(!new), V(!new)>(o: Order<K, V>, a: seq<V>, v: V, b: seq<V>, w: V)
    requires Lawful(o) && Sorted(o, a + [v] + b) && o.keyOf(v) == o.keyOf(w)
    ensures Sorted(o, a + [w] + b)
    ensures Has(o, a + [v] + b, o.keyOf(w)) && Replace(o, a + [v] + b, w) == a + [w] + b
  {
    RankEnd(o, a, v, b, o.keyOf(w));
    SortedParts(o, a + [v], b);
    SortedParts(o, a, [v]);
    forall i | 0 <= i < |a| ensures Before(o, a[i], w) {
      assert Before(o, a[i], [v][0]);
      SameKeyOrder(o, v, w, a[i]);
    }
    forall i | 0 <= i < |b| ensures Before(o, w, b[i]) {
      assert Before(o, (a + [v])[|a|], b[i]);
      SameKeyOrder(o, v, w, b[i]);
    }
    SortedWithout(o, a, v, b);
    SortedSplice(o, a, w, b);
  }

  /** Inserting a value and then replacing it is inserting the replacement. */
  lemma ReplaceInserted<K(!new), V(!new)>(o: Order<K, V>, c: seq<V>, v: V, w: V)
    requires Lawful(o) && !Has(o, c, o.keyOf(v)) && o.keyOf(v) == o.keyOf(w)
    ensures Has(o, Insert(o, c, v), o.keyOf(w)) && Replace(o, Insert(o, c, v), w) == Insert(o, c, w)
  {
    RemoveInsert(o, c, v);
    RankUnique(o, Insert(o, c, v), o.keyOf(w), Rank(o, c, o.keyOf(v)));
  }
}
