/** C strings: reading at an index, matching a literal, and the order of `strcmp`. */
module Text {

  datatype Option<+T> = None | Some(value: T)

  /** The byte at `i`; a string is followed by its terminating NUL. */
  function At(t: string, i: nat): char {
    if i < |t| then t[i] else '\0'
  }

  predicate Has(t: string, p: nat, w: string) {
    p + |w| <= |t| && t[p..p + |w|] == w
  }

  lemma HasConcat(t: string, p: nat, a: string, b: string)
    ensures Has(t, p, a + b) <==> Has(t, p, a) && Has(t, p + |a|, b)
  {
    if p + |a| + |b| <= |t| {
      var s := t[p..p + |a + b|];
      assert s[..|a|] == t[p..p + |a|] && s[|a|..] == t[p + |a|..p + |a| + |b|];
      assert (a + b)[..|a|] == a && (a + b)[|a|..] == b;
      assert s == s[..|a|] + s[|a|..];
    }
  }

  lemma HasAt(t: string, p: nat, w: string, i: nat)
    requires Has(t, p, w) && i < |w|
    ensures At(t, p + i) == w[i]
  {
    assert t[p..p + |w|][i] == w[i];
  }

  lemma HasStarts(t: string, p: nat, w: string)
    requires w != ""
    ensures Has(t, p, w) ==> At(t, p) == w[0]
  {
    if Has(t, p, w) { HasAt(t, p, w, 0); }
  }

  lemma HasTail(t: string, p: nat, w: string)
    requires Has(t, p, w) && w != ""
    ensures At(t, p) == w[0] && Has(t, p + 1, w[1..])
  {
    assert w == [w[0]] + w[1..];
    HasConcat(t, p, [w[0]], w[1..]);
    HasAt(t, p, w, 0);
  }

  /** Five consecutive pieces of a text. */
  lemma HasPieces(t: string, p: nat, a: string, b: string, c: string, d: string, e: string)
    requires Has(t, p, a + (b + (c + (d + e))))
    ensures Has(t, p, a) && Has(t, p + |a|, b) && Has(t, p + |a| + |b|, c)
    ensures Has(t, p + |a| + |b| + |c|, d) && Has(t, p + |a| + |b| + |c| + |d|, e)
    ensures |a + (b + (c + (d + e)))| == |a| + |b| + |c| + |d| + |e| && p + |a| + |b| + |c| + |d| + |e| <= |t|
  {
    HasSlice(t, p, a + (b + (c + (d + e))));
    hide Has;
    HasConcat(t, p, a, b + (c + (d + e)));
    HasConcat(t, p + |a|, b, c + (d + e));
    HasConcat(t, p + |a| + |b|, c, d + e);
    HasConcat(t, p + |a| + |b| + |c|, d, e);
  }

  lemma HasSlice(t: string, p: nat, s: string)
    requires Has(t, p, s)
    ensures p + |s| <= |t| && t[p..p + |s|] == s
  {
  }

  lemma HasWhole(t: string)
    ensures Has(t, 0, t)
  {
  }

  predicate NulFree(s: string) {
    forall i :: 0 <= i < |s| ==> s[i] != '\0'
  }

  function StrCmp(a: string, b: string): int {
    if a == "" then (if b == "" then 0 else -1)
    else if b == "" then 1
    else if a[0] < b[0] then -1
    else if a[0] > b[0] then 1
    else StrCmp(a[1..], b[1..])
  }

  lemma {:induction false} StrCmpEqual(a: string, b: string)
    ensures StrCmp(a, b) == 0 <==> a == b
  {
    if a != "" && b != "" && a[0] == b[0] {
      StrCmpEqual(a[1..], b[1..]);
      assert a == [a[0]] + a[1..] && b == [b[0]] + b[1..];
    }
  }

  lemma {:induction false} StrCmpSign(a: string, b: string)
    ensures StrCmp(a, b) < 0 <==> StrCmp(b, a) > 0
  {
    if a != "" && b != "" && a[0] == b[0] {
      StrCmpSign(a[1..], b[1..]);
    }
  }

  lemma {:induction false} StrCmpTransitive(a: string, b: string, c: string)
    ensures StrCmp(a, b) <= 0 && StrCmp(b, c) < 0 ==> StrCmp(a, c) < 0
    ensures StrCmp(a, b) >= 0 && StrCmp(b, c) > 0 ==> StrCmp(a, c) > 0
  {
    if a != "" && b != "" && c != "" && a[0] == b[0] == c[0] {
      StrCmpTransitive(a[1..], b[1..], c[1..]);
    }
  }

  /** What `strcmp` tells: the first byte in which two strings differ decides, and the end of a string comes first. */
  lemma {:induction false} StrCmpDecides(start: string, c: char, a: string, d: char, b: string)
    ensures StrCmp(start + ([c] + a), start + ([d] + b)) < 0 <==> c < d || (c == d && StrCmp(a, b) < 0)
    ensures StrCmp(start, start + ([d] + b)) < 0
  {
    if start == "" {
      assert ([c] + a)[1..] == a && ([d] + b)[1..] == b && "" + ([c] + a) == [c] + a && "" + ([d] + b) == [d] + b;
    } else {
      assert (start + ([c] + a))[1..] == start[1..] + ([c] + a) && (start + ([d] + b))[1..] == start[1..] + ([d] + b);
      StrCmpDecides(start[1..], c, a, d, b);
    }
  }
}
