/** How a description may be laid out: blanks and comments between its words and signs, and which comment documents
    what (lib/scanner.c). */
module IdlLayout {
  import opened Text
  import opened Tokens
  import opened Idl
  import opened IdlRoundTrip
  import opened IdlGrammar
  import IdlSound

  // ---------------------------------------------------------------- gaps

  /** Where the line ends. */
  function Newline(g: string, k: nat): (e: nat)
    requires k <= |g|
    ensures k <= e <= |g| && (e < |g| ==> g[e] == '\n') && forall i :: k <= i < e ==> g[i] != '\n'
    decreases |g| - k
  {
    if k == |g| || g[k] == '\n' then k else Newline(g, k + 1)
  }

  /** From `k` on there are blanks and whole lines of comments. Only at the end of the text may the last comment go
      without a line break. */
  predicate IsGap(g: string, k: nat, last: bool)
    requires k <= |g|
    decreases |g| - k
  {
    if k == |g| then true
    else if g[k] == '#' then (last || Newline(g, k) < |g|) && IsGap(g, Newline(g, k), last)
    else IsBlank(g[k]) && IsGap(g, k + 1, last)
  }

  /** The last empty line behind `k`: a line break right behind another. */
  function EmptyLine(g: string, k: nat): (e: Option<nat>)
    requires k <= |g|
    ensures e.None? ==> forall i :: k <= i < |g| - 1 ==> !(g[i] == '\n' == g[i+1])
    ensures e.Some? ==> k <= e.value < |g| - 1 && g[e.value] == '\n' == g[e.value+1]
    ensures e.Some? ==> forall i :: e.value < i < |g| - 1 ==> !(g[i] == '\n' == g[i+1])
    decreases |g| - k
  {
    if k + 1 >= |g| then None
    else
      var e := EmptyLine(g, k + 1);
      if e.Some? then e else if g[k] == '\n' == g[k+1] then Some(k) else None
  }

  /** The first number sign behind `k`. */
  function FirstSign(g: string, k: nat): (i: Option<nat>)
    requires k <= |g|
    ensures i.None? ==> forall j :: k <= j < |g| ==> g[j] != '#'
    ensures i.Some? ==> k <= i.value < |g| && g[i.value] == '#' && forall j :: k <= j < i.value ==> g[j] != '#'
    decreases |g| - k
  {
    if k == |g| then None else if g[k] == '#' then Some(k) else FirstSign(g, k + 1)
  }

  function CommentAt(g: string, i: Option<nat>): Option<string>
    requires i.Some? ==> i.value <= |g|
  {
    if i.Some? then Some(CommentText(g, i.value)) else None
  }

  /** The documentation behind a gap: the first comment since the last empty line or, if there is neither, what there
      was in front of the gap. */
  function Behind(pending: Option<string>, g: string): Option<string> {
    var e := EmptyLine(g, 0);
    if e.Some? then CommentAt(g, FirstSign(g, e.value))
    else if pending.Some? then pending
    else CommentAt(g, FirstSign(g, 0))
  }

  /** The text of some words and signs with a gap in front of each, and one at the end. */
  function Weave(gaps: seq<string>, xs: seq<Lexeme>): string
    requires |gaps| == |xs| + 1
    decreases |xs|
  {
    if xs == [] then gaps[0] else gaps[0] + (xs[0].text + Weave(gaps[1..], xs[1..]))
  }

  /** The documentation that they have in this layout. A comment documents but once. */
  function DocsIn(pending: Option<string>, gaps: seq<string>, xs: seq<Lexeme>): seq<Option<string>>
    requires |gaps| == |xs| + 1
    decreases |xs|
  {
    if xs == [] then []
    else
      var doc := Behind(pending, gaps[0]);
      if xs[0].documented then [doc] + DocsIn(None, gaps[1..], xs[1..]) else DocsIn(doc, gaps[1..], xs[1..])
  }

  /** All gaps are gaps, and where there is none, no word goes on. */
  predicate Fits(gaps: seq<string>, xs: seq<Lexeme>)
    requires |gaps| == |xs| + 1
  {
    && (forall k :: 0 <= k < |gaps| ==> IsGap(gaps[k], 0, k == |xs|))
    && (forall k :: 0 < k < |xs| && gaps[k] == "" ==> !(StartsWord(xs[k-1].text) && GoesOn(xs[k].text)))
  }

  predicate StartsWord(w: string) {
    w != "" && IsAlpha(w[0])
  }

  predicate GoesOn(w: string) {
    w != "" && IsWordChar(w[0])
  }

  // ---------------------------------------------------------------- gaps and the cursor

  lemma {:induction false} EndOfLine(t: string, base: nat, g: string, k: nat)
    requires NulFree(t) && Has(t, base, g) && k <= |g| && (Newline(g, k) < |g| || base + |g| == |t|)
    ensures LineEnd(t, base + k) == base + Newline(g, k)
    decreases |g| - k
  {
    if k < |g| {
      HasAt(t, base, g, k);
      assert t[base + k] != '\0';
      if g[k] != '\n' {
        EndOfLine(t, base, g, k + 1);
      }
    }
  }

  /** The comment that is noted at the end of a gap. */
  function Noted(base: nat, g: string, k: nat, pending: Option<nat>): Option<nat>
    requires k <= |g|
  {
    var e := EmptyLine(g, k);
    if e.Some? then Place(base, FirstSign(g, e.value))
    else if pending.Some? then pending
    else Place(base, FirstSign(g, k))
  }

  function Place(base: nat, i: Option<nat>): Option<nat> {
    if i.Some? then Some(base + i.value) else None
  }

  /** An empty line forgets a comment. */
  function Kept(g: string, k: nat, c: Cursor): Option<nat>
    requires k <= |g|
  {
    if c.line == c.p && k < |g| && g[k] == '\n' then None else c.comment
  }

  lemma NotedBlank(base: nat, g: string, k: nat, pending: Option<nat>)
    requires k < |g| && g[k] != '#' && g[k] != '\n'
    ensures Noted(base, g, k, pending) == Noted(base, g, k + 1, pending)
  {
  }

  lemma NotedLine(base: nat, g: string, k: nat, pending: Option<nat>)
    requires k < |g| && g[k] == '\n'
    ensures Noted(base, g, k, pending) ==
      Noted(base, g, k + 1, if k + 1 < |g| && g[k+1] == '\n' then None else pending)
  {
  }

  lemma NotedComment(base: nat, g: string, k: nat, pending: Option<nat>)
    requires k < |g| && g[k] == '#'
    ensures Noted(base, g, k, pending) ==
      Noted(base, g, Newline(g, k), if pending.None? then Some(base + k) else pending)
  {
    SameEmpty(g, k, Newline(g, k));
  }

  /** A gap is skipped, and its comment is noted. */
  lemma {:induction false} Tracks(t: string, base: nat, g: string, k: nat, last: bool, c: Cursor)
    requires NulFree(t) && Has(t, base, g) && k <= |g| && c.p == base + k && c.line <= c.p
    requires IsGap(g, k, last) && (last ==> base + |g| == |t|) && Token(At(t, base + |g|))
    ensures c.p <= |t|
    ensures var d := Blanks(t, true, c);
      && d.p == base + |g| && d.line <= d.p && d.comment == Noted(base, g, k, Kept(g, k, c))
      && (d.comment.Some? && d.comment != c.comment ==>
            base <= d.comment.value <= base + |g| && IsGap(g, d.comment.value - base, last))
    decreases |g| - k
  {
    hide Has, Noted, NulFree, LineEnd;
    Within(t, base, g);
    if k == |g| {
      AtToken(t, c);
      NothingNoted(base, g, c);
    } else {
      HasAt(t, base, g, k);
      if g[k] == '#' {
        EndOfLine(t, base, g, k);
        var e := Newline(g, k);
        Tracks(t, base, g, e, last, c.(p := base + e, comment := if c.comment.None? then Some(c.p) else c.comment));
        NotedComment(base, g, k, c.comment);
      } else if g[k] == '\n' {
        Tracks(t, base, g, k + 1, last, Cursor(c.p + 1, c.p + 1, if c.line == c.p then None else c.comment));
        NotedLine(base, g, k, Kept(g, k, c));
      } else {
        Tracks(t, base, g, k + 1, last, c.(p := c.p + 1));
        NotedBlank(base, g, k, c.comment);
      }
    }
  }

  lemma Within(t: string, base: nat, g: string)
    requires Has(t, base, g)
    ensures base + |g| <= |t|
  {
  }

  lemma NothingNoted(base: nat, g: string, c: Cursor)
    ensures Noted(base, g, |g|, c.comment) == c.comment && Kept(g, |g|, c) == c.comment
  {
  }

  lemma {:induction false} SameEmpty(g: string, k: nat, e: nat)
    requires k <= e <= |g| && forall i :: k <= i < e ==> g[i] != '\n'
    ensures EmptyLine(g, k) == EmptyLine(g, e)
    decreases e - k
  {
    if k < e {
      SameEmpty(g, k + 1, e);
    }
  }

  /** What is skipped is a gap. */
  lemma {:induction false} Skipped(t: string, base: nat, c: Cursor)
    requires NulFree(t) && base <= c.p <= |t|
    ensures var d := Blanks(t, true, c); Token(At(t, d.p)) && IsGap(t[base..d.p], c.p - base, d.p == |t|)
    decreases |t| - c.p
  {
    hide Newline, NulFree, LineEnd, IsGap;
    var d := Blanks(t, true, c);
    var ch := At(t, c.p);
    if ch == ' ' || ch == '\t' {
      Skipped(t, base, c.(p := c.p + 1));
      BlankGap(t, base, c.p, d.p);
    } else if ch == '\n' {
      Skipped(t, base, Cursor(c.p + 1, c.p + 1, if c.line == c.p then None else c.comment));
      BlankGap(t, base, c.p, d.p);
    } else if ch == '#' {
      var e := LineEnd(t, c.p);
      Skipped(t, base, c.(p := e, comment := if c.comment.None? then Some(c.p) else c.comment));
      IdlSound.LineEndStops(t, c.p);
      NulAtEnd(t, e);
      CommentGap(t, base, c.p, d.p);
    } else {
      NoGap(t[base..c.p], d.p == |t|);
    }
  }

  lemma NoGap(g: string, last: bool)
    ensures IsGap(g, |g|, last)
  {
  }

  lemma NulAtEnd(t: string, p: nat)
    requires NulFree(t) && p <= |t|
    ensures At(t, p) == '\0' ==> p == |t|
  {
  }

  lemma BlankGap(t: string, base: nat, p: nat, q: nat)
    requires base <= p < q <= |t| && IsBlank(t[p]) && IsGap(t[base..q], p + 1 - base, q == |t|)
    ensures IsGap(t[base..q], p - base, q == |t|)
  {
    assert t[base..q][p - base] == t[p];
  }

  lemma CommentGap(t: string, base: nat, p: nat, q: nat)
    requires NulFree(t) && base <= p < |t| && LineEnd(t, p) <= q <= |t| && (q < |t| ==> LineEnd(t, p) < q)
    requires t[p] == '#'
    requires IsGap(t[base..q], LineEnd(t, p) - base, q == |t|)
    ensures IsGap(t[base..q], p - base, q == |t|)
  {
    hide Newline, LineEnd, NulFree;
    EndsLine(t, base, p, q);
    assert t[base..q][p - base] == t[p];
  }

  lemma {:induction false} EndsLine(t: string, base: nat, p: nat, q: nat)
    requires NulFree(t) && base <= p <= |t| && LineEnd(t, p) <= q <= |t| && (q < |t| ==> LineEnd(t, p) < q)
    ensures Newline(t[base..q], p - base) == LineEnd(t, p) - base
    ensures LineEnd(t, p) < |t| ==> t[LineEnd(t, p)] == '\n'
    decreases |t| - p
  {
    if p < q && t[p] != '\n' {
      assert t[p] != '\0';
      EndsLine(t, base, p + 1, q);
    }
  }

  // ---------------------------------------------------------------- comments within a gap

  lemma {:induction false} SameLine(g: string, k: nat, s: nat)
    requires k <= s <= |g| && forall i :: k <= i < s ==> g[i] != '\n'
    ensures Newline(g, k) == Newline(g, s)
    decreases s - k
  {
    if k < s {
      SameLine(g, k + 1, s);
    }
  }

  lemma {:induction false} LeadingWithin(t: string, base: nat, g: string, k: nat)
    requires Has(t, base, g) && k <= |g| && !IsBlank(At(t, base + |g|)) && IsGap(g, k, false)
    ensures base + k <= |t| && SkipLeading(t, base + k) == base + SkipLeading(g, k)
    ensures IsGap(g, SkipLeading(g, k), false)
    decreases |g| - k
  {
    if k < |g| {
      HasAt(t, base, g, k);
      if g[k] == ' ' || g[k] == '\t' {
        LeadingWithin(t, base, g, k + 1);
      }
    }
  }

  lemma NulFreeWithin(t: string, base: nat, g: string)
    requires NulFree(t) && Has(t, base, g)
    ensures NulFree(g) && Has(g, 0, g)
  {
    HasWhole(g);
    forall i | 0 <= i < |g| ensures g[i] != '\0' {
      HasAt(t, base, g, i);
    }
  }

  lemma SliceWithin(t: string, base: nat, g: string, s: nat, e: nat)
    requires Has(t, base, g) && s <= e <= |g|
    ensures base + e <= |t| && t[base + s..base + e] == g[s..e]
  {
    forall i | s <= i < e ensures t[base + i] == g[i] {
      HasAt(t, base, g, i);
    }
  }

  /** A line of a comment, seen in the text and in the gap. */
  lemma LineWithin(t: string, base: nat, g: string, k: nat) returns (s: nat, e: nat)
    requires NulFree(t) && Has(t, base, g) && k < |g| && g[k] == '#' && IsGap(g, k, false)
    ensures k < s <= e < |g| && base + |g| <= |t| && IsGap(g, e + 1, false)
    ensures s == (if At(g, k + 1) == ' ' then k + 2 else k + 1) && At(t, base + k + 1) == At(g, k + 1)
    ensures At(t, base + k) == At(g, k) == '#' && At(t, base + e) == At(g, e) == '\n'
    ensures LineEnd(g, s) == e && LineEnd(t, base + s) == base + e && t[base + s..base + e] == g[s..e]
  {
    hide Has, NulFree, LineEnd;
    s := if g[k+1] == ' ' then k + 2 else k + 1;
    e := Newline(g, k);
    Within(t, base, g);
    HasAt(t, base, g, k);
    HasAt(t, base, g, k + 1);
    HasAt(t, base, g, e);
    SameLine(g, k, s);
    NulFreeWithin(t, base, g);
    EndOfLine(t, base, g, s);
    EndOfLine(g, 0, g, s);
    SliceWithin(t, base, g, s, e);
  }

  /** A line of a comment and the lines behind it. */
  function Lines(line: string, more: string): string {
    line + "\n" + more
  }

  lemma CommentStep(t: string, p: nat, e: nat)
    requires At(t, p) == '#'
    ensures var s := if At(t, p + 1) == ' ' then p + 2 else p + 1;
      s <= |t| && (LineEnd(t, s) == e && At(t, e) == '\n' ==>
        CommentText(t, p) == Lines(t[s..e], CommentText(t, SkipLeading(t, e + 1))))
  {
    hide LineEnd, SkipLeading, CommentText;
    CommentUnfolds(t, p);
  }

  /** The text of a comment does not depend on what follows the gap. */
  lemma {:induction false} CommentWithin(t: string, base: nat, g: string, k: nat)
    requires NulFree(t) && Has(t, base, g) && k <= |g| && IsGap(g, k, false) && Token(At(t, base + |g|))
    ensures CommentText(t, base + k) == CommentText(g, k)
    decreases |g| - k
  {
    hide Has, NulFree, LineEnd, SkipLeading, CommentText, IsGap, Lines;
    if k < |g| {
      HasAt(t, base, g, k);
    }
    if k < |g| && g[k] == '#' {
      var s, e := LineWithin(t, base, g, k);
      CommentStep(t, base + k, base + e);
      CommentStep(g, k, e);
      LeadingWithin(t, base, g, e + 1);
      CommentWithin(t, base, g, SkipLeading(g, e + 1));
    } else {
      NoCommentHere(t, base + k);
      NoCommentHere(g, k);
    }
  }

  lemma NoCommentHere(t: string, p: nat)
    requires At(t, p) != '#'
    ensures CommentText(t, p) == ""
  {
  }

  // ---------------------------------------------------------------- what a comment says

  lemma {:induction false} LineEndBehind(t: string, base: nat, k: nat)
    requires base + k <= |t|
    ensures LineEnd(t, base + k) == base + LineEnd(t[base..], k)
    decreases |t| - base - k
  {
    if base + k < |t| && t[base + k] != '\n' && t[base + k] != '\0' {
      LineEndBehind(t, base, k + 1);
    }
  }

  lemma {:induction false} LeadingBehind(t: string, base: nat, k: nat)
    requires base + k <= |t|
    ensures SkipLeading(t, base + k) == base + SkipLeading(t[base..], k)
    decreases |t| - base - k
  {
    if At(t, base + k) == ' ' || At(t, base + k) == '\t' {
      LeadingBehind(t, base, k + 1);
    }
  }

  /** What is in front of a comment does not matter to its text. */
  lemma {:induction false} CommentBehind(t: string, base: nat, k: nat)
    requires base + k <= |t|
    ensures CommentText(t, base + k) == CommentText(t[base..], k)
    decreases |t| - base - k
  {
    hide LineEnd, SkipLeading, CommentText;
    var u := t[base..];
    if At(u, k) == '#' {
      CommentUnfolds(t, base + k);
      CommentUnfolds(u, k);
      var s := if At(u, k + 1) == ' ' then k + 2 else k + 1;
      LineEndBehind(t, base, s);
      var e := LineEnd(u, s);
      Suffix(t, base);
      SliceWithin(t, base, u, s, e);
      if At(u, e) == '\n' {
        LeadingBehind(t, base, e + 1);
        CommentBehind(t, base, SkipLeading(u, e + 1));
      }
    } else {
      NoCommentHere(t, base + k);
      NoCommentHere(u, k);
    }
  }

  lemma Suffix(t: string, base: nat)
    requires base <= |t|
    ensures Has(t, base, t[base..])
  {
  }

  lemma {:induction false} LeadingIs(t: string, p: nat, margin: string)
    requires Has(t, p, margin) && forall i :: 0 <= i < |margin| ==> margin[i] == ' ' || margin[i] == '\t'
    requires At(t, p + |margin|) != ' ' && At(t, p + |margin|) != '\t'
    ensures p <= |t| && SkipLeading(t, p) == p + |margin|
    decreases |margin|
  {
    if margin != "" {
      HasTail(t, p, margin);
      LeadingIs(t, p + 1, margin[1..]);
    }
  }

  /** A line without the space it may start with. */
  function Unspaced(line: string): string {
    if line != "" && line[0] == ' ' then line[1..] else line
  }

  lemma LineIs(t: string, line: string)
    requires '\n' !in line && '\0' !in line && Has(t, 1, line) && At(t, 1 + |line|) == '\n'
    ensures var s := if At(t, 1) == ' ' then 2 else 1;
      s <= 1 + |line| <= |t| && LineEnd(t, s) == 1 + |line| && t[s..1 + |line|] == Unspaced(line)
  {
    hide Has, LineEnd;
    assert forall i :: 0 <= i < |line| ==> line[i] != '\n' && line[i] != '\0';
    if line != "" && line[0] == ' ' {
      HasTail(t, 1, line);
      HasSlice(t, 2, line[1..]);
      LineEndAt(t, 2, line[1..]);
    } else {
      HasSlice(t, 1, line);
      if line != "" {
        HasAt(t, 1, line, 0);
      }
      LineEndAt(t, 1, line);
    }
  }

  /** The text of a comment: its lines without their number signs, without the first space behind each, and without the
      spaces and tabs in front. It ends at the first line that is not a comment. */
  lemma CommentSays(line: string, margin: string, rest: string)
    requires '\n' !in line && '\0' !in line
    requires forall i :: 0 <= i < |margin| ==> margin[i] == ' ' || margin[i] == '\t'
    requires rest != "" ==> rest[0] != ' ' && rest[0] != '\t'
    ensures CommentText("#" + (line + ("\n" + (margin + rest))), 0) == Lines(Unspaced(line), CommentText(rest, 0))
    ensures rest == "" || rest[0] != '#' ==> CommentText(rest, 0) == ""
  {
    hide LineEnd, SkipLeading, CommentText, Has, Unspaced, Lines;
    var t, e := "#" + (line + ("\n" + (margin + rest))), 1 + |line|;
    CommentPieces(t, line, margin, rest);
    LineIs(t, line);
    CommentStep(t, 0, e);
    LeadingIs(t, e + 1, margin);
    CommentBehind(t, e + 1 + |margin|, 0);
    if rest == "" || rest[0] != '#' {
      NoCommentHere(rest, 0);
    }
  }

  lemma CommentPieces(t: string, line: string, margin: string, rest: string)
    requires t == "#" + (line + ("\n" + (margin + rest)))
    ensures var e := 1 + |line|;
      && At(t, 0) == '#' && Has(t, 1, line) && At(t, e) == '\n' && Has(t, e + 1, margin) && e + 1 + |margin| <= |t|
      && t[e + 1 + |margin|..] == rest
      && At(t, e + 1 + |margin|) == if rest == "" then '\0' else rest[0]
  {
    hide Has;
    HasWhole(t);
    HasPieces(t, 0, "#", line, "\n", margin, rest);
    HasAt(t, 0, "#", 0);
    HasAt(t, 1 + |line|, "\n", 0);
    RestIs(t, 2 + |line| + |margin|, rest);
  }

  lemma RestIs(t: string, p: nat, rest: string)
    requires Has(t, p, rest) && p + |rest| == |t|
    ensures t[p..] == rest && (rest == "" ==> At(t, p) == '\0') && (rest != "" ==> At(t, p) == rest[0])
  {
    if rest != "" {
      HasAt(t, p, rest, 0);
    }
  }

  /** The text of the comment that a cursor has noted. */
  function Pending(t: string, c: Cursor): Option<string> {
    if c.comment.Some? then Some(CommentText(t, c.comment.value)) else None
  }

  /** A cursor in front of a gap. */
  predicate InFront(c: Cursor) {
    c.line <= c.p && (c.line < c.p || c.comment == None) && (c.comment.Some? ==> c.comment.value < c.p)
  }

  lemma GapIsRead(t: string, c: Cursor, g: string)
    requires NulFree(t) && Has(t, c.p, g) && IsGap(g, 0, false) && Token(At(t, c.p + |g|)) && InFront(c)
    ensures c.p <= |t|
    ensures var d := Blanks(t, true, c);
      && d.p == c.p + |g| && d.line <= d.p && (d.comment.Some? ==> d.comment.value <= d.p)
      && Pending(t, d) == Behind(Pending(t, c), g)
  {
    hide Has, NulFree, Blanks, CommentText, IsGap;
    Tracks(t, c.p, g, 0, false, c);
    var d := Blanks(t, true, c);
    if d.comment.Some? && d.comment != c.comment {
      CommentWithin(t, c.p, g, d.comment.value - c.p);
    }
  }

  // ---------------------------------------------------------------- layouts are scanned

  /** A word of letters and signs, or a sign. */
  predicate GoodLexeme(x: Lexeme) {
    && x.text != "" && Token(x.text[0]) && x.text[0] != '\0'
    && (IsAlpha(x.text[0]) ==> forall c <- x.text :: IsWordChar(c))
  }

  /** What follows a word does not go on with it. */
  lemma WordEnds(t: string, p: nat, w: string, gaps: seq<string>, xs: seq<Lexeme>)
    requires |gaps| == |xs| + 1 && Fits(gaps, xs) && (forall x <- xs :: GoodLexeme(x))
    requires Has(t, p, Weave(gaps, xs)) && p + |Weave(gaps, xs)| == |t|
    requires gaps[0] == "" && xs != [] ==> !GoesOn(xs[0].text)
    ensures !IsWordChar(At(t, p))
  {
    hide Has;
    if gaps[0] != "" {
      assert IsGap(gaps[0], 0, 0 == |xs|);
      HasAt(t, p, Weave(gaps, xs), 0);
      assert Weave(gaps, xs)[0] == gaps[0][0];
    } else if xs != [] {
      assert GoodLexeme(xs[0]);
      assert Weave(gaps, xs)[0] == xs[0].text[0];
      HasAt(t, p, Weave(gaps, xs), 0);
    }
  }

  lemma FitsOn(gaps: seq<string>, xs: seq<Lexeme>)
    requires |gaps| == |xs| + 1 && Fits(gaps, xs) && xs != []
    ensures IsGap(gaps[0], 0, false) && Fits(gaps[1..], xs[1..])
    ensures gaps[1] == "" && |xs| > 1 ==> !(StartsWord(xs[0].text) && GoesOn(xs[1].text))
  {
    hide IsGap, StartsWord, GoesOn;
    assert forall k :: 0 <= k < |gaps[1..]| ==> gaps[1..][k] == gaps[k+1];
    assert forall k :: 0 <= k < |xs[1..]| ==> xs[1..][k] == xs[k+1];
  }

  lemma LastFits(gaps: seq<string>, xs: seq<Lexeme>)
    requires xs == [] && |gaps| == 1
    ensures Fits(gaps, xs) <==> IsGap(gaps[0], 0, true)
  {
    hide IsGap;
  }

  /** A text in some layout is scanned, with the documentation that it has in this layout. */
  lemma {:induction false} WovenIsScanned(t: string, c: Cursor, gaps: seq<string>, xs: seq<Lexeme>)
    requires NulFree(t) && InFront(c) && |gaps| == |xs| + 1 && Fits(gaps, xs) && forall x <- xs :: GoodLexeme(x)
    requires Has(t, c.p, Weave(gaps, xs)) && c.p + |Weave(gaps, xs)| == |t|
    ensures var s := Scanned(t, c, xs);
      s.Found? && s.docs == DocsIn(Pending(t, c), gaps, xs) && AtEnd(t, s.end)
    decreases |xs|
  {
    hide Has, NulFree, Blanks, CommentText, IsGap, Fits, Behind, LexemeAt, InFront;
    if xs == [] {
      assert IsGap(gaps[0], 0, true) by { LastFits(gaps, xs); }
      LastGap(t, c, gaps[0]);
    } else {
      var x, g, rest := xs[0], gaps[0], Weave(gaps[1..], xs[1..]);
      FitsOn(gaps, xs);
      HasConcat(t, c.p, g, x.text + rest);
      HasConcat(t, c.p + |g|, x.text, rest);
      assert GoodLexeme(x);
      HasAt(t, c.p + |g|, x.text, 0);
      GapIsRead(t, c, g);
      var d := Blanks(t, true, c);
      if IsAlpha(x.text[0]) {
        WordEnds(t, d.p + |x.text|, x.text, gaps[1..], xs[1..]);
      }
      GoodLexemeAt(t, d.p, x);
      var next := Step(t, c, x).end;
      NextInFront(d, next, |x.text|);
      WovenIsScanned(t, next, gaps[1..], xs[1..]);
    }
  }

  lemma NextInFront(d: Cursor, next: Cursor, n: nat)
    requires n > 0 && d.line <= d.p && (d.comment.Some? ==> d.comment.value <= d.p)
    requires next == Cursor(d.p + n, d.line, d.comment) || next == Cursor(d.p + n, d.line, None)
    ensures InFront(next)
  {
  }

  lemma GoodLexemeAt(t: string, p: nat, x: Lexeme)
    requires p <= |t| && GoodLexeme(x) && Has(t, p, x.text) && (IsAlpha(x.text[0]) ==> !IsWordChar(At(t, p + |x.text|)))
    ensures LexemeAt(t, p, x.text)
  {
    if IsAlpha(x.text[0]) {
      WordAt(t, p, x.text);
    }
  }

  lemma LastGap(t: string, c: Cursor, g: string)
    requires NulFree(t) && InFront(c) && IsGap(g, 0, true) && Has(t, c.p, g) && c.p + |g| == |t|
    ensures AtEnd(t, c)
  {
    hide Has, NulFree, Blanks, IsGap, EmptyLine, FirstSign, Noted;
    Tracks(t, c.p, g, 0, true, c);
  }

  // ---------------------------------------------------------------- what is scanned is a layout

  lemma FitsTogether(gaps: seq<string>, xs: seq<Lexeme>)
    requires |gaps| == |xs| + 1 && xs != [] && IsGap(gaps[0], 0, false) && Fits(gaps[1..], xs[1..])
    requires gaps[1] == "" && |xs| > 1 ==> !(StartsWord(xs[0].text) && GoesOn(xs[1].text))
    ensures Fits(gaps, xs)
  {
    hide IsGap, StartsWord, GoesOn;
    assert forall k :: 0 < k < |gaps| ==> gaps[k] == gaps[1..][k-1];
    assert forall k :: 0 < k < |xs| ==> xs[k] == xs[1..][k-1];
  }

  lemma LexemeThere(t: string, p: nat, w: string)
    requires p <= |t| && LexemeAt(t, p, w)
    ensures w != "" && Has(t, p, w) && p + |w| <= |t| && At(t, p) == w[0]
    ensures StartsWord(w) ==> !IsWordChar(At(t, p + |w|))
  {
    HasAt(t, p, w, 0);
  }

  /** A text that is scanned to its end is laid out in some way, and has its documentation from this layout. */
  lemma {:induction false} ScannedIsWoven(t: string, c: Cursor, xs: seq<Lexeme>) returns (gaps: seq<string>)
    requires NulFree(t) && InFront(c) && c.p <= |t|
    requires Scanned(t, c, xs).Found? && AtEnd(t, Scanned(t, c, xs).end)
    ensures |gaps| == |xs| + 1 && Fits(gaps, xs) && gaps[0] == t[c.p..Blanks(t, true, c).p]
    ensures Has(t, c.p, Weave(gaps, xs)) && c.p + |Weave(gaps, xs)| == |t|
    ensures Scanned(t, c, xs).docs == DocsIn(Pending(t, c), gaps, xs)
    decreases |xs|
  {
    hide Has, NulFree, Blanks, CommentText, IsGap, Fits, Behind, LexemeAt, InFront;
    var d := Blanks(t, true, c);
    var g := t[c.p..d.p];
    Skipped(t, c.p, c);
    Sliced(t, c.p, d.p);
    if xs == [] {
      gaps := [g];
      NulAtEnd(t, d.p);
      LastFits(gaps, xs);
    } else {
      var x := xs[0];
      LexemeThere(t, d.p, x.text);
      GapIsRead(t, c, g);
      var next := Step(t, c, x).end;
      NextInFront(d, next, |x.text|);
      var rest := ScannedIsWoven(t, next, xs[1..]);
      gaps := [g] + rest;
      assert gaps[1..] == rest;
      if |xs| > 1 {
        LexemeThere(t, Blanks(t, true, next).p, xs[1].text);
      }
      FitsTogether(gaps, xs);
      HasConcat(t, c.p + |g|, x.text, Weave(rest, xs[1..]));
      HasConcat(t, c.p, g, x.text + Weave(rest, xs[1..]));
    }
  }

  lemma Sliced(t: string, p: nat, q: nat)
    requires p <= q <= |t|
    ensures Has(t, p, t[p..q])
  {
  }

  // ---------------------------------------------------------------- interfaces

  lemma GoodWord(w: string, documented: bool)
    requires w != "" && IsAlpha(w[0]) && forall i :: 0 <= i < |w| ==> IsWordChar(w[i])
    ensures GoodLexeme(Lexeme(w, documented))
  {
  }

  lemma GoodSigns()
    ensures forall w <- ["[", "]", "?", "(", ")", ",", ":", "->"] :: GoodLexeme(Plain(w))
    ensures forall ty: Type :: GoodLexeme(Plain(SimpleWord(ty)))
    ensures forall kind: MemberKind :: GoodLexeme(Plain(Keyword(kind)))
  {
  }

  lemma {:induction false} TypeLexemesGood(ty: Type)
    requires GoodType(ty)
    ensures forall x <- TypeLexemes(ty) :: GoodLexeme(x)
    decreases ty, 0
  {
    hide GoodLexeme, TypeName, FieldName, FieldLexemes, GoodField, DistinctFields, SimpleWord;
    GoodSigns();
    match ty
    case Array(e) => TypeLexemesGood(e);
    case Map(e) =>
      TypeLexemesGood(e);
      assert SimpleWord(String) == "string" by { SimpleString(); }
    case Maybe(e) => TypeLexemesGood(e);
    case Record(isEnum, fields) => FieldLexemesGood(fields, isEnum, true);
    case Alias(name) =>
      TypeNameWord(name);
      GoodWord(name, false);
    case _ =>
  }

  lemma SimpleString()
    ensures SimpleWord(String) == "string"
  {
  }

  lemma {:induction false} FieldLexemesGood(fields: seq<TypeField>, isEnum: bool, first: bool)
    requires forall i :: 0 <= i < |fields| ==> GoodField(fields[i], isEnum)
    ensures forall x <- FieldLexemes(fields, first) :: GoodLexeme(x)
    decreases fields, 0
  {
    hide GoodLexeme, FieldName, GoodType, TypeLexemes;
    GoodSigns();
    if fields != [] {
      var f := fields[0];
      FieldNameWord(f.name);
      GoodWord(f.name, true);
      if f.typ.Some? {
        TypeLexemesGood(f.typ.value);
      }
      FieldLexemesGood(fields[1..], isEnum, false);
    }
  }

  lemma {:induction false} MemberLexemesGood(ms: seq<Member>)
    requires forall i :: 0 <= i < |ms| ==> GoodMember(ms[i])
    ensures forall x <- MemberLexemes(ms) :: GoodLexeme(x)
  {
    hide GoodLexeme, MemberName, GoodType, TypeLexemes, Keyword;
    GoodSigns();
    if ms != [] {
      var m := ms[0];
      assert GoodMember(m);
      MemberNameWord(m.name);
      GoodWord(m.name, true);
      match m.kind {
        case AliasOf(ty) => TypeLexemesGood(ty);
        case ErrorOf(ty) => TypeLexemesGood(ty);
        case MethodOf(i, o) =>
          TypeLexemesGood(i);
          TypeLexemesGood(o);
      }
      MemberLexemesGood(ms[1..]);
    }
  }

  lemma LexemesGood(i: Interface)
    requires Writable(i)
    ensures forall x <- Lexemes(i) :: GoodLexeme(x)
  {
    hide GoodLexeme, InterfaceName, GoodMember, MemberLexemes;
    InterfaceNameWord(i.name);
    GoodWord(i.name, false);
    var w := "interface";
    assert IsAlpha(w[0]) && forall k :: 0 <= k < |w| ==> IsWordChar(w[k]);
    GoodWord(w, true);
    MemberLexemesGood(i.members);
  }

  /** A text in this layout, with the documentation of the interface. */
  ghost predicate LaysOut(gaps: seq<string>, i: Interface, t: string) {
    && |gaps| == |Lexemes(i)| + 1 && Fits(gaps, Lexemes(i)) && t == Weave(gaps, Lexemes(i))
    && DocsIn(None, gaps, Lexemes(i)) == Docs(i)
  }

  /** A text is accepted exactly if it is made of the words and signs of a good interface and of gaps between them, with
      the documentation in the gaps; and it is read as this interface. */
  lemma LaidOutExactly(t: string, i: Interface)
    requires NulFree(t)
    ensures ReadInterface(t) == Some(i) <==> GoodInterface(i) && exists gaps :: LaysOut(gaps, i, t)
  {
    hide NulFree, GoodInterface, Lexemes, Docs, Fits, Weave, DocsIn, ReadInterface, AtEnd, Scanned;
    AcceptedExactly(t, i);
    var c := Cursor(0, 0, None);
    if ReadInterface(t) == Some(i) {
      var gaps := ScannedIsWoven(t, c, Lexemes(i));
      WholeText(t, Weave(gaps, Lexemes(i)));
      assert LaysOut(gaps, i, t);
    }
    if GoodInterface(i) && exists gaps :: LaysOut(gaps, i, t) {
      var gaps :| LaysOut(gaps, i, t);
      HasWhole(t);
      CanBeWritten(i);
      LexemesGood(i);
      WovenIsScanned(t, c, gaps, Lexemes(i));
    }
  }

  lemma CanBeWritten(i: Interface)
    requires GoodInterface(i)
    ensures Writable(i)
  {
  }

  lemma WholeText(t: string, s: string)
    requires Has(t, 0, s) && |s| == |t|
    ensures t == s
  {
  }
}
