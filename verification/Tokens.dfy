/** The tokens of the scanner (lib/scanner.c), as functions of the text and a position. */
module Tokens {
  import opened Text
  import Floats
  import Utf8

  // ---------------------------------------------------------------- blanks and words

  predicate IsBlank(c: char) { c == ' ' || c == '\t' || c == '\n' }

  /** Skips blanks, without comments. */
  function Skip(t: string, p: nat): (q: nat)
    requires p <= |t|
    ensures p <= q <= |t|
    ensures !IsBlank(At(t, q))
    ensures !IsBlank(At(t, p)) ==> q == p
    decreases |t| - p
  {
    if IsBlank(At(t, p)) then Skip(t, p + 1) else p
  }

  /** Where the scanner stands: its position, the start of its line, and the start of the last comment, if any. */
  datatype Cursor = Cursor(p: nat, line: nat, comment: Option<nat>)

  function LineEnd(t: string, p: nat): (q: nat)
    requires p <= |t|
    ensures p <= q <= |t|
    ensures At(t, p) != '\n' && At(t, p) != '\0' ==> p < q
    decreases |t| - p
  {
    if At(t, p) == '\n' || At(t, p) == '\0' then p else LineEnd(t, p + 1)
  }

  /** Skips blanks and, if there are any in this language, comments. A line break that follows a line break
      forgets the last comment; a comment is remembered by the place where the first of several starts. */
  function Blanks(t: string, comments: bool, c: Cursor): (d: Cursor)
    requires c.p <= |t|
    ensures c.p <= d.p <= |t|
    decreases |t| - c.p
  {
    var ch := At(t, c.p);
    if ch == ' ' || ch == '\t' then Blanks(t, comments, c.(p := c.p + 1))
    else if ch == '\n' then
      Blanks(t, comments, Cursor(c.p + 1, c.p + 1, if c.line == c.p then None else c.comment))
    else if ch == '#' && comments then
      Blanks(t, comments, c.(p := LineEnd(t, c.p), comment := if c.comment.None? then Some(c.p) else c.comment))
    else c
  }

  /** Without comments only blanks are skipped. */
  lemma {:induction false} BlanksSkip(t: string, c: Cursor)
    requires c.p <= |t|
    ensures Blanks(t, false, c).p == Skip(t, c.p)
    decreases |t| - c.p
  {
    var ch := At(t, c.p);
    if ch == ' ' || ch == '\t' {
      BlanksSkip(t, c.(p := c.p + 1));
    } else if ch == '\n' {
      BlanksSkip(t, Cursor(c.p + 1, c.p + 1, if c.line == c.p then None else c.comment));
    }
  }

  /** Blanks are skipped only once. */
  lemma {:induction false} BlanksTwice(t: string, comments: bool, c: Cursor)
    requires c.p <= |t|
    ensures Blanks(t, comments, Blanks(t, comments, c)) == Blanks(t, comments, c)
    decreases |t| - c.p
  {
    var ch := At(t, c.p);
    if ch == ' ' || ch == '\t' {
      BlanksTwice(t, comments, c.(p := c.p + 1));
    } else if ch == '\n' {
      BlanksTwice(t, comments, Cursor(c.p + 1, c.p + 1, if c.line == c.p then None else c.comment));
    } else if ch == '#' && comments {
      BlanksTwice(t, comments, c.(p := LineEnd(t, c.p), comment := if c.comment.None? then Some(c.p) else c.comment));
    }
  }

  predicate IsDigit(c: char) { '0' <= c <= '9' }

  predicate IsUpper(c: char) { 'A' <= c <= 'Z' }

  predicate IsAlpha(c: char) { 'a' <= c <= 'z' || 'A' <= c <= 'Z' }

  predicate IsAlnum(c: char) { IsAlpha(c) || IsDigit(c) }

  predicate IsWordChar(c: char) { IsAlnum(c) || c == '_' || c == '-' || c == '.' }

  function WordEnd(t: string, p: nat): (q: nat)
    requires p <= |t|
    ensures p <= q <= |t|
    ensures forall i :: p <= i < q ==> IsWordChar(t[i])
    ensures !IsWordChar(At(t, q))
    decreases |t| - p
  {
    if IsWordChar(At(t, p)) then WordEnd(t, p + 1) else p
  }

  /** The length of the word at `p`; a word starts with a letter. */
  function WordLength(t: string, p: nat): (n: nat)
    requires p <= |t|
    ensures p + n <= |t|
  {
    if IsAlpha(At(t, p)) then WordEnd(t, p) - p else 0
  }

  predicate KeywordAt(t: string, p: nat, word: string)
    requires p <= |t|
  {
    WordLength(t, p) == |word| && Has(t, p, word)
  }

  lemma WordRun(t: string, p: nat, w: string)
    requires Has(t, p, w) && (forall i :: 0 <= i < |w| ==> IsWordChar(w[i])) && !IsWordChar(At(t, p + |w|))
    ensures WordEnd(t, p) == p + |w|
  {
  }

  /** A word in the text is read back whole when it is not continued. */
  lemma WordAt(t: string, p: nat, w: string)
    requires w != "" && Has(t, p, w) && IsAlpha(w[0]) && (forall i :: 0 <= i < |w| ==> IsWordChar(w[i]))
    requires !IsWordChar(At(t, p + |w|))
    ensures WordLength(t, p) == |w|
  {
    HasTail(t, p, w);
    WordRun(t, p, w);
  }

  // ---------------------------------------------------------------- strings

  function HexDigit(c: char): (r: Option<nat>)
    ensures r.Some? ==> r.value < 16 && c != '\0'
  {
    if IsDigit(c) then Some(c as int - '0' as int)
    else if 'a' <= c <= 'f' then Some(c as int - 'a' as int + 10)
    else if 'A' <= c <= 'F' then Some(c as int - 'A' as int + 10)
    else None
  }

  /** Four hexadecimal digits. */
  function CodeUnit(t: string, p: nat): (r: Option<nat>)
    ensures r.Some? ==> r.value < 0x1_0000 && p + 4 <= |t|
  {
    match (HexDigit(At(t, p)), HexDigit(At(t, p + 1)), HexDigit(At(t, p + 2)), HexDigit(At(t, p + 3)))
    case (Some(a), Some(b), Some(c), Some(d)) => Some(((a * 16 + b) * 16 + c) * 16 + d)
    case _ => None
  }

  /** The code point of the `\u` escape whose digits start at `p`, and the length of the digits with
      a second escape for a surrogate pair; lone surrogates are refused. */
  function UnicodeEscape(t: string, p: nat): (r: Option<(int, nat)>)
    ensures r.Some? ==> Utf8.Scalar(r.value.0) && p + r.value.1 <= |t| && r.value.1 in {4, 10}
  {
    match CodeUnit(t, p)
    case None => None
    case Some(cu) =>
      if 0xD800 <= cu <= 0xDBFF then
        if At(t, p + 4) != '\\' || At(t, p + 5) != 'u' then None
        else match CodeUnit(t, p + 6)
          case None => None
          case Some(low) =>
            if low < 0xDC00 || low > 0xDFFF then None
            else Some((0x1_0000 + (cu - 0xD800) * 0x400 + (low - 0xDC00), 10))
      else if 0xDC00 <= cu <= 0xDFFF then None
      else Some((cu, 4))
  }

  /** The character a one-letter escape stands for. */
  function SimpleEscape(c: char): Option<char> {
    match c
    case '"' => Some('"')
    case '\\' => Some('\\')
    case '/' => Some('/')
    case 'b' => Some(8 as char)
    case 'f' => Some(12 as char)
    case 'n' => Some('\n')
    case 'r' => Some('\r')
    case 't' => Some('\t')
    case _ => None
  }

  /** The bytes that may not stand in a literal: its terminator and what has to be escaped. */
  predicate IsRefused(c: char) { c == '\0' || c == '\t' || c == '\n' }

  /** One element of a string literal: its bytes and where the next one starts; None at its end and on errors. */
  function Piece(t: string, p: nat): (r: Option<(string, nat)>)
    requires p <= |t|
    ensures r.Some? ==> p < r.value.1 <= |t| && r.value.0 != ""
  {
    var c := At(t, p);
    if IsRefused(c) || c == '"' then None
    else if c != '\\' then Some(([c], p + 1))
    else if At(t, p + 1) == 'u' then
      match UnicodeEscape(t, p + 2)
      case None => None
      case Some((cp, n)) => Some((Utf8.Encode(cp), p + 2 + n))
    else
      match SimpleEscape(At(t, p + 1))
      case None => None
      case Some(e) => Some(([e], p + 2))
  }

  /** The bytes of a string literal from `p` up to its closing quote, and the position behind it. */
  function Unescape(t: string, p: nat): (r: Option<(string, nat)>)
    requires p <= |t|
    ensures r.Some? ==> p < r.value.1 <= |t|
    decreases |t| - p
  {
    if At(t, p) == '"' then Some(("", p + 1))
    else
      match Piece(t, p)
      case None => None
      case Some((s, q)) =>
        match Unescape(t, q)
        case None => None
        case Some((rest, end)) => Some((s + rest, end))
  }

  /** A string literal at `p`. */
  function StringAt(t: string, p: nat): (r: Option<(string, nat)>)
    requires p <= |t|
    ensures r.Some? ==> p + 1 < r.value.1 <= |t|
  {
    if At(t, p) != '"' then None
    else
      match Unescape(t, p + 1)
      case None => None
      case Some((s, end)) => if Utf8.Valid(s) then Some((s, end)) else None
  }

  // ---------------------------------------------------------------- numbers

  const LONG_MIN: int := -0x8000_0000_0000_0000
  const LONG_MAX: int := 0x7FFF_FFFF_FFFF_FFFF

  datatype Number = Integer(i: int) | Decimal(f: Floats.Float)

  predicate IsSign(c: char) { c == '+' || c == '-' }

  predicate IsExponent(c: char) { c == 'e' || c == 'E' }

  function DigitsEnd(t: string, p: nat): (q: nat)
    requires p <= |t|
    ensures p <= q <= |t|
    ensures forall i :: p <= i < q ==> IsDigit(t[i])
    ensures !IsDigit(At(t, q))
    decreases |t| - p
  {
    if IsDigit(At(t, p)) then DigitsEnd(t, p + 1) else p
  }

  /** The value of a sequence of decimal digits. */
  function DigitsValue(s: string): nat
    requires forall i :: 0 <= i < |s| ==> IsDigit(s[i])
  {
    if s == "" then 0 else
      var last := s[|s|-1];
      assert IsDigit(last);
      DigitsValue(s[..|s|-1]) * 10 + (last as int - '0' as int)
  }

  /** `isspace`, which `strtol` skips. */
  function SkipSpace(t: string, p: nat): (q: nat)
    requires p <= |t|
    ensures p <= q <= |t|
    ensures IsSign(At(t, p)) || IsDigit(At(t, p)) ==> q == p
    decreases |t| - p
  {
    if IsBlank(At(t, p)) || 11 <= At(t, p) as int <= 13 then SkipSpace(t, p + 1) else p
  }

  /** The end of a decimal fraction and exponent behind the digits, as `strtod` reads them. */
  function DecimalEnd(t: string, p: nat): (q: nat)
    requires p <= |t|
    ensures p <= q <= |t|
  {
    var f := if At(t, p) == '.' then DigitsEnd(t, p + 1) else p;
    if IsExponent(At(t, f)) then
      var d := if IsSign(At(t, f + 1)) then f + 2 else f + 1;
      if IsDigit(At(t, d)) then DigitsEnd(t, d) else f
    else f
  }

  /** The exponent at `p`; zero if there is none. */
  function ExponentAt(t: string, p: nat): int
    requires p <= |t|
  {
    var d := if IsSign(At(t, p + 1)) then p + 2 else p + 1;
    if !IsExponent(At(t, p)) || !IsDigit(At(t, d)) then 0
    else
      var e: int := DigitsValue(t[d..DigitsEnd(t, d)]);
      if At(t, p + 1) == '-' then 0 - e else e
  }

  /** The decimal number whose digits start at `d`, rounded to a double as `strtod` does; none if it is rounded to
      infinity. */
  function DecimalAt(t: string, d: nat, negative: bool): Option<Floats.Float>
    requires d <= |t|
  {
    var e := DigitsEnd(t, d);
    var f := if At(t, e) == '.' then DigitsEnd(t, e + 1) else e;
    var fraction := if At(t, e) == '.' then t[e+1..f] else "";
    Floats.FromDecimal(negative, DigitsValue(t[d..e] + fraction), ExponentAt(t, f) - |fraction|)
  }

  /** A number at `p`, and the position behind it; integers out of the range of `long` are refused, and decimal
      numbers that are rounded to infinity. */
  function NumberAt(t: string, p: nat): (r: Option<(Number, nat)>)
    requires p <= |t|
    ensures r.Some? ==> p < r.value.1 <= |t|
    ensures r.Some? && r.value.0.Integer? ==> LONG_MIN <= r.value.0.i <= LONG_MAX
  {
    var s := SkipSpace(t, p);
    var d := if IsSign(At(t, s)) then s + 1 else s;
    var e := DigitsEnd(t, d);
    if d == e then None
    else if At(t, e) == '.' || IsExponent(At(t, e)) then
      match DecimalAt(t, d, At(t, s) == '-')
      case None => None
      case Some(f) => Some((Decimal(f), DecimalEnd(t, e)))
    else
      var n: int := if At(t, s) == '-' then 0 - DigitsValue(t[d..e]) else DigitsValue(t[d..e]);
      if LONG_MIN <= n <= LONG_MAX then Some((Integer(n), e)) else None
  }
}
