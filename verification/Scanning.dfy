/** The scanner object (lib/scanner.c): a position that moves over a text. */
module Scanning {
  import opened Text
  import opened Tokens
  import Utf8

  /** What a string literal yields when `out` has been read already. */
  ghost function Prepended(out: string, r: Option<(string, nat)>): Option<(string, nat)> {
    match r
    case None => None
    case Some((s, end)) => Some((out + s, end))
  }

  lemma EncodeIsBytes(cp: int)
    requires Utf8.Scalar(cp)
    ensures Utf8.AllBytes(Utf8.Encode(cp))
  {
  }

  /** Four hexadecimal digits, read one after the other. */
  method ReadCodeUnit(t: string, p: nat) returns (r: Option<nat>)
    ensures r == CodeUnit(t, p)
  {
    var digits := [0, 0, 0, 0];
    for i := 0 to 4
      invariant |digits| == 4
      invariant forall j :: 0 <= j < i ==> HexDigit(At(t, p + j)) == Some(digits[j])
    {
      match HexDigit(At(t, p + i)) {
        case None => return None;
        case Some(d) => digits := digits[i := d];
      }
    }
    assert HexDigit(At(t, p + 0)) == Some(digits[0]) && HexDigit(At(t, p + 1)) == Some(digits[1]);
    assert HexDigit(At(t, p + 2)) == Some(digits[2]) && HexDigit(At(t, p + 3)) == Some(digits[3]);
    r := Some(((digits[0] * 16 + digits[1]) * 16 + digits[2]) * 16 + digits[3]);
  }

  /** The bytes of the `\u` escape whose digits start at `p`, and how far to move on; 0 if it is not one. */
  method ReadUnicodeChar(t: string, p: nat) returns (out: string, size: nat)
    ensures UnicodeEscape(t, p).None? ==> size == 0
    ensures UnicodeEscape(t, p).Some? ==>
      UnicodeEscape(t, p).value.1 == size && out == Utf8.Encode(UnicodeEscape(t, p).value.0)
  {
    out, size := "", 0;
    var cu := ReadCodeUnit(t, p);
    if cu.None? {
      return;
    }
    if 0xD800 <= cu.value <= 0xDBFF {
      if At(t, p + 4) != '\\' || At(t, p + 5) != 'u' {
        return;
      }
      var low := ReadCodeUnit(t, p + 6);
      if low.None? || low.value < 0xDC00 || low.value > 0xDFFF {
        return;
      }
      return Utf8.Encode(0x1_0000 + (cu.value - 0xD800) * 0x400 + (low.value - 0xDC00)), 10;
    } else if 0xDC00 <= cu.value <= 0xDFFF {
      return;
    }
    return Utf8.Encode(cu.value), 4;
  }

  class Scanner {
    const text: string
    const comments: bool
    var p: nat
    var line: nat
    var lastComment: Option<nat>

    ghost predicate Valid()
      reads this
    {
      p <= |text| && Utf8.AllBytes(text)
    }

    function Here(): Cursor
      reads this
    {
      Cursor(p, line, lastComment)
    }

    constructor (text: string, comments: bool)
      requires Utf8.AllBytes(text)
      ensures Valid() && this.text == text && this.comments == comments && Here() == Cursor(0, 0, None)
    {
      this.text, this.comments := text, comments;
      p, line, lastComment := 0, 0, None;
    }

    /** Moves to the next token. */
    method Advance()
      requires Valid()
      modifies this
      ensures Valid() && Here() == Blanks(text, comments, old(Here()))
    {
      while true
        invariant Valid() && Blanks(text, comments, Here()) == Blanks(text, comments, old(Here()))
        decreases |text| - p
      {
        match At(text, p) {
          case ' ' => p := p + 1;
          case '\t' => p := p + 1;
          case '\n' =>
            if line == p {
              lastComment := None;
            }
            p := p + 1;
            line := p;
          case '#' =>
            if !comments {
              return;
            }
            if lastComment.None? {
              lastComment := Some(p);
            }
            p := LineEnd(text, p);
          case _ => return;
        }
      }
    }

    method Peek() returns (c: char)
      requires Valid()
      modifies this
      ensures Valid() && Here() == Blanks(text, comments, old(Here())) && c == At(text, p)
    {
      Advance();
      c := At(text, p);
    }

    /** Reads the characters of `op` if they come next. */
    method ExpectOperator(op: string) returns (ok: bool)
      requires Valid()
      modifies this
      ensures Valid()
      ensures var c := Blanks(text, comments, old(Here()));
        ok == Has(text, c.p, op) && Here() == if ok then c.(p := c.p + |op|) else c
    {
      Advance();
      ok := Has(text, p, op);
      if ok {
        p := p + |op|;
      }
    }

    method WordLen() returns (n: nat)
      requires Valid()
      modifies this
      ensures Valid() && Here() == Blanks(text, comments, old(Here())) && n == WordLength(text, p)
    {
      Advance();
      if !IsAlpha(At(text, p)) {
        return 0;
      }
      n := 1;
      while IsWordChar(At(text, p + n))
        invariant p + n <= |text| && WordEnd(text, p) == WordEnd(text, p + n)
        decreases |text| - n
      {
        n := n + 1;
      }
    }

    method ReadKeyword(word: string) returns (ok: bool)
      requires Valid()
      modifies this
      ensures Valid()
      ensures var c := Blanks(text, comments, old(Here()));
        ok == KeywordAt(text, c.p, word) && Here() == if ok then c.(p := c.p + |word|) else c
    {
      var n := WordLen();
      ok := n == |word| && Has(text, p, word);
      if ok {
        p := p + n;
      }
    }

    /** Reads a string literal. On an error the scanner stays in front of it. */
    method ExpectString() returns (r: Option<string>)
      requires Valid()
      modifies this
      ensures Valid()
      ensures var c := Blanks(text, comments, old(Here()));
        && (r.Some? ==> Here() == c.(p := p) && StringAt(text, c.p) == Some((r.value, p)))
        && (r.None? ==> Here() == c && StringAt(text, c.p) == None)
    {
      Advance();
      if At(text, p) != '"' {
        return None;
      }
      var out, end := ScanBody(text, p + 1);
      if end.None? {
        return None;
      }
      var good := Utf8.Verify(out, 0);
      if good != |out| {
        return None;
      }
      p := end.value;
      r := Some(out);
    }

    /** An integer in the range of `long`, or a decimal number, rounded to the nearest double. */
    method ReadNumber() returns (r: Option<Number>)
      requires Valid()
      modifies this
      ensures Valid()
      ensures var c := Blanks(text, comments, old(Here()));
        && (r.Some? ==> Here() == c.(p := p) && NumberAt(text, c.p) == Some((r.value, p)))
        && (r.None? ==> Here() == c && NumberAt(text, c.p) == None)
    {
      hide Blanks, DecimalAt;
      Advance();
      var start, digits, end, n := ParseLong(text, p);
      DigitsRun(text, digits);
      if digits == end {
        return None;
      }
      if At(text, end) == '.' || IsExponent(At(text, end)) {
        var decimal := DecimalAt(text, digits, At(text, start) == '-');
        if decimal.None? {
          return None;
        }
        r := Some(Decimal(decimal.value));
        p := DecimalEnd(text, end);
        return;
      }
      if n.None? {
        return None;
      }
      p := end;
      r := Some(Integer(n.value));
    }
  }

  /** Reads a decimal number as `strtol` does: where the number starts, where its digits start and end, and its
      value unless it is out of range. */
  method ParseLong(t: string, p: nat) returns (start: nat, digits: nat, end: nat, n: Option<int>)
    requires p <= |t|
    ensures start == SkipSpace(t, p) && digits == (if IsSign(At(t, start)) then start + 1 else start) <= |t|
    ensures end == DigitsEnd(t, digits)
    ensures var v: int := if At(t, start) == '-' then 0 - RunValue(t, digits, end) else RunValue(t, digits, end);
      n == if LONG_MIN <= v <= LONG_MAX then Some(v) else None
  {
    start := p;
    while IsBlank(At(t, start)) || 11 <= At(t, start) as int <= 13
      invariant p <= start <= |t| && SkipSpace(t, start) == SkipSpace(t, p)
      decreases |t| - start
    {
      start := start + 1;
    }
    digits := if IsSign(At(t, start)) then start + 1 else start;
    var value;
    if At(t, start) == '-' {
      end, value := ReadDigits(t, digits, 0 - LONG_MIN);
      n := None;
      if value.Some? {
        var size: int := value.value;
        n := Some(0 - size);
      }
    } else {
      end, value := ReadDigits(t, digits, LONG_MAX);
      n := value;
    }
  }

  ghost function RunValue(t: string, from: nat, end: nat): nat {
    if from <= end <= |t| && forall i :: from <= i < end ==> IsDigit(t[i]) then DigitsValue(t[from..end]) else 0
  }

  /** A run of digits and its value, unless that is beyond `limit`; the count stops at the first digit too many. */
  method ReadDigits(t: string, from: nat, limit: nat) returns (end: nat, value: Option<nat>)
    requires from <= |t|
    ensures end == DigitsEnd(t, from)
    ensures value == if RunValue(t, from, end) <= limit then Some(RunValue(t, from, end)) else None
  {
    hide RunValue;
    end := from;
    var n: nat := 0;
    var overflow := false;
    NoDigits(t, from);
    while IsDigit(At(t, end))
      invariant from <= end <= |t| && DigitsEnd(t, end) == DigitsEnd(t, from)
      invariant forall i :: from <= i < end ==> IsDigit(t[i])
      invariant if overflow then RunValue(t, from, end) > limit else n == RunValue(t, from, end) <= limit
      decreases |t| - end
    {
      var digit := At(t, end) as int - '0' as int;
      MoreDigits(t, from, end);
      if overflow || n * 10 + digit > limit {
        overflow := true;
      } else {
        n := n * 10 + digit;
      }
      end := end + 1;
    }
    value := if overflow then None else Some(n);
  }

  lemma DigitsRun(t: string, from: nat)
    requires from <= |t|
    ensures RunValue(t, from, DigitsEnd(t, from)) == DigitsValue(t[from..DigitsEnd(t, from)])
  {
  }

  lemma NoDigits(t: string, from: nat)
    requires from <= |t|
    ensures RunValue(t, from, from) == 0
  {
  }

  lemma MoreDigits(t: string, from: nat, end: nat)
    requires from <= end < |t| && forall i :: from <= i <= end ==> IsDigit(t[i])
    ensures RunValue(t, from, end + 1) == RunValue(t, from, end) * 10 + (t[end] as int - '0' as int)
  {
    assert t[from..end + 1] == t[from..end] + [t[end]];
    assert t[from..end + 1][..end - from] == t[from..end];
  }

  /** Collects the bytes of a literal from `start` up to its closing quote; `end` is the position behind it. */
  method ScanBody(t: string, start: nat) returns (out: string, end: Option<nat>)
    requires start <= |t| && Utf8.AllBytes(t)
    ensures Utf8.AllBytes(out)
    ensures Unescape(t, start) == if end.Some? then Some((out, end.value)) else None
    ensures end.Some? ==> start < end.value <= |t|
  {
    hide Unescape, Piece;
    out := "";
    PrependNothing(Unescape(t, start));
    var p := start;
    while true
      invariant start <= p <= |t| && Utf8.AllBytes(out)
      invariant Unescape(t, start) == Prepended(out, Unescape(t, p))
      decreases |t| - p
    {
      var piece, q := ScanPiece(t, p);
      ScanStep(t, p, out);
      if q.None? {
        if At(t, p) == '"' {
          return out, Some(p + 1);
        }
        return out, None;
      }
      out := out + piece;
      p := q.value;
    }
  }

  lemma PrependNothing(r: Option<(string, nat)>)
    ensures Prepended("", r) == r
  {
    if r.Some? { assert "" + r.value.0 == r.value.0; }
  }

  lemma ScanStep(t: string, p: nat, out: string)
    requires p <= |t|
    ensures At(t, p) == '"' ==> Prepended(out, Unescape(t, p)) == Some((out, p + 1)) && Piece(t, p) == None
    ensures At(t, p) != '"' && Piece(t, p) == None ==> Prepended(out, Unescape(t, p)) == None
    ensures Piece(t, p).Some? ==>
      var (piece, q) := Piece(t, p).value;
      Prepended(out, Unescape(t, p)) == Prepended(out + piece, Unescape(t, q))
  {
    hide UnicodeEscape, SimpleEscape;
    if Piece(t, p).Some? {
      var (piece, q) := Piece(t, p).value;
      if Unescape(t, q).Some? {
        var (rest, end) := Unescape(t, q).value;
        assert out + (piece + rest) == out + piece + rest;
      }
    } else if At(t, p) == '"' {
      assert out + "" == out;
    }
  }

  /** One byte or escape of a literal. */
  method ScanPiece(t: string, p: nat) returns (piece: string, q: Option<nat>)
    requires p <= |t| && Utf8.AllBytes(t)
    ensures Piece(t, p) == if q.Some? then Some((piece, q.value)) else None
    ensures q.Some? ==> p < q.value <= |t| && Utf8.AllBytes(piece)
  {
    hide UnicodeEscape;
    piece, q := "", None;
    var c := At(t, p);
    if c == '\0' || c == '\t' || c == '\n' || c == '"' {
      return;
    }
    if c != '\\' {
      return [c], Some(p + 1);
    }
    if At(t, p + 1) == 'u' {
      var out, size := ReadUnicodeChar(t, p + 2);
      if size == 0 {
        return;
      }
      EncodeIsBytes(UnicodeEscape(t, p + 2).value.0);
      return out, Some(p + 2 + size);
    }
    match SimpleEscape(At(t, p + 1)) {
      case None => return;
      case Some(e) => return [e], Some(p + 2);
    }
  }
}
