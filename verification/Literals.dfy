/** String and integer literals: what the printer writes (lib/value.c) and the scanner reads back. */
module Literals {
  import opened Text
  import opened Tokens
  import Floats
  import Utf8

  // ---------------------------------------------------------------- strings

  function HexChar(n: nat): char
    requires n < 16
  {
    if n < 10 then ('0' as int + n) as char else ('a' as int + n - 10) as char
  }

  function EscapeChar(c: char): string {
    match c
    case '"' => "\\\""
    case '\\' => "\\\\"
    case '\n' => "\\n"
    case '\r' => "\\r"
    case '\t' => "\\t"
    case _ =>
      if c as int == 8 then "\\b"
      else if c as int == 12 then "\\f"
      else if c as int < 0x20 then "\\u00" + [HexChar(c as int / 16), HexChar(c as int % 16)]
      else [c]
  }

  function Escape(s: string): string {
    if s == "" then "" else EscapeChar(s[0]) + Escape(s[1..])
  }

  function Quote(s: string): string {
    "\"" + Escape(s) + "\""
  }

  /** Writes the bytes of a C string, one escape or byte at a time. */
  method WriteString(s: string) returns (out: string)
    requires NulFree(s)
    ensures out == Escape(s)
  {
    out := "";
    var i := 0;
    assert s[0..] == s;
    while At(s, i) != '\0'
      invariant i <= |s|
      invariant out + Escape(s[i..]) == Escape(s)
      decreases |s| - i
    {
      assert s[i..][1..] == s[i+1..];
      out := out + EscapeChar(s[i]);
      i := i + 1;
    }
  }

  lemma PieceOfEscape(t: string, p: nat, c: char)
    requires c != '\0' && Has(t, p, EscapeChar(c))
    ensures Piece(t, p) == Some(([c], p + |EscapeChar(c)|))
    ensures At(t, p) != '"'
  {
    var e := EscapeChar(c);
    HasAt(t, p, e, 0);
    if |e| == 2 {
      HasAt(t, p, e, 1);
    } else if |e| == 6 {
      HasAt(t, p, e, 1);
      HasAt(t, p, e, 2);
      HasAt(t, p, e, 3);
      HasAt(t, p, e, 4);
      HasAt(t, p, e, 5);
      HexDigits(c as int / 16);
      HexDigits(c as int % 16);
    }
  }

  lemma HexDigits(n: nat)
    requires n < 16
    ensures HexDigit(HexChar(n)) == Some(n)
  {
  }

  lemma UnescapeStep(t: string, p: nat, piece: string, q: nat, rest: string, end: nat)
    requires p <= |t| && q <= |t| && At(t, p) != '"'
    requires Piece(t, p) == Some((piece, q)) && Unescape(t, q) == Some((rest, end))
    ensures Unescape(t, p) == Some((piece + rest, end))
  {
    hide Piece;
  }

  lemma UnescapeEnd(t: string, p: nat)
    requires Has(t, p, "\"")
    ensures Unescape(t, p) == Some(("", p + 1))
  {
    HasAt(t, p, "\"", 0);
  }

  /** Scanning undoes escaping, byte for byte. */
  lemma {:induction false} UnescapeEscape(t: string, p: nat, s: string)
    requires NulFree(s) && Has(t, p, Escape(s)) && Has(t, p + |Escape(s)|, "\"")
    ensures Unescape(t, p) == Some((s, p + |Escape(s)| + 1))
    decreases s
  {
    hide Piece, Unescape, EscapeChar, Has;
    if s == "" {
      UnescapeEnd(t, p);
    } else {
      var e, rest := EscapeChar(s[0]), Escape(s[1..]);
      HasConcat(t, p, e, rest);
      PieceOfEscape(t, p, s[0]);
      UnescapeEscape(t, p + |e|, s[1..]);
      UnescapeStep(t, p, [s[0]], p + |e|, s[1..], p + |Escape(s)| + 1);
      assert s == [s[0]] + s[1..];
    }
  }

  /** The literal at `p` is what is read behind its quote, if it is valid UTF-8. */
  lemma StringAtIs(t: string, p: nat, s: string, end: nat)
    requires At(t, p) == '"'
    ensures StringAt(t, p) == Some((s, end)) <==> Unescape(t, p + 1) == Some((s, end)) && Utf8.Valid(s)
    ensures Unescape(t, p + 1) == Some((s, end)) && !Utf8.Valid(s) ==> StringAt(t, p) == None
    ensures Unescape(t, p + 1) == None ==> StringAt(t, p) == None
  {
    hide Utf8.Valid, Unescape;
    match Unescape(t, p + 1)
    case None =>
    case Some((r, e)) =>
      if r == s && e == end {
        assert StringAt(t, p) == if Utf8.Valid(s) then Some((s, end)) else None;
      }
  }

  /** A printed string is read back, and consumed exactly, if it is valid UTF-8; otherwise it is refused. */
  lemma StringRoundTrip(t: string, p: nat, s: string)
    requires NulFree(s) && Has(t, p, Quote(s))
    ensures StringAt(t, p) == if Utf8.Valid(s) then Some((s, p + |Quote(s)|)) else None
  {
    hide Utf8.Valid, Unescape, StringAt, Escape, Has;
    var body := Escape(s) + "\"";
    assert Quote(s) == "\"" + body;
    HasConcat(t, p, "\"", body);
    HasAt(t, p, "\"", 0);
    HasConcat(t, p + 1, Escape(s), "\"");
    UnescapeEscape(t, p + 1, s);
    StringAtIs(t, p, s, p + |Quote(s)|);
  }

  // ---------------------------------------------------------------- keys, which are printed as they are

  /** No byte that the scanner treats specially inside a literal. */
  predicate Plain(s: string) {
    forall i :: 0 <= i < |s| ==> !IsRefused(s[i]) && s[i] != '"' && s[i] != '\\'
  }

  /** No bytes that would end or escape a name printed between quotes. */
  predicate Unquoted(s: string) {
    forall i :: 0 <= i < |s| ==> s[i] != '"' && s[i] != '\\'
  }

  /** What the scanner reads is no longer than what it consumes, and as long only where nothing is escaped. */
  lemma {:induction false} UnescapeShrinks(t: string, p: nat)
    requires p <= |t| && Unescape(t, p).Some?
    ensures var (s, end) := Unescape(t, p).value;
      |s| <= end - p - 1 && (|s| == end - p - 1 ==> Has(t, p, s) && Plain(s))
    decreases |t| - p
  {
    if At(t, p) != '"' {
      var (piece, q) := Piece(t, p).value;
      var (rest, end) := Unescape(t, q).value;
      UnescapeShrinks(t, q);
      if |piece + rest| == end - p - 1 {
        assert piece == [t[p]] && q == p + 1;
        assert t[p..p + 1] == piece;
        HasConcat(t, p, piece, rest);
      }
    }
  }

  lemma {:induction false} UnescapePlain(t: string, p: nat, s: string)
    requires Plain(s) && Has(t, p, s) && Has(t, p + |s|, "\"")
    ensures Unescape(t, p) == Some((s, p + |s| + 1))
    decreases s
  {
    hide Unescape, Has;
    if s == "" {
      UnescapeEnd(t, p);
    } else {
      HasTail(t, p, s);
      UnescapePlain(t, p + 1, s[1..]);
      UnescapeStep(t, p, [s[0]], p + 1, s[1..], p + |s| + 1);
      assert s == [s[0]] + s[1..];
    }
  }

  lemma KeyBody(t: string, p: nat, key: string)
    requires Has(t, p, key) && Has(t, p + |key|, "\"")
    ensures Unescape(t, p) == Some((key, p + |key| + 1)) <==> Plain(key)
  {
    hide Unescape;
    if Plain(key) {
      UnescapePlain(t, p, key);
    } else if Unescape(t, p) == Some((key, p + |key| + 1)) {
      UnescapeShrinks(t, p);
    }
  }

  /** A key between quotes is read back exactly if it is plain and valid UTF-8. */
  lemma KeyRoundTrip(t: string, p: nat, key: string)
    requires At(t, p) == '"' && Has(t, p + 1, key) && Has(t, p + 1 + |key|, "\"")
    ensures StringAt(t, p) == Some((key, p + |key| + 2)) <==> Plain(key) && Utf8.Valid(key)
  {
    hide *;
    KeyBody(t, p + 1, key);
    StringAtIs(t, p, key, p + |key| + 2);
  }

  /** A key with a tab or newline but no quote or backslash is refused. */
  lemma {:induction false} UnescapeControl(t: string, p: nat, s: string)
    requires !Plain(s) && Unquoted(s) && Has(t, p, s)
    ensures Unescape(t, p) == None
    decreases s
  {
    HasAt(t, p, s, 0);
    if !IsRefused(s[0]) {
      assert s == [s[0]] + s[1..];
      HasConcat(t, p, [s[0]], s[1..]);
      UnescapeControl(t, p + 1, s[1..]);
    }
  }

  // ---------------------------------------------------------------- integers

  function Digits(n: nat): (s: string)
    ensures s != "" && forall i :: 0 <= i < |s| ==> IsDigit(s[i])
  {
    if n < 10 then [('0' as int + n) as char] else Digits(n / 10) + [('0' as int + n % 10) as char]
  }

  function DecimalText(i: int): string {
    if i < 0 then "-" + Digits(-i) else Digits(i)
  }

  lemma {:induction false} DigitsRoundTrip(n: nat)
    ensures DigitsValue(Digits(n)) == n
  {
    if n >= 10 {
      DigitsRoundTrip(n / 10);
      var s := Digits(n);
      assert s[..|s|-1] == Digits(n / 10);
    }
  }

  lemma DigitRun(t: string, p: nat, s: string)
    requires (forall i :: 0 <= i < |s| ==> IsDigit(s[i])) && Has(t, p, s) && !IsDigit(At(t, p + |s|))
    ensures DigitsEnd(t, p) == p + |s|
  {
  }

  /** A printed integer is read back when no digit, fraction or exponent follows it. */
  lemma IntegerRoundTrip(t: string, p: nat, i: int)
    requires Has(t, p, DecimalText(i)) && LONG_MIN <= i <= LONG_MAX
    requires !IsDigit(At(t, p + |DecimalText(i)|)) && At(t, p + |DecimalText(i)|) != '.'
    requires !IsExponent(At(t, p + |DecimalText(i)|))
    ensures NumberAt(t, p) == Some((Integer(i), p + |DecimalText(i)|))
  {
    hide DigitsValue, DigitsEnd, Digits, DecimalEnd, DecimalAt;
    var n := if i < 0 then -i else i;
    var s := Digits(n);
    HasAt(t, p, DecimalText(i), 0);
    DigitsRoundTrip(n);
    if i < 0 {
      HasConcat(t, p, "-", s);
      HasAt(t, p + 1, s, 0);
      DigitRun(t, p + 1, s);
    } else {
      DigitRun(t, p, s);
    }
  }

  // ---------------------------------------------------------------- floats

  /** The last `width` decimal digits of a number. */
  function FixedDigits(n: nat, width: nat): (s: string)
    ensures |s| == width && forall i :: 0 <= i < |s| ==> IsDigit(s[i])
  {
    if width == 0 then "" else FixedDigits(n / 10, width - 1) + [('0' as int + n % 10) as char]
  }

  /** An exponent has at least two digits. */
  function ExponentText(e: int): (s: string)
    ensures |s| > 1 && IsSign(s[0]) && forall i :: 1 <= i < |s| ==> IsDigit(s[i])
  {
    var n := if e < 0 then 0 - e else e;
    (if e < 0 then "-" else "+") + ((if n < 10 then "0" else "") + Digits(n))
  }

  /** A float in exponent form, with one digit in front of the point. */
  function FloatText(f: Floats.Float): string {
    var (n, e) := Floats.ToDecimal(f);
    var s := FixedDigits(n, 1 + Floats.DECIMAL_DIG);
    (if f.negative then "-" else "") + (s[..1] + ("." + (s[1..] + ("e" + ExponentText(e)))))
  }

  lemma {:induction false} FixedValue(n: nat, width: nat)
    requires n < Floats.Power(10, width)
    ensures DigitsValue(FixedDigits(n, width)) == n
  {
    if width > 0 {
      assert Floats.Power(10, width) == 10 * Floats.Power(10, width - 1);
      FixedValue(n / 10, width - 1);
      var s := FixedDigits(n, width);
      assert s[..|s|-1] == FixedDigits(n / 10, width - 1);
    }
  }

  /** A leading zero does not change the value. */
  lemma {:induction false} LeadingZero(s: string)
    requires forall i :: 0 <= i < |s| ==> IsDigit(s[i])
    ensures DigitsValue("0" + s) == DigitsValue(s)
  {
    if s == "" {
      assert "0" + s == "0" && "0"[..0] == "";
    } else {
      assert ("0" + s)[..|s|] == "0" + s[..|s|-1];
      LeadingZero(s[..|s|-1]);
    }
  }

  /** The exponent is read back. */
  lemma ExponentReads(t: string, p: nat, e: int)
    requires Has(t, p, "e" + ExponentText(e)) && !IsDigit(At(t, p + 1 + |ExponentText(e)|))
    ensures p <= |t| && IsExponent(At(t, p)) && ExponentAt(t, p) == e
    ensures p + 2 <= |t| && IsSign(At(t, p + 1)) && IsDigit(At(t, p + 2))
    ensures DigitsEnd(t, p + 2) == p + 1 + |ExponentText(e)|
  {
    hide DigitsValue, Digits, DigitsEnd;
    var n := if e < 0 then 0 - e else e;
    var digits := (if n < 10 then "0" else "") + Digits(n);
    var sign := if e < 0 then "-" else "+";
    HasConcat(t, p, "e", sign + digits);
    HasConcat(t, p + 1, sign, digits);
    HasAt(t, p, "e", 0);
    HasAt(t, p + 1, sign, 0);
    HasAt(t, p + 2, digits, 0);
    DigitRun(t, p + 2, digits);
    DigitsRoundTrip(n);
    LeadingZero(Digits(n));
    assert "" + Digits(n) == Digits(n);
    assert t[p + 2..p + 2 + |digits|] == digits;
  }

  /** The digits on both sides of the point are read. */
  lemma MantissaReads(t: string, d: nat, s: string, rest: string)
    requires s != "" && (forall i :: 0 <= i < |s| ==> IsDigit(s[i])) && rest != "" && rest[0] == 'e'
    requires Has(t, d, s[..1] + ("." + (s[1..] + rest)))
    ensures d + 1 + |s| <= |t| && DigitsEnd(t, d) == d + 1 && At(t, d + 1) == '.' && DigitsEnd(t, d + 2) == d + 1 + |s|
    ensures t[d..d + 1] + t[d + 2..d + 1 + |s|] == s && Has(t, d + 1 + |s|, rest)
  {
    hide DigitsEnd;
    HasConcat(t, d, s[..1], "." + (s[1..] + rest));
    HasConcat(t, d + 1, ".", s[1..] + rest);
    HasConcat(t, d + 2, s[1..], rest);
    HasAt(t, d + 1, ".", 0);
    HasAt(t, d + 1 + |s|, rest, 0);
    DigitRun(t, d, s[..1]);
    DigitRun(t, d + 2, s[1..]);
    assert s == s[..1] + s[1..];
  }

  /** A printed float is read back, and consumed exactly, when no digit follows it. */
  lemma FloatRoundTrip(t: string, p: nat, f: Floats.Float)
    requires Has(t, p, FloatText(f)) && !IsDigit(At(t, p + |FloatText(f)|))
    ensures NumberAt(t, p) == Some((Decimal(f), p + |FloatText(f)|))
  {
    hide DigitsValue, DigitsEnd, FixedDigits, ExponentText, ExponentAt, Floats.ToDecimal, Floats.FromDecimal, Has;
    var (n, e) := Floats.ToDecimal(f);
    var s := FixedDigits(n, 1 + Floats.DECIMAL_DIG);
    var sign, rest := if f.negative then "-" else "", "e" + ExponentText(e);
    var body := s[..1] + ("." + (s[1..] + rest));
    HasConcat(t, p, sign, body);
    var d := p + |sign|;
    HasAt(t, d, body, 0);
    if f.negative {
      HasAt(t, p, sign, 0);
    }
    MantissaReads(t, d, s, rest);
    ExponentReads(t, d + 1 + |s|, e);
    Floats.FloatRoundTrip(f);
    DigitsOfFloat(f);
  }

  lemma DigitsOfFloat(f: Floats.Float)
    ensures DigitsValue(FixedDigits(Floats.ToDecimal(f).0, 1 + Floats.DECIMAL_DIG)) == Floats.ToDecimal(f).0
  {
    hide FixedDigits, DigitsValue, Floats.Decimal;
    Floats.DecimalDigits(Floats.Magnitude(f), Floats.UNITS);
    Floats.TenPowersOf();
    FixedValue(Floats.ToDecimal(f).0, 1 + Floats.DECIMAL_DIG);
  }
}
