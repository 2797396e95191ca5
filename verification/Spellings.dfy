/** String literals as they can be written, and what they stand for (lib/scanner.c, section 7 of RFC 8259). */
module Spellings {
  import opened Text
  import opened Tokens
  import opened Literals
  import Utf8

  /** One character as it is written: itself, one of the short escapes, the four digits of a code unit, or the digits of
      two that form a surrogate pair. */
  datatype Spelling =
    | Itself(c: char)
    | Short(letter: char)
    | Unit(digits: string)
    | Pair(high: string, low: string)

  /** The short escapes. */
  const SHORT: map<char, char> :=
    map['"' := '"', '\\' := '\\', '/' := '/', 'b' := 8 as char, 'f' := 12 as char, 'n' := 10 as char, 'r' := 13 as char,
        't' := 9 as char]

  /** Hexadecimal digits, in either case. */
  const HEX: map<char, int> :=
    map['0' := 0, '1' := 1, '2' := 2, '3' := 3, '4' := 4, '5' := 5, '6' := 6, '7' := 7, '8' := 8, '9' := 9,
        'a' := 10, 'b' := 11, 'c' := 12, 'd' := 13, 'e' := 14, 'f' := 15,
        'A' := 10, 'B' := 11, 'C' := 12, 'D' := 13, 'E' := 14, 'F' := 15]

  predicate IsFourHex(s: string) {
    |s| == 4 && s[0] in HEX && s[1] in HEX && s[2] in HEX && s[3] in HEX
  }

  function FourHex(s: string): int
    requires IsFourHex(s)
  {
    0x1000 * HEX[s[0]] + 0x100 * HEX[s[1]] + 0x10 * HEX[s[2]] + HEX[s[3]]
  }

  /** Only surrogates are written in pairs, and code units that are none stand for themselves. */
  predicate Proper(x: Spelling) {
    match x
    case Itself(c) => c !in {'\0', '\t', '\n', '"', '\\'}
    case Short(letter) => letter in SHORT
    case Unit(digits) => IsFourHex(digits) && Utf8.Scalar(FourHex(digits))
    case Pair(high, low) =>
      && IsFourHex(high) && IsFourHex(low)
      && 0xD800 <= FourHex(high) < 0xDC00 && 0xDC00 <= FourHex(low) < 0xE000
  }

  function SpellingText(x: Spelling): string {
    match x
    case Itself(c) => [c]
    case Short(letter) => ['\\', letter]
    case Unit(digits) => "\\u" + digits
    case Pair(high, low) => "\\u" + (high + ("\\u" + low))
  }

  /** What one spelling stands for; a surrogate pair stands for a code point above U+FFFF. */
  function SpellingMeaning(x: Spelling): string
    requires Proper(x)
  {
    match x
    case Itself(c) => [c]
    case Short(letter) => [SHORT[letter]]
    case Unit(digits) => Utf8.Encode(FourHex(digits))
    case Pair(high, low) => Utf8.Encode(0x1_0000 + (FourHex(high) - 0xD800) * 0x400 + (FourHex(low) - 0xDC00))
  }

  predicate AllProper(xs: seq<Spelling>) {
    forall i :: 0 <= i < |xs| ==> Proper(xs[i])
  }

  function BodyText(xs: seq<Spelling>): string {
    if xs == [] then "" else SpellingText(xs[0]) + BodyText(xs[1..])
  }

  function BodyMeaning(xs: seq<Spelling>): string
    requires AllProper(xs)
  {
    if xs == [] then "" else SpellingMeaning(xs[0]) + BodyMeaning(xs[1..])
  }

  // ---------------------------------------------------------------- every spelling is read

  lemma HexIs(c: char)
    ensures HexDigit(c).Some? <==> c in HEX
    ensures c in HEX ==> HexDigit(c) == Some(HEX[c]) && 0 <= HEX[c] < 16
  {
  }

  lemma FourHexRead(t: string, p: nat)
    ensures CodeUnit(t, p).Some? <==> p + 4 <= |t| && IsFourHex(t[p..p + 4])
    ensures CodeUnit(t, p).Some? ==> CodeUnit(t, p).value == FourHex(t[p..p + 4])
  {
    hide HexDigit;
    HexIs(At(t, p));
    HexIs(At(t, p + 1));
    HexIs(At(t, p + 2));
    HexIs(At(t, p + 3));
    HexIs('\0');
  }

  lemma ShortIs(c: char)
    ensures SimpleEscape(c).Some? <==> c in SHORT
    ensures c in SHORT ==> SimpleEscape(c) == Some(SHORT[c])
  {
  }

  lemma UnitAt(t: string, p: nat, digits: string)
    requires IsFourHex(digits) && Has(t, p, "\\u" + digits)
    ensures At(t, p) == '\\' && At(t, p + 1) == 'u' && CodeUnit(t, p + 2) == Some(FourHex(digits))
  {
    HasConcat(t, p, "\\u", digits);
    HasAt(t, p, "\\u", 0);
    HasAt(t, p, "\\u", 1);
    FourHexRead(t, p + 2);
  }

  lemma SpellingIsRead(t: string, p: nat, x: Spelling)
    requires Proper(x) && Has(t, p, SpellingText(x))
    ensures At(t, p) != '"' && Piece(t, p) == Some((SpellingMeaning(x), p + |SpellingText(x)|))
  {
    hide CodeUnit, SimpleEscape, IsFourHex, FourHex, Utf8.Encode;
    HasAt(t, p, SpellingText(x), 0);
    match x {
      case Itself(c) =>
      case Short(letter) =>
        HasAt(t, p, SpellingText(x), 1);
        ShortIs(letter);
        ShortIs('u');
      case Unit(digits) =>
        UnitAt(t, p, digits);
        FourLong(digits);
      case Pair(high, low) =>
        PairAt(t, p, high, low);
    }
  }

  lemma FourLong(s: string)
    requires IsFourHex(s)
    ensures |s| == 4
  {
  }

  lemma PairAt(t: string, p: nat, high: string, low: string)
    requires IsFourHex(high) && IsFourHex(low) && Has(t, p, "\\u" + (high + ("\\u" + low)))
    ensures At(t, p) == '\\' && At(t, p + 1) == 'u' && CodeUnit(t, p + 2) == Some(FourHex(high))
    ensures At(t, p + 6) == '\\' && At(t, p + 7) == 'u' && CodeUnit(t, p + 8) == Some(FourHex(low))
    ensures |"\\u" + (high + ("\\u" + low))| == 12
  {
    hide CodeUnit, FourHex;
    HasConcat(t, p, "\\u", high + ("\\u" + low));
    HasConcat(t, p + 2, high, "\\u" + low);
    HasConcat(t, p, "\\u", high);
    UnitAt(t, p, high);
    UnitAt(t, p + 6, low);
  }

  /** The scanner reads every literal as what its spellings stand for. */
  lemma {:induction false} BodyIsRead(t: string, p: nat, xs: seq<Spelling>)
    requires AllProper(xs) && Has(t, p, BodyText(xs) + "\"")
    ensures Unescape(t, p) == Some((BodyMeaning(xs), p + |BodyText(xs)| + 1))
    decreases xs
  {
    hide Piece, Unescape, SpellingText, SpellingMeaning, Has, Proper;
    HasConcat(t, p, BodyText(xs), "\"");
    if xs == [] {
      UnescapeEnd(t, p);
    } else {
      var e, rest := SpellingText(xs[0]), BodyText(xs[1..]);
      HasConcat(t, p, e, rest);
      HasConcat(t, p + |e|, rest, "\"");
      SpellingIsRead(t, p, xs[0]);
      BodyIsRead(t, p + |e|, xs[1..]);
      HasInside(t, p, e);
      HasInside(t, p + |e|, rest);
      UnescapeStep(t, p, SpellingMeaning(xs[0]), p + |e|, BodyMeaning(xs[1..]), p + |BodyText(xs)| + 1);
    }
  }

  lemma HasInside(t: string, p: nat, s: string)
    requires Has(t, p, s)
    ensures p + |s| <= |t|
  {
  }

  // ---------------------------------------------------------------- nothing else is read

  lemma PieceIsSpelling(t: string, p: nat) returns (x: Spelling)
    requires p <= |t| && Piece(t, p).Some?
    ensures Proper(x) && Has(t, p, SpellingText(x))
    ensures Piece(t, p) == Some((SpellingMeaning(x), p + |SpellingText(x)|))
  {
    hide CodeUnit, SimpleEscape, Utf8.Encode;
    if t[p] != '\\' {
      x := Itself(t[p]);
      assert t[p..p + 1] == [t[p]];
    } else if At(t, p + 1) != 'u' {
      ShortIs(At(t, p + 1));
      x := Short(t[p + 1]);
      assert t[p..p + 2] == ['\\', t[p + 1]];
    } else {
      x := UnicodeIsSpelling(t, p);
    }
    SpellingIsRead(t, p, x);
  }

  lemma UnicodeIsSpelling(t: string, p: nat) returns (x: Spelling)
    requires p + 2 <= |t| && t[p] == '\\' && t[p + 1] == 'u' && UnicodeEscape(t, p + 2).Some?
    ensures Proper(x) && Has(t, p, SpellingText(x))
  {
    hide CodeUnit, Utf8.Encode, FourHex, IsFourHex;
    FourHexRead(t, p + 2);
    var digits := t[p + 2..p + 6];
    assert t[p..p + 6] == "\\u" + digits;
    if 0xD800 <= FourHex(digits) <= 0xDBFF {
      FourHexRead(t, p + 8);
      var low := t[p + 8..p + 12];
      assert t[p..p + 12] == "\\u" + (digits + ("\\u" + low));
      x := Pair(digits, low);
    } else {
      x := Unit(digits);
    }
  }

  /** Whatever the scanner reads as a literal is a sequence of spellings, and stands for what they stand for. */
  lemma {:induction false} BodyIsSpelled(t: string, p: nat) returns (xs: seq<Spelling>)
    requires p <= |t| && Unescape(t, p).Some?
    ensures AllProper(xs) && Has(t, p, BodyText(xs) + "\"")
    ensures Unescape(t, p) == Some((BodyMeaning(xs), p + |BodyText(xs)| + 1))
    decreases |t| - p
  {
    hide Piece, SpellingText, SpellingMeaning, Has, Proper;
    if At(t, p) == '"' {
      xs := [];
      QuoteThere(t, p);
    } else {
      var x := PieceIsSpelling(t, p);
      var q := Piece(t, p).value.1;
      var rest := BodyIsSpelled(t, q);
      xs := [x] + rest;
      assert xs[1..] == rest;
      HasConcat(t, p, SpellingText(x), BodyText(rest) + "\"");
      assert SpellingText(x) + (BodyText(rest) + "\"") == BodyText(xs) + "\"";
    }
  }

  lemma QuoteThere(t: string, p: nat)
    requires At(t, p) == '"'
    ensures Has(t, p, BodyText([]) + "\"")
  {
    assert t[p..p + 1] == "" + "\"";
  }

  // ---------------------------------------------------------------- whole literals

  function Literal(xs: seq<Spelling>): string {
    "\"" + (BodyText(xs) + "\"")
  }

  /** A literal is read exactly if it stands for valid UTF-8. */
  lemma LiteralIsRead(t: string, p: nat, xs: seq<Spelling>)
    requires AllProper(xs) && Has(t, p, Literal(xs))
    ensures StringAt(t, p) == if Utf8.Valid(BodyMeaning(xs)) then Some((BodyMeaning(xs), p + |Literal(xs)|)) else None
  {
    hide Unescape, StringAt, BodyText, BodyMeaning, Has, Utf8.Valid;
    HasConcat(t, p, "\"", BodyText(xs) + "\"");
    HasAt(t, p, "\"", 0);
    BodyIsRead(t, p + 1, xs);
    StringAtIs(t, p, BodyMeaning(xs), p + |Literal(xs)|);
  }

  lemma LiteralIsSpelled(t: string, p: nat) returns (xs: seq<Spelling>)
    requires p <= |t| && StringAt(t, p).Some?
    ensures AllProper(xs) && Has(t, p, Literal(xs)) && Utf8.Valid(BodyMeaning(xs))
    ensures StringAt(t, p) == Some((BodyMeaning(xs), p + |Literal(xs)|))
  {
    hide Unescape, BodyText, BodyMeaning, Has, Utf8.Valid;
    xs := BodyIsSpelled(t, p + 1);
    QuoteOnly(t, p);
    HasConcat(t, p, "\"", BodyText(xs) + "\"");
  }

  lemma QuoteOnly(t: string, p: nat)
    requires At(t, p) == '"'
    ensures Has(t, p, "\"")
  {
    assert t[p..p + 1] == "\"";
  }

  /** The scanner takes control characters other than NUL, tab and newline as they are; RFC 8259 does not allow that. */
  predicate Strict(x: Spelling) {
    x.Itself? ==> x.c as int >= 0x20
  }

  /** The printer writes no literal longer than it has to: among all that RFC 8259 allows for a string, its own is a
      shortest. */
  lemma {:induction false} EscapeIsShortest(xs: seq<Spelling>)
    requires AllProper(xs) && forall i :: 0 <= i < |xs| ==> Strict(xs[i])
    ensures |Escape(BodyMeaning(xs))| <= |BodyText(xs)|
  {
    hide SpellingText, SpellingMeaning, Proper, Escape, Strict;
    if xs == [] {
      NothingEscaped();
    } else {
      EscapeIsShortest(xs[1..]);
      SpellingNotShorter(xs[0]);
      EscapeConcat(SpellingMeaning(xs[0]), BodyMeaning(xs[1..]));
    }
  }

  lemma NothingEscaped()
    ensures Escape("") == ""
  {
  }

  lemma {:induction false} EscapeConcat(a: string, b: string)
    ensures Escape(a + b) == Escape(a) + Escape(b)
  {
    hide EscapeChar;
    if a == "" {
      assert a + b == b;
    } else {
      assert (a + b)[0] == a[0] && (a + b)[1..] == a[1..] + b;
      EscapeConcat(a[1..], b);
    }
  }

  lemma SpellingNotShorter(x: Spelling)
    requires Proper(x) && Strict(x)
    ensures |Escape(SpellingMeaning(x))| <= |SpellingText(x)|
  {
    hide FourHex, Utf8.Encode;
    match x {
      case Itself(c) => OneEscaped(c);
      case Short(letter) => OneEscaped(SHORT[letter]);
      case Unit(digits) => EncodedEscaped(FourHex(digits));
      case Pair(high, low) => EncodedEscaped(0x1_0000 + (FourHex(high) - 0xD800) * 0x400 + (FourHex(low) - 0xDC00));
    }
  }

  lemma OneEscaped(c: char)
    ensures Escape([c]) == EscapeChar(c) && |EscapeChar(c)| <= 6 && (c as int >= 0x80 ==> |EscapeChar(c)| == 1)
    ensures c in SHORT.Values ==> |EscapeChar(c)| <= 2
    ensures c as int >= 0x20 && c != '"' && c != '\\' ==> |EscapeChar(c)| == 1
  {
    assert [c][1..] == "";
  }

  lemma EncodedEscaped(cp: int)
    requires Utf8.Scalar(cp)
    ensures |Escape(Utf8.Encode(cp))| <= 6
  {
    var s := Utf8.Encode(cp);
    if |s| == 1 {
      OneEscaped(s[0]);
    } else {
      HighEscaped(s);
    }
  }

  lemma {:induction false} HighEscaped(s: string)
    requires forall i :: 0 <= i < |s| ==> s[i] as int >= 0x80
    ensures Escape(s) == s
  {
    if s != "" {
      HighEscaped(s[1..]);
    }
  }
}
