/** Numbers as they can be written, and what they stand for: the language of `strtol` and `strtod` as far as the scanner
    uses it (lib/scanner.c). */
module Numerals {
  import opened Text
  import opened Tokens
  import Floats
  import Literals

  /** A number: blanks, a sign, digits, and perhaps a point with digits behind it and an exponent. */
  datatype Sign = NoSign | Plus | Minus

  datatype Numeral = Numeral(
    space: string,
    sign: Sign,
    whole: string,
    fraction: Option<string>,
    exponent: Option<Exponent>)

  datatype Exponent = Exponent(letter: char, sign: Sign, digits: string)

  predicate AllDigits(s: string) {
    forall i :: 0 <= i < |s| ==> '0' <= s[i] <= '9'
  }

  predicate AllSpace(s: string) {
    forall i :: 0 <= i < |s| ==> s[i] == ' ' || 9 <= s[i] as int <= 13
  }

  predicate WellWritten(n: Numeral) {
    && AllSpace(n.space) && n.whole != "" && AllDigits(n.whole)
    && (n.fraction.Some? ==> AllDigits(n.fraction.value))
    && (n.exponent.Some? ==>
          && n.exponent.value.letter in {'e', 'E'}
          && n.exponent.value.digits != "" && AllDigits(n.exponent.value.digits))
  }

  function SignText(sign: Sign): string {
    match sign
    case NoSign => ""
    case Plus => "+"
    case Minus => "-"
  }

  function FractionText(fraction: Option<string>): string {
    if fraction.Some? then "." + fraction.value else ""
  }

  function ExponentText(x: Option<Exponent>): string {
    if x.Some? then [x.value.letter] + (SignText(x.value.sign) + x.value.digits) else ""
  }

  function TextOf(n: Numeral): string {
    n.space + (SignText(n.sign) + (n.whole + (FractionText(n.fraction) + ExponentText(n.exponent))))
  }

  function Signed(sign: Sign, n: nat): int {
    if sign.Minus? then 0 - n else n
  }

  /** The digits behind the point. */
  function Behind(n: Numeral): (s: string)
    requires WellWritten(n)
    ensures AllDigits(s)
  {
    if n.fraction.Some? then n.fraction.value else ""
  }

  function Shift(n: Numeral): int
    requires WellWritten(n)
  {
    if n.exponent.Some? then Signed(n.exponent.value.sign, DigitsValue(n.exponent.value.digits)) else 0
  }

  /** What a numeral stands for: an integer, if it is written as one and fits 64 bits; or the double nearest to all its
      digits with the point moved by the exponent. */
  function Meaning(n: Numeral, decimal: bool): Option<Number>
    requires WellWritten(n)
  {
    if n.fraction.None? && n.exponent.None? && !decimal then
      var i := Signed(n.sign, DigitsValue(n.whole));
      if -0x8000_0000_0000_0000 <= i <= 0x7FFF_FFFF_FFFF_FFFF then Some(Integer(i)) else None
    else
      match Floats.FromDecimal(n.sign.Minus?, DigitsValue(n.whole + Behind(n)), Shift(n) - |Behind(n)|)
      case None => None
      case Some(f) => Some(Decimal(f))
  }

  /** An exponent could be read at `p`. */
  predicate ExponentFollows(t: string, p: nat) {
    && At(t, p) in {'e', 'E'}
    && ('0' <= At(t, p + 1) <= '9' || (At(t, p + 1) in {'+', '-'} && '0' <= At(t, p + 2) <= '9'))
  }

  /** Nothing that the numeral could go on with follows at `p`. */
  predicate Ends(t: string, p: nat, n: Numeral) {
    && !('0' <= At(t, p) <= '9')
    && (n.fraction.None? && n.exponent.None? ==> At(t, p) != '.')
    && (n.exponent.None? ==> !ExponentFollows(t, p))
  }

  // ---------------------------------------------------------------- every numeral is read

  lemma {:induction false} SpaceRun(t: string, p: nat, s: string)
    requires AllSpace(s) && Has(t, p, s) && (IsSign(At(t, p + |s|)) || IsDigit(At(t, p + |s|)))
    ensures SkipSpace(t, p) == p + |s|
    decreases |s|
  {
    if s != "" {
      HasTail(t, p, s);
      SpaceRun(t, p + 1, s[1..]);
    }
  }

  lemma DigitsThere(t: string, p: nat, s: string)
    requires s != "" && AllDigits(s) && Has(t, p, s)
    ensures IsDigit(At(t, p)) && t[p..p + |s|] == s
    ensures !IsDigit(At(t, p + |s|)) ==> DigitsEnd(t, p) == p + |s|
  {
    HasAt(t, p, s, 0);
    if !IsDigit(At(t, p + |s|)) {
      Literals.DigitRun(t, p, s);
    }
  }

  /** The sign in front of digits. */
  lemma SignThere(t: string, p: nat, sign: Sign, digits: string)
    requires digits != "" && AllDigits(digits) && Has(t, p, SignText(sign) + digits)
    ensures |SignText(sign)| == (if sign.NoSign? then 0 else 1) && Has(t, p + |SignText(sign)|, digits)
    ensures (IsSign(At(t, p)) <==> !sign.NoSign?) && (At(t, p) == '-' <==> sign.Minus?)
    ensures sign.NoSign? ==> IsDigit(At(t, p))
  {
    HasConcat(t, p, SignText(sign), digits);
    HasAt(t, p + |SignText(sign)|, digits, 0);
    if !sign.NoSign? {
      HasAt(t, p, SignText(sign), 0);
    }
  }

  lemma ExponentIsRead(t: string, p: nat, x: Exponent)
    requires x.letter in {'e', 'E'} && x.digits != "" && AllDigits(x.digits)
    requires Has(t, p, ExponentText(Some(x))) && !IsDigit(At(t, p + |ExponentText(Some(x))|))
    ensures ExponentAt(t, p) == Signed(x.sign, DigitsValue(x.digits))
    ensures IsExponent(At(t, p)) && At(t, p) != '.' && !IsDigit(At(t, p))
    ensures var d := if IsSign(At(t, p + 1)) then p + 2 else p + 1;
      d <= |t| && IsDigit(At(t, d)) && DigitsEnd(t, d) == p + |ExponentText(Some(x))|
  {
    hide DigitsValue, DigitsEnd, Has, AllDigits, ExponentText;
    ExponentParts(t, p, x);
    var d := p + 1 + |SignText(x.sign)|;
    assert d == if IsSign(At(t, p + 1)) then p + 2 else p + 1;
  }

  lemma ExponentParts(t: string, p: nat, x: Exponent)
    requires x.letter in {'e', 'E'} && x.digits != "" && AllDigits(x.digits)
    requires Has(t, p, ExponentText(Some(x))) && !IsDigit(At(t, p + |ExponentText(Some(x))|))
    ensures At(t, p) == x.letter && |SignText(x.sign)| == (if x.sign.NoSign? then 0 else 1)
    ensures (IsSign(At(t, p + 1)) <==> !x.sign.NoSign?) && (At(t, p + 1) == '-' <==> x.sign.Minus?)
    ensures var d := p + 1 + |SignText(x.sign)|;
      && d <= |t| && IsDigit(At(t, d)) && DigitsEnd(t, d) == p + |ExponentText(Some(x))| <= |t|
      && t[d..DigitsEnd(t, d)] == x.digits
  {
    hide DigitsEnd, Has, AllDigits, SignText, ExponentText;
    ExponentTextIs(x);
    HasConcat(t, p, [x.letter], SignText(x.sign) + x.digits);
    HasAt(t, p, [x.letter], 0);
    SignThere(t, p + 1, x.sign, x.digits);
    DigitsThere(t, p + 1 + |SignText(x.sign)|, x.digits);
  }

  lemma ExponentTextIs(x: Exponent)
    ensures ExponentText(Some(x)) == [x.letter] + (SignText(x.sign) + x.digits)
    ensures |ExponentText(Some(x))| == 1 + |SignText(x.sign)| + |x.digits|
    ensures |SignText(x.sign)| == if x.sign.NoSign? then 0 else 1
  {
  }

  lemma NoExponent(t: string, p: nat)
    requires p <= |t| && !ExponentFollows(t, p)
    ensures ExponentAt(t, p) == 0
    ensures IsExponent(At(t, p)) ==> !IsDigit(At(t, if IsSign(At(t, p + 1)) then p + 2 else p + 1))
  {
  }

  /** The digits behind a point, or that there is none. */
  lemma FractionIsRead(t: string, e: nat, fraction: Option<string>, rest: string)
    requires (fraction.Some? ==> AllDigits(fraction.value)) && Has(t, e, FractionText(fraction) + rest)
    requires !IsDigit(At(t, e + |FractionText(fraction)|)) && (fraction.None? ==> At(t, e) != '.')
    ensures var f := e + |FractionText(fraction)|;
      && Has(t, f, rest) && f <= |t| && (if At(t, e) == '.' then DigitsEnd(t, e + 1) else e) == f
      && (if At(t, e) == '.' then t[e+1..f] else "") == (if fraction.Some? then fraction.value else "")
      && (At(t, e) == '.' <==> fraction.Some?)
  {
    HasConcat(t, e, FractionText(fraction), rest);
    if fraction.Some? {
      HasConcat(t, e, ".", fraction.value);
      HasAt(t, e, ".", 0);
      Literals.DigitRun(t, e + 1, fraction.value);
    }
  }

  /** What comes behind the digits of a numeral. */
  lemma TailIsRead(t: string, e: nat, n: Numeral)
    requires WellWritten(n) && Has(t, e, FractionText(n.fraction) + ExponentText(n.exponent))
    requires Ends(t, e + |FractionText(n.fraction) + ExponentText(n.exponent)|, n)
    ensures var f := e + |FractionText(n.fraction)|;
      && f <= |t| && !IsDigit(At(t, e)) && (At(t, e) == '.' <==> n.fraction.Some?)
      && (if At(t, e) == '.' then DigitsEnd(t, e + 1) else e) == f
      && (if At(t, e) == '.' then t[e+1..f] else "") == Behind(n) && ExponentAt(t, f) == Shift(n)
      && DecimalEnd(t, e) == e + |FractionText(n.fraction) + ExponentText(n.exponent)|
      && (n.exponent.Some? ==> IsExponent(At(t, f)))
  {
    hide DigitsEnd, DigitsValue, ExponentAt;
    var f := e + |FractionText(n.fraction)|;
    HasConcat(t, e, FractionText(n.fraction), ExponentText(n.exponent));
    if n.exponent.Some? {
      ExponentIsRead(t, f, n.exponent.value);
    } else {
      NoExponent(t, f);
    }
    FractionIsRead(t, e, n.fraction, ExponentText(n.exponent));
  }

  /** Blanks, a sign and digits. */
  lemma HeadIsRead(t: string, p: nat, n: Numeral, tail: string)
    requires WellWritten(n) && Has(t, p, n.space + (SignText(n.sign) + (n.whole + tail)))
    requires !IsDigit(At(t, p + |n.space| + |SignText(n.sign)| + |n.whole|))
    ensures var s := p + |n.space|;
      var d := s + |SignText(n.sign)|;
      var e := d + |n.whole|;
      && s <= d < e <= |t| && SkipSpace(t, p) == s && d == (if IsSign(At(t, s)) then s + 1 else s)
      && (At(t, s) == '-' <==> n.sign.Minus?) && DigitsEnd(t, d) == e && t[d..e] == n.whole
  {
    hide DigitsEnd, SkipSpace, Has, AllSpace, AllDigits, SignText;
    var s := p + |n.space|;
    var d := s + |SignText(n.sign)|;
    HasConcat(t, p, n.space, SignText(n.sign) + (n.whole + tail));
    HasConcat(t, s, SignText(n.sign), n.whole + tail);
    HasConcat(t, d, n.whole, tail);
    HasConcat(t, s, SignText(n.sign), n.whole);
    SignThere(t, s, n.sign, n.whole);
    SpaceRun(t, p, n.space);
    DigitsThere(t, d, n.whole);
  }

  lemma TailBehind(t: string, p: nat, n: Numeral)
    requires Has(t, p, TextOf(n))
    ensures p <= |t|
    ensures Has(t, p + |n.space| + |SignText(n.sign)| + |n.whole|, FractionText(n.fraction) + ExponentText(n.exponent))
  {
    var tail := FractionText(n.fraction) + ExponentText(n.exponent);
    HasConcat(t, p, n.space, SignText(n.sign) + (n.whole + tail));
    HasConcat(t, p + |n.space|, SignText(n.sign), n.whole + tail);
    HasConcat(t, p + |n.space| + |SignText(n.sign)|, n.whole, tail);
  }

  /** A numeral is read as what it stands for, whatever its digits, signs and letters; and it ends where nothing that it
      could go on with follows. A letter without digits behind it is no exponent, but makes a decimal number. */
  lemma NumeralIsRead(t: string, p: nat, n: Numeral)
    requires WellWritten(n) && Has(t, p, TextOf(n)) && Ends(t, p + |TextOf(n)|, n)
    ensures p <= |t|
    ensures var q := p + |TextOf(n)|;
      var meaning := Meaning(n, At(t, q) in {'e', 'E'});
      NumberAt(t, p) == if meaning.Some? then Some((meaning.value, q)) else None
  {
    hide DigitsEnd, DigitsValue, ExponentAt, DecimalEnd, DecimalAt, SkipSpace, FractionText, ExponentText, SignText,
      Floats.FromDecimal, Has, AllDigits, AllSpace, Ends, TextOf, Shift, Behind, NumberAt, At;
    var tail := FractionText(n.fraction) + ExponentText(n.exponent);
    var s := p + |n.space|;
    var d := s + |SignText(n.sign)|;
    var e := d + |n.whole|;
    TextParts(n);
    TailBehind(t, p, n);
    TailIsRead(t, e, n);
    HeadIsRead(t, p, n, tail);
    FractionEmpty(n);
    DecimalIs(t, d, e, e + |FractionText(n.fraction)|, n.whole, Behind(n), Shift(n), n.sign.Minus?);
    NumberIs(t, p, s, d, e, n.whole);
  }

  lemma TextParts(n: Numeral)
    ensures TextOf(n) ==
      n.space + (SignText(n.sign) + (n.whole + (FractionText(n.fraction) + ExponentText(n.exponent))))
    ensures |TextOf(n)| ==
      |n.space| + |SignText(n.sign)| + |n.whole| + |FractionText(n.fraction) + ExponentText(n.exponent)|
  {
  }

  lemma DecimalIs(t: string, d: nat, e: nat, f: nat, whole: string, fraction: string, x: int, negative: bool)
    requires d <= e <= f <= |t| && DigitsEnd(t, d) == e && t[d..e] == whole
    requires (if At(t, e) == '.' then DigitsEnd(t, e + 1) else e) == f
    requires (if At(t, e) == '.' then t[e+1..f] else "") == fraction && ExponentAt(t, f) == x
    requires AllDigits(whole) && AllDigits(fraction)
    ensures DecimalAt(t, d, negative) == Floats.FromDecimal(negative, DigitsValue(whole + fraction), x - |fraction|)
  {
    hide DigitsEnd, DigitsValue, ExponentAt, Floats.FromDecimal;
  }

  lemma NumberIs(t: string, p: nat, s: nat, d: nat, e: nat, whole: string)
    requires p <= s <= d < e <= |t| && SkipSpace(t, p) == s && d == (if IsSign(At(t, s)) then s + 1 else s)
    requires DigitsEnd(t, d) == e && t[d..e] == whole && AllDigits(whole)
    ensures NumberAt(t, p) ==
      if At(t, e) == '.' || IsExponent(At(t, e)) then
        (match DecimalAt(t, d, At(t, s) == '-')
         case None => None
         case Some(f) => Some((Decimal(f), DecimalEnd(t, e))))
      else
        var i: int := if At(t, s) == '-' then 0 - DigitsValue(whole) else DigitsValue(whole);
        if LONG_MIN <= i <= LONG_MAX then Some((Integer(i), e)) else None
  {
    hide DigitsEnd, DigitsValue, DecimalAt, DecimalEnd, SkipSpace;
  }

  lemma FractionEmpty(n: Numeral)
    ensures n.fraction.None? ==> FractionText(n.fraction) == ""
    ensures n.exponent.None? ==> ExponentText(n.exponent) == ""
  {
  }

  // ---------------------------------------------------------------- nothing else is read

  lemma {:induction false} SpaceSkipped(t: string, p: nat)
    requires p <= |t|
    ensures AllSpace(t[p..SkipSpace(t, p)])
    decreases |t| - p
  {
    if IsBlank(At(t, p)) || 11 <= At(t, p) as int <= 13 {
      SpaceSkipped(t, p + 1);
      assert t[p..SkipSpace(t, p)] == [t[p]] + t[p + 1..SkipSpace(t, p)];
    }
  }

  predicate ValidExponent(x: Exponent) {
    x.letter in {'e', 'E'} && x.digits != "" && AllDigits(x.digits)
  }

  lemma ExponentIsNumeral(t: string, f: nat) returns (x: Exponent)
    requires ExponentFollows(t, f)
    ensures ValidExponent(x) && Has(t, f, ExponentText(Some(x)))
    ensures f <= |t| && !IsDigit(At(t, f + |ExponentText(Some(x))|))
    ensures DecimalEnd(t, f) == f + |ExponentText(Some(x))|
  {
    hide DigitsEnd, Has, DecimalEnd, AllDigits;
    var sign, d := SignIs(t, f);
    var end := DigitsEnd(t, d);
    x := Exponent(t[f], sign, t[d..end]);
    Slices(t, f, f + 1, d, end);
    assert t[f..f + 1] == [t[f]];
    assert ExponentText(Some(x)) == t[f..end];
    SliceThere(t, f, end);
    DigitsBetween(t, d, end);
  }

  lemma SignIs(t: string, f: nat) returns (sign: Sign, d: nat)
    requires ExponentFollows(t, f)
    ensures f < |t| && f + 1 <= d < |t| && SignText(sign) == t[f + 1..d] && IsDigit(t[d])
    ensures DigitsEnd(t, d) > d && DecimalEnd(t, f) == DigitsEnd(t, d)
  {
    sign := if At(t, f + 1) == '+' then Plus else if At(t, f + 1) == '-' then Minus else NoSign;
    d := if sign.NoSign? then f + 1 else f + 2;
  }

  lemma DigitsBetween(t: string, d: nat, end: nat)
    requires d <= end <= |t| && forall i :: d <= i < end ==> IsDigit(t[i])
    ensures AllDigits(t[d..end])
  {
  }

  lemma Slices(t: string, a: nat, b: nat, c: nat, d: nat)
    requires a <= b <= c <= d <= |t|
    ensures t[a..d] == t[a..b] + (t[b..c] + t[c..d])
  {
  }

  lemma SliceThere(t: string, a: nat, b: nat)
    requires a <= b <= |t|
    ensures Has(t, a, t[a..b])
  {
  }

  /** The end of a decimal number whose fraction ends at `f`. */
  lemma DecimalEndIs(t: string, e: nat, f: nat)
    requires e <= f <= |t| && f == (if At(t, e) == '.' then DigitsEnd(t, e + 1) else e)
    ensures !ExponentFollows(t, f) ==> DecimalEnd(t, e) == f
    ensures ExponentFollows(t, f) ==> DecimalEnd(t, e) == DecimalEnd(t, f)
  {
    hide DigitsEnd;
  }

  /** What is consumed where digits end: a fraction and an exponent, if they are there. */
  lemma TailIsNumeral(t: string, e: nat) returns (fraction: Option<string>, exponent: Option<Exponent>)
    requires e <= |t| && !IsDigit(At(t, e))
    ensures Has(t, e, FractionText(fraction) + ExponentText(exponent))
    ensures var q := DecimalEnd(t, e);
      && q == e + |FractionText(fraction) + ExponentText(exponent)| && !IsDigit(At(t, q))
      && (exponent.None? ==> !ExponentFollows(t, q))
    ensures fraction.Some? ==> AllDigits(fraction.value)
    ensures exponent.Some? ==> ValidExponent(exponent.value)
    ensures fraction.None? <==> At(t, e) != '.'
    ensures exponent.Some? && fraction.None? ==> IsExponent(At(t, e))
  {
    hide DigitsEnd, ExponentText, ValidExponent, DecimalEnd, ExponentFollows, FractionText, Has;
    var f := if At(t, e) == '.' then DigitsEnd(t, e + 1) else e;
    fraction := if At(t, e) == '.' then Some(t[e + 1..f]) else None;
    FractionThere(t, e, f, fraction);
    DecimalEndIs(t, e, f);
    exponent := None;
    if ExponentFollows(t, f) {
      var x := ExponentIsNumeral(t, f);
      exponent := Some(x);
      NoPoint(t, f);
      HasConcat(t, e, FractionText(fraction), ExponentText(exponent));
    } else {
      Nothing();
      assert FractionText(fraction) + "" == FractionText(fraction);
    }
  }

  lemma Nothing()
    ensures ExponentText(None) == "" && FractionText(None) == ""
  {
  }

  lemma NoPoint(t: string, f: nat)
    requires ExponentFollows(t, f)
    ensures f <= |t| && IsExponent(At(t, f)) && At(t, f) != '.'
  {
  }

  lemma FractionThere(t: string, e: nat, f: nat, fraction: Option<string>)
    requires e <= f <= |t|
    requires if fraction.None? then f == e else At(t, e) == '.' && e < f && fraction.value == t[e+1..f]
    ensures Has(t, e, FractionText(fraction)) && |FractionText(fraction)| == f - e
  {
    if fraction.Some? {
      assert t[e..f] == "." + t[e + 1..f];
    }
  }

  /** The blanks, the sign and the digits at the front of a number. */
  lemma WholePart(t: string, p: nat) returns (sign: Sign, s: nat, d: nat, e: nat)
    requires p <= |t| && NumberAt(t, p).Some?
    ensures p <= s <= d < e <= |t| && AllSpace(t[p..s]) && SignText(sign) == t[s..d]
    ensures AllDigits(t[d..e]) && !IsDigit(At(t, e))
  {
    hide DigitsValue, Floats.FromDecimal, ExponentAt, DecimalAt, SkipSpace, DigitsEnd;
    s := SkipSpace(t, p);
    SpaceSkipped(t, p);
    sign := if At(t, s) == '+' then Plus else if At(t, s) == '-' then Minus else NoSign;
    d := s + |SignText(sign)|;
    e := DigitsEnd(t, d);
  }

  /** What is read as a number is a numeral, and ends where nothing that it could go on with follows. */
  lemma NumberIsNumeral(t: string, p: nat) returns (n: Numeral)
    requires p <= |t| && NumberAt(t, p).Some?
    ensures WellWritten(n) && Has(t, p, TextOf(n)) && Ends(t, p + |TextOf(n)|, n)
    ensures NumberAt(t, p).value.1 == p + |TextOf(n)|
    ensures Meaning(n, At(t, p + |TextOf(n)|) in {'e', 'E'}) == Some(NumberAt(t, p).value.0)
  {
    hide NumberAt, AllDigits, AllSpace, SignText, FractionText, ExponentText, ExponentFollows, DecimalEnd, Has, TextOf,
      Meaning;
    var sign, s, d, e := WholePart(t, p);
    var fraction, exponent := TailIsNumeral(t, e);
    n := Numeral(t[p..s], sign, t[d..e], fraction, exponent);
    NumeralThere(t, p, s, d, e, n);
    Nothing();
    NumeralIsRead(t, p, n);
  }

  lemma NumeralThere(t: string, p: nat, s: nat, d: nat, e: nat, n: Numeral)
    requires p <= s <= d <= e <= |t| && n.space == t[p..s] && SignText(n.sign) == t[s..d] && n.whole == t[d..e]
    requires Has(t, e, FractionText(n.fraction) + ExponentText(n.exponent))
    ensures Has(t, p, TextOf(n)) && p + |TextOf(n)| == e + |FractionText(n.fraction) + ExponentText(n.exponent)|
  {
    hide SignText, FractionText, ExponentText;
    var tail := FractionText(n.fraction) + ExponentText(n.exponent);
    var q := e + |tail|;
    assert t[d..q] == t[d..e] + t[e..q];
    assert t[s..q] == t[s..d] + t[d..q];
    assert t[p..q] == t[p..s] + t[s..q];
  }
}
