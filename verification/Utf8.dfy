/** UTF-8 verification (lib/c-utf8.c). A byte is a `char` below 256, a C string a `string` without NUL. */
module Utf8 {

  // ---------------------------------------------------------------- definition

  predicate InRange(c: char, low: int, high: int) {
    low <= c as int <= high
  }

  predicate IsTail(c: char) {
    InRange(c, 0x80, 0xBF)
  }

  predicate IsAscii(c: char) {
    InRange(c, 0x01, 0x7F)
  }

  /** The length of the well-formed sequence that starts `s` (Unicode 10.0.0, D92 and table 3-7), without
      the encoding of U+0000; 0 if there is none. */
  function SequenceLength(s: string): (n: nat)
    ensures n <= |s|
  {
    if |s| >= 1 && IsAscii(s[0]) then 1
    else if |s| >= 2 && InRange(s[0], 0xC2, 0xDF) && IsTail(s[1]) then 2
    else if |s| >= 3 && IsTail(s[2]) &&
            ((InRange(s[0], 0xE0, 0xE0) && InRange(s[1], 0xA0, 0xBF)) ||
             (InRange(s[0], 0xE1, 0xEC) && IsTail(s[1])) ||
             (InRange(s[0], 0xED, 0xED) && InRange(s[1], 0x80, 0x9F)) ||
             (InRange(s[0], 0xEE, 0xEF) && IsTail(s[1]))) then 3
    else if |s| >= 4 && IsTail(s[2]) && IsTail(s[3]) &&
            ((InRange(s[0], 0xF0, 0xF0) && InRange(s[1], 0x90, 0xBF)) ||
             (InRange(s[0], 0xF1, 0xF3) && IsTail(s[1])) ||
             (InRange(s[0], 0xF4, 0xF4) && InRange(s[1], 0x80, 0x8F))) then 4
    else 0
  }

  /** `s` consists of well-formed sequences. */
  predicate Valid(s: string) {
    s == "" || (SequenceLength(s) > 0 && Valid(s[SequenceLength(s)..]))
  }

  lemma SequenceExtends(s: string, t: string)
    requires SequenceLength(s) > 0
    ensures SequenceLength(s + t) == SequenceLength(s)
  {
  }

  lemma {:induction false} ValidConcat(a: string, b: string)
    requires Valid(a)
    ensures Valid(a + b) <==> Valid(b)
  {
    if a == "" {
      assert a + b == b;
    } else {
      var n := SequenceLength(a);
      SequenceExtends(a, b);
      assert (a + b)[n..] == a[n..] + b;
      ValidConcat(a[n..], b);
    }
  }

  /** A longer valid prefix goes on with a well-formed sequence. */
  lemma LongerPrefix(s: string, i: nat, q: nat)
    requires i < q <= |s| && Valid(s[..i])
    ensures Valid(s[..q]) ==> SequenceLength(s[i..]) > 0
  {
    assert s[..q] == s[..i] + s[i..q];
    ValidConcat(s[..i], s[i..q]);
    assert s[i..] == s[i..q] + s[q..];
    if SequenceLength(s[i..q]) > 0 {
      SequenceExtends(s[i..q], s[q..]);
    }
  }

  /** Where no well-formed sequence starts, no longer prefix is valid. */
  lemma LongestPrefix(s: string, i: nat)
    requires i <= |s| && Valid(s[..i]) && SequenceLength(s[i..]) == 0
    ensures forall q :: i < q <= |s| ==> !Valid(s[..q])
  {
    forall q | i < q <= |s| ensures !Valid(s[..q]) {
      LongerPrefix(s, i, q);
    }
  }

  lemma Advance(s: string, i: nat, n: nat)
    requires i + n <= |s| && n > 0 && Valid(s[..i]) && SequenceLength(s[i..]) == n
    ensures Valid(s[..i+n])
  {
    var t := s[i..i+n];
    assert s[i..][..n] == t;
    assert SequenceLength(t) == n && t[n..] == "";
    assert s[..i+n] == s[..i] + t;
    ValidConcat(s[..i], t);
  }

  lemma {:induction false} AsciiRun(s: string, i: nat, j: nat)
    requires i <= j <= |s| && Valid(s[..i]) && (forall k :: i <= k < j ==> IsAscii(s[k]))
    ensures Valid(s[..j])
    decreases j
  {
    if i < j {
      AsciiRun(s, i, j - 1);
      Advance(s, j - 1, 1);
    }
  }

  // ---------------------------------------------------------------- encoding form

  predicate Scalar(cp: int) {
    0 <= cp <= 0x10FFFF && !(0xD800 <= cp <= 0xDFFF)
  }

  /** The bytes of a code point (section 3 of RFC 3629; shifts and masks written as / and %). */
  function Encode(cp: int): string
    requires Scalar(cp)
  {
    if cp <= 0x7F then [cp as char]
    else if cp <= 0x7FF then [(0xC0 + cp / 0x40) as char, (0x80 + cp % 0x40) as char]
    else if cp <= 0xFFFF then
      [(0xE0 + cp / 0x1000) as char, (0x80 + cp / 0x40 % 0x40) as char, (0x80 + cp % 0x40) as char]
    else
      [(0xF0 + cp / 0x4_0000) as char, (0x80 + cp / 0x1000 % 0x40) as char,
       (0x80 + cp / 0x40 % 0x40) as char, (0x80 + cp % 0x40) as char]
  }

  function Decode(s: string): int
    requires SequenceLength(s) > 0
  {
    var b := (i: nat) requires i < |s| => s[i] as int;
    match SequenceLength(s)
    case 1 => b(0)
    case 2 => (b(0) - 0xC0) * 0x40 + (b(1) - 0x80)
    case 3 => (b(0) - 0xE0) * 0x1000 + (b(1) - 0x80) * 0x40 + (b(2) - 0x80)
    case _ => (b(0) - 0xF0) * 0x4_0000 + (b(1) - 0x80) * 0x1000 + (b(2) - 0x80) * 0x40 + (b(3) - 0x80)
  }

  lemma DecodeEncodeLong(cp: int)
    requires Scalar(cp) && cp > 0x7FF
    ensures SequenceLength(Encode(cp)) == |Encode(cp)| && Decode(Encode(cp)) == cp
  {
    var low, mid, top := cp % 0x40, cp / 0x40 % 0x40, cp / 0x1000 % 0x40;
    assert cp == cp / 0x40 * 0x40 + low;
    assert cp / 0x40 == cp / 0x1000 * 0x40 + mid;
    assert cp / 0x1000 == cp / 0x4_0000 * 0x40 + top;
  }

  /** Encoding a scalar value other than 0 gives one well-formed sequence, from which it is read back. */
  lemma DecodeEncode(cp: int)
    requires Scalar(cp) && cp != 0
    ensures SequenceLength(Encode(cp)) == |Encode(cp)| && Decode(Encode(cp)) == cp
  {
    if cp > 0x7FF {
      DecodeEncodeLong(cp);
    } else {
      assert cp == cp / 0x40 * 0x40 + cp % 0x40;
    }
  }

  /** Six bits put below a number are split off again. */
  lemma SplitDigit(a: int, d: int)
    requires 0 <= d < 0x40
    ensures (a * 0x40 + d) / 0x40 == a && (a * 0x40 + d) % 0x40 == d
  {
  }

  lemma EncodeDecodeThree(s: string, x: int, y: int, z: int)
    requires SequenceLength(s) == 3
    requires x == s[0] as int - 0xE0 && y == s[1] as int - 0x80 && z == s[2] as int - 0x80
    ensures Scalar(Decode(s)) && 0x800 <= Decode(s) <= 0xFFFF
    ensures Encode(Decode(s)) == s[..3]
  {
    var cp := Decode(s);
    assert cp == (x * 0x40 + y) * 0x40 + z;
    SplitDigit(x * 0x40 + y, z);
    SplitDigit(x, y);
    assert cp / 0x1000 == cp / 0x40 / 0x40;
  }

  lemma EncodeDecodeFour(s: string, w: int, x: int, y: int, z: int)
    requires SequenceLength(s) == 4
    requires w == s[0] as int - 0xF0 && x == s[1] as int - 0x80 && y == s[2] as int - 0x80 && z == s[3] as int - 0x80
    ensures Scalar(Decode(s)) && 0xFFFF < Decode(s)
    ensures Encode(Decode(s)) == s[..4]
  {
    var cp := Decode(s);
    assert cp == ((w * 0x40 + x) * 0x40 + y) * 0x40 + z;
    SplitDigit((w * 0x40 + x) * 0x40 + y, z);
    SplitDigit(w * 0x40 + x, y);
    SplitDigit(w, x);
    assert cp / 0x1000 == cp / 0x40 / 0x40;
    assert cp / 0x4_0000 == cp / 0x1000 / 0x40;
  }

  /** A well-formed sequence is the encoding of the scalar value it decodes to. */
  lemma EncodeDecode(s: string)
    requires SequenceLength(s) > 0
    ensures Scalar(Decode(s)) && Decode(s) != 0
    ensures Encode(Decode(s)) == s[..SequenceLength(s)]
  {
    match SequenceLength(s)
    case 1 =>
    case 2 => SplitDigit(s[0] as int - 0xC0, s[1] as int - 0x80);
    case 3 => EncodeDecodeThree(s, s[0] as int - 0xE0, s[1] as int - 0x80, s[2] as int - 0x80);
    case _ => EncodeDecodeFour(s, s[0] as int - 0xF0, s[1] as int - 0x80, s[2] as int - 0x80, s[3] as int - 0x80);
  }

  /** The encoding is the only well-formed sequence for its code point. */
  lemma EncodingUnique(cp: int, s: string)
    requires Scalar(cp) && cp != 0
    ensures SequenceLength(s) == |s| && s != "" && Decode(s) == cp <==> s == Encode(cp)
  {
    DecodeEncode(cp);
    if SequenceLength(s) == |s| && s != "" && Decode(s) == cp {
      EncodeDecode(s);
    }
  }

  function EncodeAll(cps: seq<int>): string
    requires forall cp :: cp in cps ==> Scalar(cp)
  {
    if cps == [] then "" else Encode(cps[0]) + EncodeAll(cps[1..])
  }

  ghost predicate Encodes(cps: seq<int>, s: string) {
    (forall cp :: cp in cps ==> Scalar(cp) && cp != 0) && EncodeAll(cps) == s
  }

  lemma {:induction false} DecodeAll(s: string) returns (cps: seq<int>)
    requires Valid(s)
    ensures Encodes(cps, s)
  {
    if s == "" {
      cps := [];
    } else {
      var n := SequenceLength(s);
      EncodeDecode(s);
      var rest := DecodeAll(s[n..]);
      cps := [Decode(s)] + rest;
      assert cps[1..] == rest;
      assert s == s[..n] + s[n..];
    }
  }

  lemma {:induction false} EncodedIsValid(cps: seq<int>, s: string)
    requires Encodes(cps, s)
    ensures Valid(s)
  {
    if cps != [] {
      var e, rest := Encode(cps[0]), EncodeAll(cps[1..]);
      DecodeEncode(cps[0]);
      EncodedIsValid(cps[1..], rest);
      assert e[|e|..] == "";
      assert Valid(e);
      ValidConcat(e, rest);
    }
  }

  /** The strings the verifier accepts are exactly the encodings of sequences of non-zero scalar values. */
  lemma ValidIffEncoded(s: string)
    ensures Valid(s) <==> exists cps :: Encodes(cps, s)
  {
    if Valid(s) {
      var cps := DecodeAll(s);
    }
    if cps :| Encodes(cps, s) {
      EncodedIsValid(cps, s);
    }
  }

  // ---------------------------------------------------------------- word test

  const WORD: nat := 8

  /** The subtract-and-mask test on eight bytes; the subtraction may borrow from one byte into the next. */
  predicate WordIsAscii(w: bv64) {
    ((w - 0x0101010101010101) | w) & 0x8080808080808080 == 0
  }

  function Bits(c: char): (b: bv8)
    requires c as int < 256
    ensures 0x01 <= b <= 0x7F <==> IsAscii(c)
  {
    (c as int) as bv8
  }

  function JoinBytes(b0: bv8, b1: bv8, b2: bv8, b3: bv8, b4: bv8, b5: bv8, b6: bv8, b7: bv8): bv64 {
    (b0 as bv64) | (b1 as bv64 << 8) | (b2 as bv64 << 16) | (b3 as bv64 << 24) |
    (b4 as bv64 << 32) | (b5 as bv64 << 40) | (b6 as bv64 << 48) | (b7 as bv64 << 56)
  }

  lemma WordTestBytes(b0: bv8, b1: bv8, b2: bv8, b3: bv8, b4: bv8, b5: bv8, b6: bv8, b7: bv8)
    ensures WordIsAscii(JoinBytes(b0, b1, b2, b3, b4, b5, b6, b7)) <==>
      && 0x01 <= b0 <= 0x7F && 0x01 <= b1 <= 0x7F && 0x01 <= b2 <= 0x7F && 0x01 <= b3 <= 0x7F
      && 0x01 <= b4 <= 0x7F && 0x01 <= b5 <= 0x7F && 0x01 <= b6 <= 0x7F && 0x01 <= b7 <= 0x7F
  {
  }

  predicate AllBytes(s: string) {
    forall k :: 0 <= k < |s| ==> s[k] as int < 256
  }

  /** The eight bytes at `i` as they are loaded into a word. */
  function Word(s: string, i: nat): bv64
    requires i + WORD <= |s| && AllBytes(s)
  {
    JoinBytes(Bits(s[i]), Bits(s[i+1]), Bits(s[i+2]), Bits(s[i+3]), Bits(s[i+4]), Bits(s[i+5]), Bits(s[i+6]),
      Bits(s[i+7]))
  }

  predicate AsciiAt(s: string, i: nat, n: nat) {
    i + n <= |s| && forall k :: i <= k < i + n ==> IsAscii(s[k])
  }

  lemma EightAscii(s: string, i: nat)
    requires i + WORD <= |s|
    ensures AsciiAt(s, i, WORD) <==>
      && IsAscii(s[i]) && IsAscii(s[i+1]) && IsAscii(s[i+2]) && IsAscii(s[i+3])
      && IsAscii(s[i+4]) && IsAscii(s[i+5]) && IsAscii(s[i+6]) && IsAscii(s[i+7])
  {
  }

  /** The test holds exactly when all eight bytes are in 0x01..0x7F, whatever the borrows. */
  lemma WordTest(s: string, i: nat)
    requires i + WORD <= |s| && AllBytes(s)
    ensures WordIsAscii(Word(s, i)) <==> AsciiAt(s, i, WORD)
  {
    EightAscii(s, i);
    WordTestBytes(Bits(s[i]), Bits(s[i+1]), Bits(s[i+2]), Bits(s[i+3]),
                  Bits(s[i+4]), Bits(s[i+5]), Bits(s[i+6]), Bits(s[i+7]));
  }

  // ---------------------------------------------------------------- verification

  /** The next multiple of `a`. */
  function AlignTo(n: nat, a: nat): nat
    requires a > 0
  {
    (n + a - 1) / a * a
  }

  /** Skips from `start` to the first byte that is NUL or not ASCII; the bytes of `s` lie at `address`.
      At a word boundary two words are tested at a time. */
  method VerifyAscii(s: string, start: nat, address: nat) returns (i: nat)
    requires start <= |s| && AllBytes(s)
    ensures start <= i <= |s|
    ensures forall k :: start <= k < i ==> IsAscii(s[k])
    ensures i < |s| ==> !IsAscii(s[i])
  {
    i := start;
    while i < |s| && s[i] as int < 128
      invariant start <= i <= |s|
      invariant forall k :: start <= k < i ==> IsAscii(s[k])
      decreases |s| - i
    {
      ghost var before := i;
      if AlignTo(address + i, WORD) == address + i {
        while |s| - i >= 2 * WORD
          invariant before <= i <= |s|
          invariant forall k :: start <= k < i ==> IsAscii(s[k])
          decreases |s| - i
        {
          WordTest(s, i);
          WordTest(s, i + WORD);
          if !WordIsAscii(Word(s, i)) || !WordIsAscii(Word(s, i + WORD)) {
            break;
          }
          i := i + 2 * WORD;
        }
        while i < |s| && s[i] as int < 128
          invariant before <= i <= |s|
          invariant i == before ==> i < |s| && s[i] as int < 128
          invariant forall k :: start <= k < i ==> IsAscii(s[k])
          decreases |s| - i
        {
          if s[i] == '\0' {
            return;
          }
          i := i + 1;
        }
      } else {
        if s[i] == '\0' {
          return;
        }
        i := i + 1;
      }
    }
  }

  /** Skips to the end of the longest valid prefix of `s`, whose bytes lie at `address`. */
  method Verify(s: string, address: nat) returns (i: nat)
    requires AllBytes(s)
    ensures i <= |s| && Valid(s[..i])
    ensures forall q :: i < q <= |s| ==> !Valid(s[..q])
    ensures i == |s| <==> Valid(s)
  {
    assert s[..|s|] == s;
    i := 0;
    while i < |s|
      invariant i <= |s| && Valid(s[..i])
      decreases |s| - i
    {
      var n := SequenceAt(s, i);
      if n == 0 {
        LongestPrefix(s, i);
        return;
      }
      if n == 1 {
        var j := VerifyAscii(s, i, address);
        AsciiRun(s, i, j);
        i := j;
      } else {
        Advance(s, i, n);
        i := i + n;
      }
    }
  }

  /** The branches on the first byte: the number of bytes to skip, or 0 where verification stops. */
  method SequenceAt(s: string, i: nat) returns (n: nat)
    requires i < |s|
    ensures n == SequenceLength(s[i..])
  {
    var c, len := s[i] as int, |s| - i;
    if 0x01 <= c <= 0x7F {
      return 1;
    } else if 0xC2 <= c <= 0xDF {
      if len < 2 || !IsTail(s[i+1]) {
        return 0;
      }
      return 2;
    } else if c == 0xE0 {
      if len < 3 || s[i+1] as int < 0xA0 || s[i+1] as int > 0xBF || !IsTail(s[i+2]) {
        return 0;
      }
      return 3;
    } else if 0xE1 <= c <= 0xEC {
      if len < 3 || !IsTail(s[i+1]) || !IsTail(s[i+2]) {
        return 0;
      }
      return 3;
    } else if c == 0xED {
      if len < 3 || s[i+1] as int < 0x80 || s[i+1] as int > 0x9F || !IsTail(s[i+2]) {
        return 0;
      }
      return 3;
    } else if 0xEE <= c <= 0xEF {
      if len < 3 || !IsTail(s[i+1]) || !IsTail(s[i+2]) {
        return 0;
      }
      return 3;
    } else if c == 0xF0 {
      if len < 4 || s[i+1] as int < 0x90 || s[i+1] as int > 0xBF || !IsTail(s[i+2]) || !IsTail(s[i+3]) {
        return 0;
      }
      return 4;
    } else if 0xF1 <= c <= 0xF3 {
      if len < 4 || !IsTail(s[i+1]) || !IsTail(s[i+2]) || !IsTail(s[i+3]) {
        return 0;
      }
      return 4;
    } else if c == 0xF4 {
      if len < 4 || s[i+1] as int < 0x80 || s[i+1] as int > 0x8F || !IsTail(s[i+2]) || !IsTail(s[i+3]) {
        return 0;
      }
      return 4;
    }
    return 0;
  }
}
