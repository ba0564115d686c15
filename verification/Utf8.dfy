/** utf8_validate: a recogniser for UTF-8 without NUL, surrogates and noncharacters. */
module Utf8 {
  import opened Integers
  import opened Bytes

  // ---- The printer: UTF-8 as section 3 of RFC 3629 defines it ----

  /** UNICODE_VALID: no surrogate, and none of the noncharacters. */
  predicate UnicodeValid(c: int): (valid: bool)
    ensures valid <==> 0 <= c <= 0x10FFFF && !(0xD800 <= c <= 0xDFFF) && !(0xFDD0 <= c <= 0xFDEF) &&
                       c % 0x10000 != 0xFFFE && c % 0x10000 != 0xFFFF
  {
    0 <= c < 0x110000 && c / 0x800 != 27 && (c < 0xFDD0 || c > 0xFDEF) && c % 0x10000 / 2 != 0x7FFF
  }

  /** The code points a valid string is made of. */
  predicate Encodable(c: int) {
    c != 0 && UnicodeValid(c)
  }

  function Encode(c: int): (r: seq<Byte>)
    requires Encodable(c)
    ensures 1 <= |r| <= 4
  {
    if c < 0x80 then [c]
    else if c < 0x800 then [0xC0 + c / 0x40, 0x80 + c % 0x40]
    else if c < 0x10000 then [0xE0 + c / 0x1000, 0x80 + c / 0x40 % 0x40, 0x80 + c % 0x40]
    else [0xF0 + c / 0x40000, 0x80 + c / 0x1000 % 0x40, 0x80 + c / 0x40 % 0x40, 0x80 + c % 0x40]
  }

  ghost predicate AllEncodable(cs: seq<int>) {
    forall i :: 0 <= i < |cs| ==> Encodable(cs[i])
  }

  function EncodeAll(cs: seq<int>): seq<Byte>
    requires forall i :: 0 <= i < |cs| ==> Encodable(cs[i])
  {
    if cs == [] then [] else Encode(cs[0]) + EncodeAll(cs[1..])
  }

  // ---- The recogniser's macros ----

  /** UTF8_COMPUTE: the length a first byte announces, or -1, and the values its payload bits can take. */
  function SequenceLength(c: Byte): int {
    if c < 128 then 1
    else if c / 32 == 6 then 2
    else if c / 16 == 14 then 3
    else if c / 8 == 30 then 4
    else if c / 4 == 62 then 5
    else if c / 2 == 126 then 6
    else -1
  }

  function PayloadValues(c: Byte): (n: nat)
    ensures 0 < n
  {
    if c < 128 then 128
    else if c / 32 == 6 then 32
    else if c / 16 == 14 then 16
    else if c / 8 == 30 then 8
    else if c / 4 == 62 then 4
    else if c / 2 == 126 then 2
    else 1
  }

  /** UTF8_LENGTH. */
  function NeededLength(c: int): int {
    if c < 0x80 then 1 else if c < 0x800 then 2 else if c < 0x10000 then 3
    else if c < 0x200000 then 4 else if c < 0x4000000 then 5 else 6
  }

  const FAILED := 0xFFFF_FFFF

  /** UTF8_GET after n bytes: the payload bits so far, or all ones once a byte is no continuation. */
  function Gathered(s: seq<Byte>, n: nat): (r: int)
    requires 1 <= n <= |s|
  {
    if n == 1 then s[0] % PayloadValues(s[0])
    else if s[n - 1] / 64 != 2 then FAILED
    else if Gathered(s, n - 1) == FAILED then FAILED
    else Gathered(s, n - 1) * 64 + s[n - 1] % 64
  }

  datatype Decoded = CodePoint(value: int, length: nat) | Malformed

  /** One pass through the loop, on what is left of the string. */
  function DecodeOne(s: seq<Byte>): Decoded
    requires s != []
  {
    var len := SequenceLength(s[0]);
    if s[0] == 0 || len == -1 || |s| < len then Malformed
    else
      var result := Gathered(s, len);
      if NeededLength(result) != len || result == FAILED || !UnicodeValid(result) then Malformed else CodePoint(result, len)
  }

  lemma Gathering(s: seq<Byte>, n: nat)
    requires 1 <= n <= |s|
    ensures n == 1 ==> Gathered(s, n) == s[0] % PayloadValues(s[0])
    ensures n > 1 && Gathered(s, n) != FAILED ==>
              s[n - 1] / 64 == 2 && Gathered(s, n - 1) != FAILED && Gathered(s, n) == Gathered(s, n - 1) * 64 + s[n - 1] % 64
    ensures n > 1 && s[n - 1] / 64 == 2 && Gathered(s, n - 1) != FAILED ==> Gathered(s, n) == Gathered(s, n - 1) * 64 + s[n - 1] % 64
  {
  }

  lemma FirstByte(b: Byte, n: nat)
    ensures n == 1 ==> (SequenceLength(b) == 1 <==> b < 0x80) && (b < 0x80 ==> b % PayloadValues(b) == b)
    ensures n == 2 ==> (SequenceLength(b) == 2 <==> 0xC0 <= b < 0xE0) && (0xC0 <= b < 0xE0 ==> b % PayloadValues(b) == b - 0xC0)
    ensures n == 3 ==> (SequenceLength(b) == 3 <==> 0xE0 <= b < 0xF0) && (0xE0 <= b < 0xF0 ==> b % PayloadValues(b) == b - 0xE0)
    ensures n == 4 ==> (SequenceLength(b) == 4 <==> 0xF0 <= b < 0xF8) && (0xF0 <= b < 0xF8 ==> b % PayloadValues(b) == b - 0xF0)
  {
  }

  lemma Continuation(b: Byte)
    ensures b / 64 == 2 <==> 0x80 <= b < 0xC0
    ensures 0x80 <= b < 0xC0 ==> b % 64 == b - 0x80
  {
  }

  lemma LowDigit(x: nat, y: nat)
    requires y < 64
    ensures (x * 64 + y) / 64 == x && (x * 64 + y) % 64 == y
  {
  }

  /** The six-bit digits of a code point. */
  lemma Digits(c: nat)
    ensures c == c / 64 * 64 + c % 64
    ensures c / 64 == c / 0x1000 * 64 + c / 64 % 64
    ensures c / 0x1000 == c / 0x40000 * 64 + c / 0x1000 % 64
  {
    var d1, d2, d3 := c % 64, c / 64 % 64, c / 0x1000 % 64;
    DivModUnique(c, 0x1000, c / 64 / 64, d2 * 64 + d1);
    DivModUnique(c, 0x40000, c / 0x1000 / 64, d3 * 0x1000 + d2 * 64 + d1);
  }

  /** What is decoded is exactly an encoding. */
  lemma DecodedIsEncoding(s: seq<Byte>)
    requires s != [] && DecodeOne(s).CodePoint?
    ensures var d := DecodeOne(s); Encodable(d.value) && 1 <= d.length <= |s| && s[..d.length] == Encode(d.value)
  {
    hide Gathered, PayloadValues;
    var len := SequenceLength(s[0]);
    var c := Gathered(s, len);
    hide SequenceLength;
    Gathering(s, 1);
    FirstByte(s[0], len);
    LengthIs(s[0]);
    if len == 1 {
    } else if len == 2 {
      Decoded2(s, c);
    } else if len == 3 {
      Decoded3(s, c);
    } else if len == 4 {
      Decoded4(s, c);
    }
  }

  lemma LengthIs(b: Byte)
    ensures SequenceLength(b) == -1 || 1 <= SequenceLength(b) <= 6
  {
  }

  lemma Decoded2(s: seq<Byte>, c: int)
    requires |s| >= 2 && SequenceLength(s[0]) == 2 && c == Gathered(s, 2) != FAILED && NeededLength(c) == 2 && Encodable(c)
    ensures s[..2] == Encode(c)
  {
    hide Gathered, PayloadValues, SequenceLength;
    Gathering(s, 1);
    Gathering(s, 2);
    FirstByte(s[0], 2);
    Continuation(s[1]);
    LowDigit(s[0] - 0xC0, s[1] % 64);
  }

  lemma Decoded3(s: seq<Byte>, c: int)
    requires |s| >= 3 && SequenceLength(s[0]) == 3 && c == Gathered(s, 3) != FAILED && NeededLength(c) == 3 && Encodable(c)
    ensures s[..3] == Encode(c)
  {
    hide Gathered, PayloadValues, SequenceLength, UnicodeValid;
    Gathering(s, 1);
    Gathering(s, 2);
    Gathering(s, 3);
    FirstByte(s[0], 3);
    Continuation(s[1]);
    Continuation(s[2]);
    ThreeDigits(c, s[0] - 0xE0, s[1] % 64, s[2] % 64);
  }

  lemma ThreeDigits(c: int, x: nat, y: nat, z: nat)
    requires y < 64 && z < 64 && c == (x * 64 + y) * 64 + z
    ensures c / 0x1000 == x && c / 0x40 % 0x40 == y && c % 0x40 == z
  {
    LowDigit(x * 64 + y, z);
    LowDigit(x, y);
    Digits(c);
  }

  lemma Decoded4(s: seq<Byte>, c: int)
    requires |s| >= 4 && SequenceLength(s[0]) == 4 && c == Gathered(s, 4) != FAILED && NeededLength(c) == 4 && Encodable(c)
    ensures s[..4] == Encode(c)
  {
    hide Gathered, PayloadValues, SequenceLength, UnicodeValid;
    Gathering(s, 1);
    Gathering(s, 2);
    Gathering(s, 3);
    Gathering(s, 4);
    FirstByte(s[0], 4);
    Continuation(s[1]);
    Continuation(s[2]);
    Continuation(s[3]);
    FourDigits(c, s[0] - 0xF0, s[1] % 64, s[2] % 64, s[3] % 64);
  }

  lemma FourDigits(c: int, w: nat, x: nat, y: nat, z: nat)
    requires x < 64 && y < 64 && z < 64 && c == ((w * 64 + x) * 64 + y) * 64 + z
    ensures c / 0x40000 == w && c / 0x1000 % 0x40 == x && c / 0x40 % 0x40 == y && c % 0x40 == z
  {
    ThreeDigits(c, w * 64 + x, y, z);
    LowDigit(w, x);
    Digits(c);
  }

  /** Every encoding is decoded, whatever follows it. */
  lemma EncodingIsDecoded(c: int, rest: seq<Byte>)
    requires Encodable(c)
    ensures DecodeOne(Encode(c) + rest) == CodePoint(c, |Encode(c)|)
  {
    hide Gathered, PayloadValues, SequenceLength, UnicodeValid;
    var s := Encode(c) + rest;
    NeverFails(c);
    Gathering(s, 1);
    if c < 0x80 {
      FirstByte(s[0], 1);
    } else if c < 0x800 {
      FirstByte(s[0], 2);
      Encoded2(s, c);
    } else if c < 0x10000 {
      FirstByte(s[0], 3);
      Encoded3(s, c);
    } else {
      FirstByte(s[0], 4);
      Encoded4(s, c);
    }
  }

  lemma NeverFails(c: int)
    requires UnicodeValid(c)
    ensures 0 <= c < 0x110000 && c != FAILED
  {
  }

  lemma Encoded2(s: seq<Byte>, c: int)
    requires 0x80 <= c < 0x800 && |s| >= 2 && s[0] == 0xC0 + c / 0x40 && s[1] == 0x80 + c % 0x40
    ensures Gathered(s, 2) == c
  {
    hide Gathered, PayloadValues, SequenceLength;
    Gathering(s, 1);
    Gathering(s, 2);
    FirstByte(s[0], 2);
    Continuation(s[1]);
    Digits(c);
  }

  lemma Encoded3(s: seq<Byte>, c: int)
    requires 0x800 <= c < 0x10000 && |s| >= 3 && s[0] == 0xE0 + c / 0x1000 && s[1] == 0x80 + c / 0x40 % 0x40 && s[2] == 0x80 + c % 0x40
    ensures Gathered(s, 3) == c
  {
    hide Gathered, PayloadValues, SequenceLength;
    Gathering(s, 1);
    Gathering(s, 2);
    Gathering(s, 3);
    FirstByte(s[0], 3);
    Continuation(s[1]);
    Continuation(s[2]);
    Digits(c);
  }

  lemma Encoded4(s: seq<Byte>, c: int)
    requires 0x10000 <= c < 0x110000 && |s| >= 4
    requires s[0] == 0xF0 + c / 0x40000 && s[1] == 0x80 + c / 0x1000 % 0x40 && s[2] == 0x80 + c / 0x40 % 0x40 && s[3] == 0x80 + c % 0x40
    ensures Gathered(s, 4) == c
  {
    hide Gathered, PayloadValues, SequenceLength;
    Gathering(s, 1);
    Gathering(s, 2);
    Gathering(s, 3);
    Gathering(s, 4);
    FirstByte(s[0], 4);
    Continuation(s[1]);
    Continuation(s[2]);
    Continuation(s[3]);
    Digits(c);
  }

  // ---- Byte ranges ----

  /** A byte after the first one. */
  predicate Tail(b: Byte) {
    0x80 <= b <= 0xBF
  }

  /** The byte strings of section 4 of RFC 3629 for one character, without NUL and the noncharacters. */
  predicate CharacterBytes(b: seq<Byte>) {
    || (|b| == 1 && 0x01 <= b[0] <= 0x7F)
    || (|b| == 2 && 0xC2 <= b[0] <= 0xDF && Tail(b[1]))
    || (|b| == 3 && Tail(b[1]) && Tail(b[2]) &&
        (|| (b[0] == 0xE0 && 0xA0 <= b[1])
         || 0xE1 <= b[0] <= 0xEC
         || (b[0] == 0xED && b[1] <= 0x9F)
         || b[0] == 0xEE
         || (b[0] == 0xEF && !(b[1] == 0xB7 && 0x90 <= b[2] <= 0xAF) && !(b[1] == 0xBF && 0xBE <= b[2]))))
    || (|b| == 4 && Tail(b[1]) && Tail(b[2]) && Tail(b[3]) && !(b[1] % 16 == 15 && b[2] == 0xBF && 0xBE <= b[3]) &&
        (|| (b[0] == 0xF0 && 0x90 <= b[1])
         || 0xF1 <= b[0] <= 0xF3
         || (b[0] == 0xF4 && b[1] <= 0x8F)))
  }

  lemma EncodeGivesCharacter(c: int)
    requires Encodable(c)
    ensures CharacterBytes(Encode(c))
  {
    if c < 0x80 {
    } else if c < 0x800 {
    } else if c < 0x10000 {
      Encoding3(c);
    } else {
      Encoding4(c);
    }
  }

  lemma Encoding3(c: int)
    requires Encodable(c) && 0x800 <= c < 0x10000
    ensures CharacterBytes(Encode(c))
  {
    hide UnicodeValid;
    Digits(c);
    ThreeDigitRange(c / 0x1000, c / 0x40 % 0x40, c % 0x40);
  }

  lemma Encoding4(c: int)
    requires Encodable(c) && 0x10000 <= c
    ensures CharacterBytes(Encode(c))
  {
    hide UnicodeValid;
    Digits(c);
    FourDigitRange(c / 0x40000, c / 0x1000 % 0x40, c / 0x40 % 0x40, c % 0x40);
  }

  /** Which numbers of three six-bit digits are encodable. */
  lemma ThreeDigitRange(x: nat, y: nat, z: nat)
    requires x < 16 && y < 64 && z < 64
    ensures var c := (x * 64 + y) * 64 + z;
            0x800 <= c < 0x10000 && UnicodeValid(c) <==>
            (x == 0 ==> y >= 32) && (x == 13 ==> y < 32) && !(x == 15 && y == 0x37 && 0x10 <= z <= 0x2F) && !(x == 15 && y == 63 && 62 <= z)
  {
    hide UnicodeValid;
  }

  lemma FourDigitRange(w: nat, x: nat, y: nat, z: nat)
    requires w < 8 && x < 64 && y < 64 && z < 64
    ensures var c := ((w * 64 + x) * 64 + y) * 64 + z;
            0x10000 <= c && UnicodeValid(c) <==>
            w <= 4 && (w == 0 ==> x >= 16) && (w == 4 ==> x < 16) && !(x % 16 == 15 && y == 63 && 62 <= z)
  {
    hide UnicodeValid;
    var c := ((w * 64 + x) * 64 + y) * 64 + z;
    DivModUnique(c, 0x10000, 4 * w + x / 16, x % 16 * 0x1000 + y * 64 + z);
  }

  lemma CharacterIsEncoded(b: seq<Byte>)
    requires CharacterBytes(b)
    ensures exists c: int {:trigger Encodable(c)} :: Encodable(c) && Encode(c) == b
  {
    hide UnicodeValid;
    var c: int;
    if |b| == 1 {
      c := b[0];
    } else if |b| == 2 {
      c := TwoBytes(b);
    } else if |b| == 3 {
      c := ThreeBytes(b);
    } else {
      c := FourBytes(b);
    }
    assert Encodable(c) && Encode(c) == b;
  }

  lemma TwoBytes(b: seq<Byte>) returns (c: int)
    requires CharacterBytes(b) && |b| == 2
    ensures Encodable(c) && Encode(c) == b
  {
    hide UnicodeValid;
    var x: nat, y: nat := b[0] - 0xC0, b[1] - 0x80;
    c := x * 64 + y;
    LowDigit(x, y);
  }

  lemma ThreeBytes(b: seq<Byte>) returns (c: int)
    requires CharacterBytes(b) && |b| == 3
    ensures Encodable(c) && Encode(c) == b
  {
    hide UnicodeValid;
    var x: nat, y: nat, z: nat := b[0] - 0xE0, b[1] - 0x80, b[2] - 0x80;
    c := (x * 64 + y) * 64 + z;
    ThreeDigitRange(x, y, z);
    ThreeDigits(c, x, y, z);
  }

  lemma FourBytes(b: seq<Byte>) returns (c: int)
    requires CharacterBytes(b) && |b| == 4
    ensures Encodable(c) && Encode(c) == b
  {
    hide UnicodeValid, Encode;
    var w: nat, x: nat, y: nat, z: nat := b[0] - 0xF0, b[1] - 0x80, b[2] - 0x80, b[3] - 0x80;
    c := ((w * 64 + x) * 64 + y) * 64 + z;
    FourDigitRange(w, x, y, z);
    FourDigits(c, w, x, y, z);
    EncodeFour(c);
  }

  lemma EncodeFour(c: int)
    requires Encodable(c) && 0x10000 <= c
    ensures Encode(c) == [0xF0 + c / 0x40000, 0x80 + c / 0x1000 % 0x40, 0x80 + c / 0x40 % 0x40, 0x80 + c % 0x40]
  {
  }

  // ---- Whole strings ----

  /** s is the encoding of some code points. */
  ghost predicate IsEncoding(s: seq<Byte>) {
    exists cs: seq<int> {:trigger AllEncodable(cs)} :: AllEncodable(cs) && EncodeAll(cs) == s
  }

  /** No further code point can be read. */
  predicate Stuck(s: seq<Byte>) {
    s == [] || DecodeOne(s).Malformed?
  }

  lemma {:induction false} EncodeAllAppend(cs: seq<int>, c: int)
    requires AllEncodable(cs) && Encodable(c)
    ensures AllEncodable(cs + [c]) && EncodeAll(cs + [c]) == EncodeAll(cs) + Encode(c)
  {
    hide Encode, Encodable;
    if cs == [] {
      assert cs + [c] == [c] && [c][1..] == [];
      NothingAdded(Encode(c));
    } else {
      EncodeAllAppend(cs[1..], c);
      assert (cs + [c])[1..] == cs[1..] + [c];
      Associative(Encode(cs[0]), EncodeAll(cs[1..]), Encode(c));
    }
  }

  /** A string begins with at most one code point. */
  lemma SameFirst(c: int, x: seq<Byte>, d: int, y: seq<Byte>)
    requires Encodable(c) && Encodable(d) && Encode(c) + x == Encode(d) + y
    ensures c == d && x == y
  {
    hide Encode, DecodeOne;
    EncodingIsDecoded(c, x);
    EncodingIsDecoded(d, y);
    assert x == (Encode(c) + x)[|Encode(c)|..] && y == (Encode(d) + y)[|Encode(d)|..];
  }

  /** The code points of a string are unique. */
  lemma {:induction false} EncodeAllInjective(cs: seq<int>, ds: seq<int>)
    requires AllEncodable(cs) && AllEncodable(ds) && EncodeAll(cs) == EncodeAll(ds)
    ensures cs == ds
  {
    hide Encode;
    if cs != [] && ds != [] {
      SameFirst(cs[0], EncodeAll(cs[1..]), ds[0], EncodeAll(ds[1..]));
      EncodeAllInjective(cs[1..], ds[1..]);
      assert cs == [cs[0]] + cs[1..] && ds == [ds[0]] + ds[1..];
    }
  }

  /** Where reading stops, no longer prefix is an encoding. */
  lemma {:induction false} StuckIsLongest(s: seq<Byte>, ds: seq<int>, cs: seq<int>)
    requires AllEncodable(ds) && AllEncodable(cs) && EncodeAll(ds) <= s && EncodeAll(cs) <= s
    requires Stuck(s[|EncodeAll(ds)|..])
    ensures |EncodeAll(cs)| <= |EncodeAll(ds)|
    decreases |cs|
  {
    hide Encode, DecodeOne, EncodeAll;
    if cs == [] {
      NothingEncoded();
    } else {
      Peel(s, cs);
      var l := |Encode(cs[0])|;
      EncodingIsDecoded(cs[0], s[l..]);
      if ds != [] {
        Peel(s, ds);
        SameFirst(cs[0], s[l..], ds[0], s[|Encode(ds[0])|..]);
        StuckIsLongest(s[l..], ds[1..], cs[1..]);
      } else {
        NothingEncoded();
      }
    }
  }

  /** A string that begins with an encoding begins with its first code point. */
  lemma Peel(s: seq<Byte>, cs: seq<int>)
    requires cs != [] && AllEncodable(cs) && EncodeAll(cs) <= s
    ensures var l := |Encode(cs[0])|;
            var n := |EncodeAll(cs[1..])|;
            l <= |s| && s == Encode(cs[0]) + s[l..] && EncodeAll(cs[1..]) <= s[l..] && |EncodeAll(cs)| == l + n &&
            s[|EncodeAll(cs)|..] == s[l..][n..] && s[0..] == s
  {
    hide Encode;
    PeelSlices(s, Encode(cs[0]), EncodeAll(cs[1..]));
  }

  lemma PeelSlices(s: seq<Byte>, a: seq<Byte>, b: seq<Byte>)
    requires a + b <= s
    ensures |a| <= |s| && s == a + s[|a|..] && b <= s[|a|..] && s[|a + b|..] == s[|a|..][|b|..] && s[0..] == s
  {
    var x := s[|a| + |b|..];
    assert s == a + b + x;
    assert s[|a|..] == b + x;
  }

  /** end is the length of the longest prefix of s that is an encoding. */
  ghost predicate LongestEncoding(s: seq<Byte>, end: nat) {
    end <= |s| && IsEncoding(s[..end]) && forall n {:trigger s[..n]} :: end < n <= |s| ==> !IsEncoding(s[..n])
  }

  ghost predicate AllCharacters(pieces: seq<seq<Byte>>) {
    forall i :: 0 <= i < |pieces| ==> CharacterBytes(pieces[i])
  }

  /** s can be cut into the byte strings of characters. */
  ghost predicate CharacterString(s: seq<Byte>) {
    exists pieces: seq<seq<Byte>> {:trigger AllCharacters(pieces)} :: AllCharacters(pieces) && Joined(pieces) == s
  }

  lemma {:induction false} CharactersOf(cs: seq<int>) returns (pieces: seq<seq<Byte>>)
    requires AllEncodable(cs)
    ensures AllCharacters(pieces) && Joined(pieces) == EncodeAll(cs)
  {
    hide Encode, Encodable, CharacterBytes, Joined;
    if cs == [] {
      pieces := [];
      JoinedNothing<Byte>(pieces);
      assert pieces[..0] == pieces;
    } else {
      var rest := CharactersOf(cs[1..]);
      EncodeGivesCharacter(cs[0]);
      pieces := [Encode(cs[0])] + rest;
      JoinedFirst(pieces);
      assert pieces[1..] == rest;
    }
  }

  lemma {:induction false} CodePointsOf(pieces: seq<seq<Byte>>) returns (cs: seq<int>)
    requires AllCharacters(pieces)
    ensures AllEncodable(cs) && EncodeAll(cs) == Joined(pieces)
  {
    hide Encode, Encodable, CharacterBytes, Joined;
    if pieces == [] {
      cs := [];
      JoinedNothing(pieces);
      assert pieces[..0] == pieces;
    } else {
      var rest := CodePointsOf(pieces[1..]);
      CharacterIsEncoded(pieces[0]);
      var c: int :| Encodable(c) && Encode(c) == pieces[0];
      cs := [c] + rest;
      JoinedFirst(pieces);
      assert cs[1..] == rest;
    }
  }

  /** The byte ranges of the standard describe exactly the encodings. */
  lemma EncodingsAreCharacters(s: seq<Byte>)
    ensures IsEncoding(s) <==> CharacterString(s)
  {
    hide EncodeAll, Joined, Encodable, CharacterBytes;
    if IsEncoding(s) {
      var cs: seq<int> :| AllEncodable(cs) && EncodeAll(cs) == s;
      var pieces := CharactersOf(cs);
    }
    if CharacterString(s) {
      var pieces: seq<seq<Byte>> :| AllCharacters(pieces) && Joined(pieces) == s;
      var cs := CodePointsOf(pieces);
    }
  }

  lemma LongestCharacters(s: seq<Byte>, end: nat)
    requires LongestEncoding(s, end)
    ensures end <= |s| && CharacterString(s[..end]) && forall n {:trigger s[..n]} :: end < n <= |s| ==> !CharacterString(s[..n])
  {
    hide IsEncoding, CharacterString;
    EncodingsAreCharacters(s[..end]);
    forall n | end < n <= |s| ensures !CharacterString(s[..n]) {
      EncodingsAreCharacters(s[..n]);
    }
  }

  lemma StopsAtLongest(s: seq<Byte>, ds: seq<int>, end: nat)
    requires end <= |s| && AllEncodable(ds) && EncodeAll(ds) == s[..end] && Stuck(s[end..])
    ensures LongestEncoding(s, end) && (IsEncoding(s) <==> end == |s|)
  {
    forall n | end < n <= |s| ensures !IsEncoding(s[..n]) {
      if IsEncoding(s[..n]) {
        var cs: seq<int> :| AllEncodable(cs) && EncodeAll(cs) == s[..n];
        StuckIsLongest(s, ds, cs);
      }
    }
    assert s[..|s|] == s;
  }

  /** True exactly for the encodings; the end marks how far the string is one. */
  method Utf8Validate(str: array?<Byte>, maxLen: nat) returns (ok: bool, end: nat)
    requires str != null ==> maxLen <= str.Length
    ensures str == null ==> !ok
    ensures str != null ==> LongestEncoding(str[..maxLen], end) && (ok <==> IsEncoding(str[..maxLen]))
    ensures str != null ==> (ok <==> CharacterString(str[..maxLen]))
    ensures str != null ==> end <= maxLen && CharacterString(str[..maxLen][..end])
    ensures str != null ==> forall n {:trigger str[..maxLen][..n]} :: end < n <= maxLen ==> !CharacterString(str[..maxLen][..n])
  {
    hide Encode, DecodeOne, EncodeAll, CharacterString;
    end := 0;
    if str == null {
      return false, 0;
    }
    ghost var s, cs := str[..maxLen], [];
    NothingEncoded();
    var p := 0;
    while p < maxLen && str[p] != 0
      invariant p <= maxLen && AllEncodable(cs) && EncodeAll(cs) == s[..p]
      decreases maxLen - p
    {
      ghost var rest := s[p..];
      var c := str[p];
      var len := SequenceLength(c);
      LengthIs(c);
      if len == -1 || maxLen - p < len {
        MalformedHere(rest);
        break;
      }
      var result := GetCodePoint(str, p, len, maxLen);
      if NeededLength(result) != len || result == FAILED || !UnicodeValid(result) {
        MalformedHere(rest);
        break;
      }
      DecodedHere(rest, result, len);
      EncodeAllAppend(cs, result);
      assert s[..p + len] == s[..p] + rest[..len];
      cs := cs + [result];
      p := p + len;
    }
    StopsHere(s[p..]);
    StopsAtLongest(s, cs, p);
    LongestCharacters(s, p);
    EncodingsAreCharacters(s);
    end := p;
    ok := p == maxLen;
  }

  lemma NothingEncoded()
    ensures EncodeAll([]) == []
  {
  }

  lemma MalformedHere(s: seq<Byte>)
    requires s != []
    requires var len := SequenceLength(s[0]);
             len == -1 || |s| < len || NeededLength(Gathered(s, len)) != len || Gathered(s, len) == FAILED || !UnicodeValid(Gathered(s, len))
    ensures DecodeOne(s).Malformed?
  {
  }

  lemma DecodedHere(s: seq<Byte>, result: int, len: int)
    requires s != [] && s[0] != 0 && len == SequenceLength(s[0]) && 1 <= len <= |s| && result == Gathered(s, len)
    requires NeededLength(result) == len && result != FAILED && UnicodeValid(result)
    ensures Encodable(result) && s[..len] == Encode(result)
  {
    hide Gathered, SequenceLength, UnicodeValid, Encode;
    DecodedIsEncoding(s);
  }

  /** The loop ends at the end of the string, at a NUL, or where a sequence is malformed. */
  lemma StopsHere(s: seq<Byte>)
    requires s == [] || s[0] == 0 || DecodeOne(s).Malformed?
    ensures Stuck(s)
  {
  }

  /** UTF8_GET. */
  method GetCodePoint(str: array<Byte>, p: nat, len: nat, maxLen: nat) returns (result: int)
    requires 1 <= len && p + len <= maxLen <= str.Length && len == SequenceLength(str[p])
    ensures result == Gathered(str[..maxLen][p..], len)
  {
    ghost var s := str[..maxLen][p..];
    hide PayloadValues, SequenceLength, Gathered;
    Gathering(s, 1);
    result := str[p] % PayloadValues(str[p]);
    var count := 1;
    while count < len
      invariant 1 <= count <= len && result == Gathered(s, count) && result < GatheredLimit(PayloadValues(s[0]), count)
    {
      LimitBelowFailed(s[0], count);
      Gathering(s, count + 1);
      if str[p + count] / 64 != 2 {
        FailedFrom(s, count + 1, len);
        return FAILED;
      }
      result := result * 64 + str[p + count] % 64;
      count := count + 1;
    }
  }

  /** Bound on the bits gathered: even six bytes stay below all ones, so that value can mark a failure. */
  function GatheredLimit(payload: nat, n: nat): nat {
    if n <= 1 then payload else 64 * GatheredLimit(payload, n - 1)
  }

  lemma LimitBelowFailed(c: Byte, n: nat)
    requires SequenceLength(c) != -1 && 1 <= n <= SequenceLength(c)
    ensures GatheredLimit(PayloadValues(c), n) <= 0x8000_0000
  {
    var p := PayloadValues(c);
    assert GatheredLimit(p, 2) == 64 * p;
    assert GatheredLimit(p, 3) == 64 * 64 * p;
    assert GatheredLimit(p, 4) == 64 * 64 * 64 * p;
    assert GatheredLimit(p, 5) == 64 * 64 * 64 * 64 * p;
    assert GatheredLimit(p, 6) == 64 * 64 * 64 * 64 * 64 * p;
  }

  lemma {:induction false} FailedFrom(s: seq<Byte>, n: nat, len: nat)
    requires 2 <= n <= len <= |s| && s[n - 1] / 64 != 2
    ensures Gathered(s, len) == FAILED
    decreases len
  {
    if n < len { FailedFrom(s, n, len - 1); }
  }
}
