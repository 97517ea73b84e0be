/**
 * UTF-8 decoding of a byte string, as Rust's `str::from_utf8` does it:
 * well-formed sequences only (no overlong forms, no surrogates, nothing
 * above U+10FFFF), and any ill-formed input is an error. `Encode` is the
 * shortest-form encoding a Rust `str` holds; the lemmas at the end show that
 * decoding accepts exactly its image and inverts it.
 */
module Utf8 {
  import opened Wrappers

  newtype byte = x: int | 0 <= x < 256

  predicate IsContinuation(b: byte) {
    0x80 <= b < 0xC0
  }

  /** A string of ASCII characters only. */
  predicate IsAscii(s: string) {
    forall i :: 0 <= i < |s| ==> s[i] < 128 as char
  }

  /** Puts `c` in front of a decoded string, keeping a failure a failure. */
  function Prepend(c: char, rest: Option<string>): (r: Option<string>)
    ensures r.Some? <==> rest.Some?
    ensures r.Some? ==> r.value == [c] + rest.value
  {
    match rest
    case None => None
    case Some(s) => Some([c] + s)
  }

  /** The valid range of the second byte after a three-byte lead byte. */
  function Second3(lead: int): (int, int) {
    if lead == 0xE0 then (0xA0, 0xBF) else if lead == 0xED then (0x80, 0x9F) else (0x80, 0xBF)
  }

  /** The valid range of the second byte after a four-byte lead byte. */
  function Second4(lead: int): (int, int) {
    if lead == 0xF0 then (0x90, 0xBF) else if lead == 0xF4 then (0x80, 0x8F) else (0x80, 0xBF)
  }

  /**
   * The first character of `b` and the number of bytes it takes, or `None`
   * if `b` does not start with a well-formed UTF-8 sequence.
   */
  function DecodeFirst(b: seq<byte>): (r: Option<(char, nat)>)
    requires |b| > 0
    ensures r.Some? ==> 1 <= r.value.1 <= |b| && r.value.1 <= 4
    ensures b[0] < 0x80 ==> r == Some((b[0] as int as char, 1))
    ensures r.Some? && b[0] >= 0x80 ==> r.value.0 >= 128 as char
  {
    if b[0] < 0x80 then Some((b[0] as int as char, 1)) else DecodeMultiByte(b)
  }

  /** A sequence of two to four bytes whose lead byte is not ASCII. */
  function DecodeMultiByte(b: seq<byte>): (r: Option<(char, nat)>)
    requires |b| > 0 && b[0] >= 0x80
    ensures r.Some? ==> 2 <= r.value.1 <= |b| && r.value.1 <= 4 && r.value.0 >= 128 as char
  {
    var b0 := b[0] as int;
    if 0xC2 <= b0 <= 0xDF && |b| >= 2 && IsContinuation(b[1]) then
      var cp := (b0 - 0xC0) * 64 + (b[1] as int - 0x80);
      Some((cp as char, 2))
    else if 0xE0 <= b0 <= 0xEF && |b| >= 3
            && Second3(b0).0 <= b[1] as int <= Second3(b0).1 && IsContinuation(b[2]) then
      var cp := (b0 - 0xE0) * 4096 + (b[1] as int - 0x80) * 64 + (b[2] as int - 0x80);
      Some((cp as char, 3))
    else if 0xF0 <= b0 <= 0xF4 && |b| >= 4
            && Second4(b0).0 <= b[1] as int <= Second4(b0).1
            && IsContinuation(b[2]) && IsContinuation(b[3]) then
      var cp := (b0 - 0xF0) * 262144 + (b[1] as int - 0x80) * 4096
                + (b[2] as int - 0x80) * 64 + (b[3] as int - 0x80);
      Some((cp as char, 4))
    else
      None
  }

  /** The characters `b` encodes, or `None` if `b` is not well-formed UTF-8. */
  function Decode(b: seq<byte>): (r: Option<string>)
    ensures r.Some? ==> |r.value| <= |b| <= 4 * |r.value|
    decreases |b|
  {
    if b == [] then Some([])
    else
      match DecodeFirst(b)
      case None => None
      case Some((c, n)) => Prepend(c, Decode(b[n..]))
  }

  /** The UTF-8 encoding of one character: one to four bytes, shortest form. */
  function EncodeChar(c: char): (b: seq<byte>)
    ensures 1 <= |b| <= 4
    ensures |b| == 1 <==> c < 128 as char
    ensures |b| == 1 ==> b[0] as int == c as int
  {
    var cp := c as int;
    if cp < 0x80 then
      [cp as byte]
    else if cp < 0x800 then
      [(0xC0 + cp / 64) as byte, (0x80 + cp % 64) as byte]
    else if cp < 0x10000 then
      [(0xE0 + cp / 4096) as byte, (0x80 + cp / 64 % 64) as byte, (0x80 + cp % 64) as byte]
    else
      [(0xF0 + cp / 262144) as byte, (0x80 + cp / 4096 % 64) as byte,
       (0x80 + cp / 64 % 64) as byte, (0x80 + cp % 64) as byte]
  }

  /** The UTF-8 encoding of a string, as Rust stores a `str`. */
  function Encode(s: string): (b: seq<byte>)
    ensures |s| <= |b| <= 4 * |s|
  {
    if s == [] then [] else EncodeChar(s[0]) + Encode(s[1..])
  }

  /** A code point below U+10000 split into a lead part and two six-bit digits. */
  lemma Digits3(cp: int)
    requires 0 <= cp
    ensures cp == cp / 4096 * 4096 + cp / 64 % 64 * 64 + cp % 64
  {
    var a := cp / 64;
    assert cp == a * 64 + cp % 64;
    assert a == a / 64 * 64 + a % 64;
    assert a / 64 == cp / 4096;
  }

  /** A code point split into a lead part and three six-bit digits. */
  lemma Digits4(cp: int)
    requires 0 <= cp
    ensures cp == cp / 262144 * 262144 + cp / 4096 % 64 * 4096 + cp / 64 % 64 * 64 + cp % 64
  {
    var a := cp / 4096;
    Digits3(cp);
    assert a == a / 64 * 64 + a % 64;
    assert a / 64 == cp / 262144;
  }

  /** A two-byte encoding decodes back to its character. */
  lemma DecodeFirstTwo(c: char, rest: seq<byte>)
    requires |EncodeChar(c)| == 2
    ensures DecodeFirst(EncodeChar(c) + rest) == Some((c, 2))
  {
    var cp := c as int;
    var b := EncodeChar(c) + rest;
    assert b[0] as int == 0xC0 + cp / 64 && b[1] as int == 0x80 + cp % 64;
    assert cp == cp / 64 * 64 + cp % 64;
  }

  /** A three-byte encoding decodes back to its character. */
  lemma DecodeFirstThree(c: char, rest: seq<byte>)
    requires |EncodeChar(c)| == 3
    ensures DecodeFirst(EncodeChar(c) + rest) == Some((c, 3))
  {
    var cp := c as int;
    var b := EncodeChar(c) + rest;
    assert b[0] as int == 0xE0 + cp / 4096;
    assert b[1] as int == 0x80 + cp / 64 % 64;
    assert b[2] as int == 0x80 + cp % 64;
    Digits3(cp);
  }

  /** A four-byte encoding decodes back to its character. */
  lemma DecodeFirstFour(c: char, rest: seq<byte>)
    requires |EncodeChar(c)| == 4
    ensures DecodeFirst(EncodeChar(c) + rest) == Some((c, 4))
  {
    var cp := c as int;
    var b := EncodeChar(c) + rest;
    assert b[0] as int == 0xF0 + cp / 262144;
    assert b[1] as int == 0x80 + cp / 4096 % 64;
    assert b[2] as int == 0x80 + cp / 64 % 64;
    assert b[3] as int == 0x80 + cp % 64;
    Digits4(cp);
  }

  /** The encoding of a character, followed by anything, decodes first to that character. */
  lemma DecodeFirstEncodeChar(c: char, rest: seq<byte>)
    ensures DecodeFirst(EncodeChar(c) + rest) == Some((c, |EncodeChar(c)|))
  {
    var n := |EncodeChar(c)|;
    if n == 1 {
      assert (EncodeChar(c) + rest)[0] == EncodeChar(c)[0];
    } else if n == 2 {
      DecodeFirstTwo(c, rest);
    } else if n == 3 {
      DecodeFirstThree(c, rest);
    } else {
      DecodeFirstFour(c, rest);
    }
  }

  /** Splitting `x * 64 + r` by 64 gives back `x` and `r`. */
  lemma DivMod64(x: int, r: int)
    requires 0 <= r < 64
    ensures (x * 64 + r) / 64 == x && (x * 64 + r) % 64 == r
  {
  }

  /** Splitting `x * 4096 + r` by 4096 gives back `x`. */
  lemma Div4096(x: int, r: int)
    requires 0 <= r < 4096
    ensures (x * 4096 + r) / 4096 == x
  {
  }

  /** Splitting `x * 262144 + r` by 262144 gives back `x`. */
  lemma Div262144(x: int, r: int)
    requires 0 <= r < 262144
    ensures (x * 262144 + r) / 262144 == x
  {
  }

  /** A well-formed two-byte sequence is the encoding of the character it decodes to. */
  lemma EncodeCharOfTwo(b: seq<byte>)
    requires |b| >= 2 && 0xC2 <= b[0] <= 0xDF && IsContinuation(b[1])
    ensures DecodeFirst(b).Some? && DecodeFirst(b).value.1 == 2
    ensures b[..2] == EncodeChar(DecodeFirst(b).value.0)
  {
    var q, r := b[0] as int - 0xC0, b[1] as int - 0x80;
    var cp := q * 64 + r;
    DivMod64(q, r);
    assert DecodeFirst(b) == Some((cp as char, 2));
    var e := EncodeChar(cp as char);
    assert e == [b[0], b[1]];
  }

  /** A well-formed three-byte sequence is the encoding of the character it decodes to. */
  lemma EncodeCharOfThree(b: seq<byte>)
    requires |b| >= 3 && 0xE0 <= b[0] <= 0xEF
    requires Second3(b[0] as int).0 <= b[1] as int <= Second3(b[0] as int).1 && IsContinuation(b[2])
    ensures DecodeFirst(b).Some? && DecodeFirst(b).value.1 == 3
    ensures b[..3] == EncodeChar(DecodeFirst(b).value.0)
  {
    var q, r1, r2 := b[0] as int - 0xE0, b[1] as int - 0x80, b[2] as int - 0x80;
    var cp := q * 4096 + r1 * 64 + r2;
    assert cp / 4096 == q by { Div4096(q, r1 * 64 + r2); }
    assert cp / 64 % 64 == r1 && cp % 64 == r2 by {
      assert cp == (q * 64 + r1) * 64 + r2;
      DivMod64(q * 64 + r1, r2);
      DivMod64(q, r1);
    }
    assert 0x800 <= cp < 0x10000;
    assert DecodeFirst(b) == Some((cp as char, 3));
    assert EncodeChar(cp as char) == [b[0], b[1], b[2]];
  }

  /** A well-formed four-byte sequence is the encoding of the character it decodes to. */
  lemma EncodeCharOfFour(b: seq<byte>)
    requires |b| >= 4 && 0xF0 <= b[0] <= 0xF4
    requires Second4(b[0] as int).0 <= b[1] as int <= Second4(b[0] as int).1
    requires IsContinuation(b[2]) && IsContinuation(b[3])
    ensures DecodeFirst(b).Some? && DecodeFirst(b).value.1 == 4
    ensures b[..4] == EncodeChar(DecodeFirst(b).value.0)
  {
    var q, r1, r2, r3 := b[0] as int - 0xF0, b[1] as int - 0x80, b[2] as int - 0x80, b[3] as int - 0x80;
    var cp := q * 262144 + r1 * 4096 + r2 * 64 + r3;
    assert cp / 262144 == q by { Div262144(q, r1 * 4096 + r2 * 64 + r3); }
    assert cp / 4096 % 64 == r1 by {
      assert cp == (q * 64 + r1) * 4096 + (r2 * 64 + r3);
      Div4096(q * 64 + r1, r2 * 64 + r3);
      DivMod64(q, r1);
    }
    assert cp / 64 % 64 == r2 && cp % 64 == r3 by {
      assert cp == ((q * 64 + r1) * 64 + r2) * 64 + r3;
      DivMod64((q * 64 + r1) * 64 + r2, r3);
      DivMod64(q * 64 + r1, r2);
    }
    assert 0x10000 <= cp;
    assert DecodeFirst(b) == Some((cp as char, 4));
    assert EncodeChar(cp as char) == [b[0], b[1], b[2], b[3]];
  }

  /** The bytes `DecodeFirst` consumes are the shortest-form encoding of the character it yields. */
  lemma EncodeCharOfDecodeFirst(b: seq<byte>)
    requires |b| > 0 && DecodeFirst(b).Some?
    ensures b[..DecodeFirst(b).value.1] == EncodeChar(DecodeFirst(b).value.0)
  {
    var b0 := b[0] as int;
    if b0 < 0x80 {
      assert b[..1] == [b[0]];
    } else if 0xC2 <= b0 <= 0xDF && |b| >= 2 && IsContinuation(b[1]) {
      EncodeCharOfTwo(b);
    } else if 0xE0 <= b0 <= 0xEF && |b| >= 3
            && Second3(b0).0 <= b[1] as int <= Second3(b0).1 && IsContinuation(b[2]) {
      EncodeCharOfThree(b);
    } else {
      EncodeCharOfFour(b);
    }
  }

  /** Encoding then decoding gives the string back. */
  lemma {:induction false} DecodeEncode(s: string)
    ensures Decode(Encode(s)) == Some(s)
  {
    if s != [] {
      var e := EncodeChar(s[0]);
      var b := Encode(s);
      assert b == e + Encode(s[1..]);
      DecodeFirstEncodeChar(s[0], Encode(s[1..]));
      assert b[|e|..] == Encode(s[1..]);
      DecodeEncode(s[1..]);
      assert s == [s[0]] + s[1..];
    }
  }

  /**
   * A successful decoding of non-empty bytes starts with the encoding of its
   * first character, and the rest decodes to the remaining characters.
   */
  lemma DecodeStep(b: seq<byte>) returns (c: char, n: nat)
    requires b != [] && Decode(b).Some?
    ensures 1 <= n <= |b| && b[..n] == EncodeChar(c)
    ensures Decode(b[n..]).Some? && Decode(b).value == [c] + Decode(b[n..]).value
  {
    c, n := DecodeFirst(b).value.0, DecodeFirst(b).value.1;
    EncodeCharOfDecodeFirst(b);
  }

  /** Decoding is injective: the only bytes that decode to `s` are `Encode(s)`. */
  lemma {:induction false} EncodeDecode(b: seq<byte>, s: string)
    requires Decode(b) == Some(s)
    ensures b == Encode(s)
  {
    if b != [] {
      var c, n := DecodeStep(b);
      assert s[0] == c && Decode(b[n..]) == Some(s[1..]);
      assert b[n..] == Encode(s[1..]) by { EncodeDecode(b[n..], s[1..]); }
      calc {
        b;
        b[..n] + b[n..];
        EncodeChar(s[0]) + Encode(s[1..]);
        Encode(s);
      }
    }
  }

  /** An ASCII string is encoded one byte per character, each byte the character's code. */
  lemma {:induction false} EncodeAscii(s: string)
    requires IsAscii(s)
    ensures |Encode(s)| == |s|
    ensures forall i :: 0 <= i < |s| ==> Encode(s)[i] as int == s[i] as int
  {
    if s != [] {
      EncodeAscii(s[1..]);
      assert Encode(s) == EncodeChar(s[0]) + Encode(s[1..]);
    }
  }
}
