/**
 * UTF-8 as Python's `str.encode()` and strict `bytes.decode('utf-8')` use it:
 * the well-formed byte sequences of table 3-7 of the Unicode Standard
 * (no overlong forms, no surrogates, nothing above U+10FFFF).
 */
module Utf8 {
  import opened Wrappers
  import opened Bytes

  predicate IsContinuation(b: byte) {
    0x80 <= b <= 0xBF
  }

  /** The bytes of one scalar value. */
  function EncodeChar(c: char): (r: seq<byte>)
    ensures 1 <= |r| <= 4
    ensures (|r| == 1) == (c as int < 0x80)
  {
    var cp := c as int;
    if cp < 0x80 then [cp]
    else if cp < 0x800 then [0xC0 + cp / 64, 0x80 + cp % 64]
    else if cp < 0x10000 then [0xE0 + cp / 4096, 0x80 + (cp / 64) % 64, 0x80 + cp % 64]
    else [0xF0 + cp / 262144, 0x80 + (cp / 4096) % 64, 0x80 + (cp / 64) % 64, 0x80 + cp % 64]
  }

  function Encode(s: string): (r: seq<byte>)
    ensures |r| >= |s|
    ensures (forall i :: 0 <= i < |s| ==> s[i] as int < 0x80) ==> |r| == |s|
  {
    if s == "" then [] else EncodeChar(s[0]) + Encode(s[1..])
  }

  /** A code point that is a Unicode scalar value, so that it is a `char`. */
  predicate IsScalar(cp: int) {
    (0 <= cp < 0xD800) || (0xE000 <= cp < 0x110000)
  }

  /**
   * The first scalar value of `b` and the number of bytes it takes, when `b`
   * starts with a well-formed sequence.
   */
  function DecodeFirst(b: seq<byte>): (r: Option<(char, nat)>)
    requires |b| > 0
    ensures r.Some? ==> 1 <= r.value.1 <= |b| && r.value.1 <= 4
  {
    var b0: int := b[0];
    if b0 < 0x80 then Some((b0 as char, 1))
    else if 0xC2 <= b0 <= 0xDF then
      if |b| >= 2 && IsContinuation(b[1]) then
        var cp: int := (b0 - 0xC0) * 64 + (b[1] as int - 0x80);
        Some((cp as char, 2))
      else None
    else if 0xE0 <= b0 <= 0xEF then
      var lo := if b0 == 0xE0 then 0xA0 else 0x80;
      var hi := if b0 == 0xED then 0x9F else 0xBF;
      if |b| >= 3 && lo <= b[1] <= hi && IsContinuation(b[2]) then
        var cp: int := (b0 - 0xE0) * 4096 + (b[1] as int - 0x80) * 64 + (b[2] as int - 0x80);
        assert IsScalar(cp);
        Some((cp as char, 3))
      else None
    else if 0xF0 <= b0 <= 0xF4 then
      var lo := if b0 == 0xF0 then 0x90 else 0x80;
      var hi := if b0 == 0xF4 then 0x8F else 0xBF;
      if |b| >= 4 && lo <= b[1] <= hi && IsContinuation(b[2]) && IsContinuation(b[3]) then
        var cp: int := (b0 - 0xF0) * 262144 + (b[1] as int - 0x80) * 4096 + (b[2] as int - 0x80) * 64 + (b[3] as int - 0x80);
        assert IsScalar(cp);
        Some((cp as char, 4))
      else None
    else None
  }

  /** Strict decoding: the whole input must be well-formed. */
  function Decode(b: seq<byte>): (r: Option<string>)
    ensures r.Some? ==> |r.value| <= |b|
    decreases |b|
  {
    if b == [] then Some("")
    else
      match DecodeFirst(b)
      case None => None
      case Some((c, n)) =>
        match Decode(b[n..])
        case None => None
        case Some(rest) => Some([c] + rest)
  }

  lemma DecodeFirstEncodeTwo(c: char, rest: seq<byte>)
    requires 0x80 <= c as int < 0x800
    ensures DecodeFirst(EncodeChar(c) + rest) == Some((c, 2))
  {
    var cp := c as int;
    var x, y := cp / 64, cp % 64;
    assert x * 64 + y == cp;
    var b := EncodeChar(c) + rest;
    assert b[0] == 0xC0 + x && b[1] == 0x80 + y;
  }

  lemma DecodeFirstEncodeThree(c: char, rest: seq<byte>)
    requires 0x800 <= c as int < 0x10000
    ensures DecodeFirst(EncodeChar(c) + rest) == Some((c, 3))
  {
    var cp := c as int;
    var x, y, z := cp / 4096, (cp / 64) % 64, cp % 64;
    assert cp / 64 == x * 64 + y;
    assert cp == x * 4096 + y * 64 + z;
    assert x == 0 ==> y >= 32;
    assert x == 13 ==> y < 32;
    var b := EncodeChar(c) + rest;
    assert b[0] == 0xE0 + x && b[1] == 0x80 + y && b[2] == 0x80 + z;
  }

  lemma DecodeFirstEncodeFour(c: char, rest: seq<byte>)
    requires 0x10000 <= c as int
    ensures DecodeFirst(EncodeChar(c) + rest) == Some((c, 4))
  {
    var cp := c as int;
    var w, x, y, z := cp / 262144, (cp / 4096) % 64, (cp / 64) % 64, cp % 64;
    assert cp / 4096 == w * 64 + x;
    assert cp / 64 == (cp / 4096) * 64 + y;
    assert cp == w * 262144 + x * 4096 + y * 64 + z;
    assert w == 0 ==> x >= 16;
    assert w == 4 ==> x < 16;
    var b := EncodeChar(c) + rest;
    assert b[0] == 0xF0 + w && b[1] == 0x80 + x && b[2] == 0x80 + y && b[3] == 0x80 + z;
  }

  /** The first scalar value decoded from an encoded character is that character. */
  lemma DecodeFirstEncodeChar(c: char, rest: seq<byte>)
    ensures DecodeFirst(EncodeChar(c) + rest) == Some((c, |EncodeChar(c)|))
  {
    if c as int < 0x80 {
    } else if c as int < 0x800 {
      DecodeFirstEncodeTwo(c, rest);
    } else if c as int < 0x10000 {
      DecodeFirstEncodeThree(c, rest);
    } else {
      DecodeFirstEncodeFour(c, rest);
    }
  }

  /** Decoding what was encoded gives back the original text. */
  lemma {:induction false} DecodeEncode(s: string)
    ensures Decode(Encode(s)) == Some(s)
  {
    if s != "" {
      var e := EncodeChar(s[0]);
      var tail := Encode(s[1..]);
      DecodeFirstEncodeChar(s[0], tail);
      assert (e + tail)[|e|..] == tail;
      DecodeEncode(s[1..]);
      assert [s[0]] + s[1..] == s;
    }
  }

  lemma EncodeCharDecodeTwo(b: seq<byte>)
    requires |b| >= 2 && 0xC2 <= b[0] <= 0xDF && IsContinuation(b[1])
    ensures DecodeFirst(b).Some? && DecodeFirst(b).value.1 == 2
    ensures EncodeChar(DecodeFirst(b).value.0) == b[..2]
  {
    var x, y := b[0] as int - 0xC0, b[1] as int - 0x80;
    var cp := x * 64 + y;
    assert cp / 64 == x && cp % 64 == y;
    assert DecodeFirst(b).value.0 as int == cp;
  }

  lemma EncodeCharDecodeThree(b: seq<byte>)
    requires |b| >= 3 && 0xE0 <= b[0] <= 0xEF && DecodeFirst(b).Some?
    ensures DecodeFirst(b).value.1 == 3
    ensures EncodeChar(DecodeFirst(b).value.0) == b[..3]
  {
    var x, y, z := b[0] as int - 0xE0, b[1] as int - 0x80, b[2] as int - 0x80;
    var cp := x * 4096 + y * 64 + z;
    assert cp / 64 == x * 64 + y;
    assert cp / 4096 == x && (cp / 64) % 64 == y && cp % 64 == z;
    assert DecodeFirst(b).value.0 as int == cp;
  }

  lemma EncodeCharDecodeFour(b: seq<byte>)
    requires |b| >= 4 && 0xF0 <= b[0] <= 0xF4 && DecodeFirst(b).Some?
    ensures DecodeFirst(b).value.1 == 4
    ensures EncodeChar(DecodeFirst(b).value.0) == b[..4]
  {
    var w, x, y, z := b[0] as int - 0xF0, b[1] as int - 0x80, b[2] as int - 0x80, b[3] as int - 0x80;
    var cp := w * 262144 + x * 4096 + y * 64 + z;
    assert cp / 64 == (w * 64 + x) * 64 + y;
    assert cp / 4096 == w * 64 + x;
    assert cp / 262144 == w && (cp / 4096) % 64 == x && (cp / 64) % 64 == y && cp % 64 == z;
    assert DecodeFirst(b).value.0 as int == cp;
  }

  /** The first scalar value decoded is encoded by exactly the bytes it was read from. */
  lemma EncodeCharDecodeFirst(b: seq<byte>)
    requires |b| > 0 && DecodeFirst(b).Some?
    ensures EncodeChar(DecodeFirst(b).value.0) == b[..DecodeFirst(b).value.1]
  {
    var b0 := b[0] as int;
    if b0 < 0x80 {
      assert b[..1] == [b[0]];
    } else if b0 <= 0xDF {
      EncodeCharDecodeTwo(b);
    } else if b0 <= 0xEF {
      EncodeCharDecodeThree(b);
    } else {
      EncodeCharDecodeFour(b);
    }
  }

  lemma EncodeCons(c: char, rest: string)
    ensures Encode([c] + rest) == EncodeChar(c) + Encode(rest)
  {
    assert ([c] + rest)[0] == c && ([c] + rest)[1..] == rest;
  }

  lemma DecodeStep(b: seq<byte>)
    requires b != [] && Decode(b).Some?
    ensures DecodeFirst(b).Some? && Decode(b[DecodeFirst(b).value.1..]).Some?
    ensures Decode(b).value == [DecodeFirst(b).value.0] + Decode(b[DecodeFirst(b).value.1..]).value
  {
  }

  /** Strictness: bytes that decode are the encoding of what they decode to. */
  lemma {:induction false} EncodeDecode(b: seq<byte>)
    requires Decode(b).Some?
    ensures Encode(Decode(b).value) == b
    decreases |b|
  {
    if b != [] {
      DecodeStep(b);
      var c, n := DecodeFirst(b).value.0, DecodeFirst(b).value.1;
      var rest := Decode(b[n..]).value;
      EncodeCharDecodeFirst(b);
      EncodeDecode(b[n..]);
      EncodeCons(c, rest);
      assert b[..n] + b[n..] == b;
    }
  }
}
