/**
 * Base64 with the alphabet of section 4 of RFC 4648 and the `=` padding of
 * section 3.2, as used by `base64.b64encode` and `base64.b64decode`.
 */
module Base64 {
  import opened Wrappers
  import opened Bytes

  /** The 64 data characters of the alphabet (the pad character `=` is not one of them). */
  predicate IsDataChar(c: char) {
    ('A' <= c <= 'Z') || ('a' <= c <= 'z') || ('0' <= c <= '9') || c == '+' || c == '/'
  }

  /** The 6-bit value a data character stands for. */
  function ValueOf(c: char): (v: int)
    requires IsDataChar(c)
    ensures 0 <= v < 64
    ensures CharOf(v) == c
  {
    if 'A' <= c <= 'Z' then c as int - 'A' as int
    else if 'a' <= c <= 'z' then c as int - 'a' as int + 26
    else if '0' <= c <= '9' then c as int - '0' as int + 52
    else if c == '+' then 62
    else 63
  }

  /** The data character for a 6-bit value. */
  function CharOf(v: int): (c: char)
    requires 0 <= v < 64
    ensures IsDataChar(c)
  {
    if v < 26 then ('A' as int + v) as char
    else if v < 52 then ('a' as int + v - 26) as char
    else if v < 62 then ('0' as int + v - 52) as char
    else if v == 62 then '+'
    else '/'
  }

  lemma ValueOfCharOf(v: int)
    requires 0 <= v < 64
    ensures ValueOf(CharOf(v)) == v
  {
  }

  /** The four characters of a full group of three bytes. */
  function EncodeGroup(b0: byte, b1: byte, b2: byte): (q: string)
    ensures |q| == 4 && forall i :: 0 <= i < 4 ==> IsDataChar(q[i])
  {
    [CharOf(b0 / 4), CharOf((b0 % 4) * 16 + b1 / 16), CharOf((b1 % 16) * 4 + b2 / 64), CharOf(b2 % 64)]
  }

  /** The padded group of a final one or two bytes. */
  function EncodeTail(b: seq<byte>): (q: string)
    requires 1 <= |b| <= 2
    ensures |q| == 4 && forall i :: 0 <= i < 4 ==> IsDataChar(q[i]) || q[i] == '='
  {
    if |b| == 1 then [CharOf(b[0] / 4), CharOf((b[0] % 4) * 16), '=', '=']
    else [CharOf(b[0] / 4), CharOf((b[0] % 4) * 16 + b[1] / 16), CharOf((b[1] % 16) * 4), '=']
  }

  /** Encodes bytes three at a time into four characters, padding the last group with `=`. */
  function Encode(b: seq<byte>): (s: string)
    ensures |s| == 4 * ((|b| + 2) / 3)
    ensures forall i :: 0 <= i < |s| ==> IsDataChar(s[i]) || s[i] == '='
    decreases |b|
  {
    if |b| == 0 then ""
    else if |b| <= 2 then EncodeTail(b)
    else
      var q := EncodeGroup(b[0], b[1], b[2]);
      var rest := Encode(b[3..]);
      assert forall i :: 4 <= i < |q + rest| ==> (q + rest)[i] == rest[i - 4];
      q + rest
  }

  /** The three bytes carried by four data characters. */
  function DecodeQuad(q: string): (r: seq<byte>)
    requires |q| == 4 && forall i :: 0 <= i < 4 ==> IsDataChar(q[i])
    ensures |r| == 3
  {
    var v0, v1, v2, v3 := ValueOf(q[0]), ValueOf(q[1]), ValueOf(q[2]), ValueOf(q[3]);
    [v0 * 4 + v1 / 16, (v1 % 16) * 16 + v2 / 4, (v2 % 4) * 64 + v3]
  }

  /**
   * Decodes the last group of four characters: four data characters, or two
   * or three data characters followed by `=` up to the group's end. Bits left
   * over in the last data character are dropped, as CPython's decoder does.
   */
  function DecodeLastQuad(q: string): (r: Option<seq<byte>>)
    requires |q| == 4
    ensures r.Some? ==> 1 <= |r.value| <= 3
  {
    if IsDataChar(q[0]) && IsDataChar(q[1]) && IsDataChar(q[2]) && IsDataChar(q[3]) then
      Some(DecodeQuad(q))
    else if IsDataChar(q[0]) && IsDataChar(q[1]) && q[2] == '=' && q[3] == '=' then
      Some([ValueOf(q[0]) * 4 + ValueOf(q[1]) / 16])
    else if IsDataChar(q[0]) && IsDataChar(q[1]) && IsDataChar(q[2]) && q[3] == '=' then
      var v1 := ValueOf(q[1]);
      Some([ValueOf(q[0]) * 4 + v1 / 16, (v1 % 16) * 16 + ValueOf(q[2]) / 4])
    else
      None
  }

  /**
   * Decodes canonical base64 text: a length that is a multiple of four, data
   * characters only, and `=` only as the padding of the last group. Any other
   * text is rejected.
   */
  function Decode(s: string): (r: Option<seq<byte>>)
    ensures r.Some? ==> |s| % 4 == 0
    ensures r.Some? ==> |r.value| <= 3 * (|s| / 4) && (|s| == 0 || |r.value| > 3 * (|s| / 4) - 3)
    decreases |s|
  {
    if |s| == 0 then Some([])
    else if |s| < 4 then None
    else if |s| == 4 then DecodeLastQuad(s)
    else if IsDataChar(s[0]) && IsDataChar(s[1]) && IsDataChar(s[2]) && IsDataChar(s[3]) then
      match Decode(s[4..])
      case None => None
      case Some(rest) => Some(DecodeQuad(s[..4]) + rest)
    else
      None
  }

  lemma DecodeEncodeGroup(b0: byte, b1: byte, b2: byte)
    ensures DecodeQuad(EncodeGroup(b0, b1, b2)) == [b0, b1, b2]
  {
    ValueOfCharOf(b0 / 4);
    ValueOfCharOf((b0 % 4) * 16 + b1 / 16);
    ValueOfCharOf((b1 % 16) * 4 + b2 / 64);
    ValueOfCharOf(b2 % 64);
    assert ((b0 % 4) * 16 + b1 / 16) / 16 == b0 % 4;
    assert ((b0 % 4) * 16 + b1 / 16) % 16 == b1 / 16;
    assert ((b1 % 16) * 4 + b2 / 64) / 4 == b1 % 16;
    assert ((b1 % 16) * 4 + b2 / 64) % 4 == b2 / 64;
  }

  lemma DecodeEncodeFirstGroup(b: seq<byte>)
    requires |b| >= 3
    ensures DecodeQuad(EncodeGroup(b[0], b[1], b[2])) == b[..3]
  {
    DecodeEncodeGroup(b[0], b[1], b[2]);
    assert b[..3] == [b[0], b[1], b[2]];
  }

  lemma DecodeEncodeTail(b: seq<byte>)
    requires 1 <= |b| <= 2
    ensures DecodeLastQuad(EncodeTail(b)) == Some(b)
  {
    ValueOfCharOf(b[0] / 4);
    if |b| == 1 {
      ValueOfCharOf((b[0] % 4) * 16);
      assert ((b[0] % 4) * 16) / 16 == b[0] % 4;
      assert DecodeLastQuad(EncodeTail(b)) == Some([b[0]]);
      assert b == [b[0]];
    } else {
      ValueOfCharOf((b[0] % 4) * 16 + b[1] / 16);
      ValueOfCharOf((b[1] % 16) * 4);
      assert ((b[0] % 4) * 16 + b[1] / 16) / 16 == b[0] % 4;
      assert ((b[0] % 4) * 16 + b[1] / 16) % 16 == b[1] / 16;
      assert ((b[1] % 16) * 4) / 4 == b[1] % 16;
      assert DecodeLastQuad(EncodeTail(b)) == Some([b[0], b[1]]);
      assert b == [b[0], b[1]];
    }
  }

  /** A group of four data characters in front of decodable text decodes to its three bytes first. */
  lemma DecodeCons(q: string, rest: string, r: seq<byte>)
    requires |q| == 4 && forall i :: 0 <= i < 4 ==> IsDataChar(q[i])
    requires |rest| > 0 && Decode(rest) == Some(r)
    ensures Decode(q + rest) == Some(DecodeQuad(q) + r)
  {
    var s := q + rest;
    assert s[..4] == q && s[4..] == rest;
    assert IsDataChar(s[0]) && IsDataChar(s[1]) && IsDataChar(s[2]) && IsDataChar(s[3]);
  }

  lemma EncodeCons(b: seq<byte>)
    requires |b| >= 3
    ensures Encode(b) == EncodeGroup(b[0], b[1], b[2]) + Encode(b[3..])
  {
  }

  /** Decoding what was encoded gives back the original bytes. */
  lemma {:induction false} DecodeEncode(b: seq<byte>)
    ensures Decode(Encode(b)) == Some(b)
    decreases |b|
  {
    if |b| == 0 {
    } else if |b| <= 2 {
      DecodeEncodeTail(b);
    } else {
      var q := EncodeGroup(b[0], b[1], b[2]);
      DecodeEncodeFirstGroup(b);
      EncodeCons(b);
      if |b| == 3 {
        assert Encode(b) == q;
        assert b[..3] == b;
      } else {
        var rest := Encode(b[3..]);
        DecodeEncode(b[3..]);
        DecodeCons(q, rest, b[3..]);
        assert b[..3] + b[3..] == b;
      }
    }
  }
}
