/**
 * Python's `str.encode()` and `bytes.decode()` with their default codec, UTF-8, and the
 * default strict error handling: decoding fails (UnicodeDecodeError, here None) on any
 * byte sequence that is not well-formed UTF-8 (overlong forms, surrogates, code points
 * above U+10FFFF, truncated or stray continuation bytes).
 */
module Utf8 {
  import opened Wrappers

  newtype byte = b: int | 0 <= b < 256

  predicate IsContinuation(b: byte) {
    0x80 <= b <= 0xBF
  }

  /** The UTF-8 encoding of one Unicode scalar value: 1 to 4 bytes. */
  function EncodeChar(c: char): (bs: seq<byte>)
    ensures 1 <= |bs| <= 4
  {
    var cp := c as int;
    if cp < 0x80 then
      [cp as byte]
    else if cp < 0x800 then
      [(0xC0 + cp / 64) as byte, (0x80 + cp % 64) as byte]
    else if cp < 0x10000 then
      [(0xE0 + cp / 64 / 64) as byte, (0x80 + cp / 64 % 64) as byte, (0x80 + cp % 64) as byte]
    else
      [(0xF0 + cp / 64 / 64 / 64) as byte, (0x80 + cp / 64 / 64 % 64) as byte,
       (0x80 + cp / 64 % 64) as byte, (0x80 + cp % 64) as byte]
  }

  /** `s.encode()`. */
  function Encode(s: string): seq<byte> {
    if s == [] then [] else EncodeChar(s[0]) + Encode(s[1..])
  }

  /**
   * The scalar value at the front of bs and the number of bytes it takes, when bs starts
   * with a well-formed UTF-8 sequence (the byte ranges of the Unicode standard's table of
   * well-formed UTF-8 byte sequences).
   */
  function DecodeFirst(bs: seq<byte>): (r: Option<(char, nat)>)
    requires |bs| > 0
    ensures r.Some? ==> 1 <= r.value.1 <= |bs| && r.value.1 <= 4
  {
    var b0 := bs[0] as int;
    if b0 < 0x80 then
      Some((b0 as char, 1))
    else if 0xC2 <= b0 <= 0xDF then
      if |bs| >= 2 && IsContinuation(bs[1]) then
        Some((((b0 - 0xC0) * 64 + (bs[1] as int - 0x80)) as char, 2))
      else None
    else if 0xE0 <= b0 <= 0xEF then
      var lo := if b0 == 0xE0 then 0xA0 else 0x80;
      var hi := if b0 == 0xED then 0x9F else 0xBF;
      if |bs| >= 3 && lo <= bs[1] as int <= hi && IsContinuation(bs[2]) then
        var cp := (b0 - 0xE0) * 4096 + (bs[1] as int - 0x80) * 64 + (bs[2] as int - 0x80);
        Some((cp as char, 3))
      else None
    else if 0xF0 <= b0 <= 0xF4 then
      var lo := if b0 == 0xF0 then 0x90 else 0x80;
      var hi := if b0 == 0xF4 then 0x8F else 0xBF;
      if |bs| >= 4 && lo <= bs[1] as int <= hi && IsContinuation(bs[2]) && IsContinuation(bs[3]) then
        var cp := (b0 - 0xF0) * 262144 + (bs[1] as int - 0x80) * 4096
                  + (bs[2] as int - 0x80) * 64 + (bs[3] as int - 0x80);
        Some((cp as char, 4))
      else None
    else None
  }

  /** `bs.decode()`: Some(text), or None where Python raises UnicodeDecodeError. */
  function Decode(bs: seq<byte>): Option<string>
    decreases |bs|
  {
    if bs == [] then Some([])
    else match DecodeFirst(bs)
      case None => None
      case Some((c, n)) =>
        match Decode(bs[n..])
        case None => None
        case Some(rest) => Some([c] + rest)
  }

  lemma DecodeFirstOfEncodeChar(c: char, rest: seq<byte>)
    ensures DecodeFirst(EncodeChar(c) + rest) == Some((c, |EncodeChar(c)|))
  {
    var cp := c as int;
    var bs := EncodeChar(c) + rest;
    if cp >= 0x800 {
      var q1 := cp / 64;
      var q2 := q1 / 64;
      assert cp == q1 * 64 + cp % 64;
      assert q1 == q2 * 64 + q1 % 64;
      if cp >= 0x10000 {
        var q3 := q2 / 64;
        assert q2 == q3 * 64 + q2 % 64;
        assert cp == q3 * 262144 + (q2 % 64) * 4096 + (q1 % 64) * 64 + cp % 64;
      } else {
        assert cp == q2 * 4096 + (q1 % 64) * 64 + cp % 64;
      }
    }
  }

  /** Decoding undoes encoding: `s.encode().decode() == s`. */
  lemma {:induction false} DecodeEncode(s: string)
    ensures Decode(Encode(s)) == Some(s)
  {
    if s != [] {
      var head := EncodeChar(s[0]);
      var tail := Encode(s[1..]);
      DecodeFirstOfEncodeChar(s[0], tail);
      assert (head + tail)[|head|..] == tail;
      DecodeEncode(s[1..]);
      assert Encode(s) == head + tail;
      assert [s[0]] + s[1..] == s;
    }
  }

  lemma EncodeCharOfDecodeFirst(bs: seq<byte>)
    requires |bs| > 0 && DecodeFirst(bs).Some?
    ensures EncodeChar(DecodeFirst(bs).value.0) == bs[..DecodeFirst(bs).value.1]
  {
    var n := DecodeFirst(bs).value.1;
    if n == 2 {
      EncodeCharOfPair(bs);
    } else if n == 3 {
      EncodeCharOfTriple(bs);
    } else if n == 4 {
      EncodeCharOfQuad(bs);
    }
  }

  lemma EncodeCharOfPair(bs: seq<byte>)
    requires |bs| > 0 && DecodeFirst(bs).Some? && DecodeFirst(bs).value.1 == 2
    ensures EncodeChar(DecodeFirst(bs).value.0) == bs[..2]
  {
    Digits2(bs[0] as int - 0xC0, bs[1] as int - 0x80);
  }

  lemma EncodeCharOfTriple(bs: seq<byte>)
    requires |bs| > 0 && DecodeFirst(bs).Some? && DecodeFirst(bs).value.1 == 3
    ensures EncodeChar(DecodeFirst(bs).value.0) == bs[..3]
  {
    Digits3(bs[0] as int - 0xE0, bs[1] as int - 0x80, bs[2] as int - 0x80);
  }

  lemma EncodeCharOfQuad(bs: seq<byte>)
    requires |bs| > 0 && DecodeFirst(bs).Some? && DecodeFirst(bs).value.1 == 4
    ensures EncodeChar(DecodeFirst(bs).value.0) == bs[..4]
  {
    Digits4(bs[0] as int - 0xF0, bs[1] as int - 0x80, bs[2] as int - 0x80, bs[3] as int - 0x80);
  }

  /** The base-64 digits of a two-, three- or four-byte code point are its payload bits. */
  lemma Digits2(d0: int, d1: int)
    requires 0 <= d0 < 32 && 0 <= d1 < 64
    ensures (d0 * 64 + d1) / 64 == d0 && (d0 * 64 + d1) % 64 == d1
  {
  }

  lemma Digits3(d0: int, d1: int, d2: int)
    requires 0 <= d0 < 16 && 0 <= d1 < 64 && 0 <= d2 < 64
    ensures var cp := d0 * 4096 + d1 * 64 + d2;
      cp / 64 / 64 == d0 && cp / 64 % 64 == d1 && cp % 64 == d2
  {
    var cp := d0 * 4096 + d1 * 64 + d2;
    assert cp / 64 == d0 * 64 + d1;
  }

  lemma Digits4(d0: int, d1: int, d2: int, d3: int)
    requires 0 <= d0 < 8 && 0 <= d1 < 64 && 0 <= d2 < 64 && 0 <= d3 < 64
    ensures var cp := d0 * 262144 + d1 * 4096 + d2 * 64 + d3;
      cp / 64 / 64 / 64 == d0 && cp / 64 / 64 % 64 == d1 && cp / 64 % 64 == d2 && cp % 64 == d3
  {
    var cp := d0 * 262144 + d1 * 4096 + d2 * 64 + d3;
    assert cp / 64 == d0 * 4096 + d1 * 64 + d2;
    assert cp / 64 / 64 == d0 * 64 + d1;
  }

  /** Encoding undoes a successful decoding: the bytes are exactly those of the text. */
  lemma {:induction false} EncodeDecode(bs: seq<byte>)
    requires Decode(bs).Some?
    ensures Encode(Decode(bs).value) == bs
    decreases |bs|
  {
    if bs != [] {
      var c, n := DecodeFront(bs);
      var t := Decode(bs[n..]).value;
      EncodeDecode(bs[n..]);
      EncodeCons(c, t);
      assert bs == bs[..n] + bs[n..];
    }
  }

  /** A decodable non-empty bs is the bytes of its first character c followed by a decodable rest. */
  lemma DecodeFront(bs: seq<byte>) returns (c: char, n: nat)
    requires bs != [] && Decode(bs).Some?
    ensures 1 <= n <= |bs| && EncodeChar(c) == bs[..n]
    ensures Decode(bs[n..]).Some? && Decode(bs).value == [c] + Decode(bs[n..]).value
  {
    c, n := DecodeFirst(bs).value.0, DecodeFirst(bs).value.1;
    EncodeCharOfDecodeFirst(bs);
  }

  /** Encoding a text starting with c starts with c's bytes. */
  lemma EncodeCons(c: char, t: string)
    ensures Encode([c] + t) == EncodeChar(c) + Encode(t)
  {
    assert ([c] + t)[1..] == t;
  }

  /** On ASCII text, each character is the single byte of its code, so bytes and characters agree in number. */
  lemma {:induction false} EncodeAscii(s: string)
    requires forall k :: 0 <= k < |s| ==> s[k] as int < 0x80
    ensures |Encode(s)| == |s|
    ensures forall k :: 0 <= k < |s| ==> Encode(s)[k] as int == s[k] as int
  {
    if s != [] {
      EncodeAscii(s[1..]);
    }
  }
}
