/**
 * UTF-8 (RFC 3629), as used by `Buffer.from(text, 'utf8')` on a string of
 * Unicode scalar values, with a strict decoder as its inverse.
 */
module Utf8 {
  import opened Wrappers

  /** The bytes of one scalar value: one to four, shortest form. */
  function EncodeChar(c: char): (r: seq<uint8>)
    ensures 1 <= |r| <= 4
    ensures (|r| == 1) == (c as int < 0x80)
    ensures r[0] < 0x80 || 0xC0 <= r[0] < 0xF8
    ensures forall i :: 1 <= i < |r| ==> 0x80 <= r[i] < 0xC0
  {
    var v := c as int;
    if v < 0x80 then [v]
    else if v < 0x800 then [0xC0 + v / 64, 0x80 + v % 64]
    else if v < 0x10000 then [0xE0 + v / 4096, 0x80 + (v / 64) % 64, 0x80 + v % 64]
    else [0xF0 + v / 262144, 0x80 + (v / 4096) % 64, 0x80 + (v / 64) % 64, 0x80 + v % 64]
  }

  /** The UTF-8 encoding of a string: its characters' encodings, concatenated. */
  function Encode(s: string): (r: seq<uint8>)
    ensures |s| <= |r| <= 4 * |s|
    ensures (forall i :: 0 <= i < |s| ==> s[i] as int < 0x80) ==> |r| == |s|
  {
    if s == [] then [] else EncodeChar(s[0]) + Encode(s[1..])
  }

  predicate IsContinuation(b: uint8)
  {
    0x80 <= b < 0xC0
  }

  /** The scalar value `v` as a character, unless it is overlong (below `min`), a surrogate or out of range. */
  function ToChar(v: int, min: nat): Option<char>
  {
    if v < min || v > 0x10FFFF || (0xD800 <= v < 0xE000) then None else Some(v as char)
  }

  /** The byte at `i` as an integer, or 0 past the end. */
  function Byte(b: seq<uint8>, i: nat): int
  {
    if i < |b| then b[i] as int else 0
  }

  /** Decodes the first character of `b`, giving it and the number of bytes it took. */
  function DecodeChar(b: seq<uint8>): (r: Option<(char, nat)>)
    requires b != []
    ensures r.Some? ==> 1 <= r.value.1 <= |b|
  {
    var b0, b1, b2, b3 := b[0] as int, Byte(b, 1), Byte(b, 2), Byte(b, 3);
    if b0 < 0x80 then Some((b0 as char, 1))
    else if 0xC0 <= b0 < 0xE0 && |b| >= 2 && IsContinuation(b[1]) then
      match ToChar((b0 - 0xC0) * 64 + (b1 - 0x80), 0x80)
      case Some(c) => Some((c, 2))
      case None => None
    else if 0xE0 <= b0 < 0xF0 && |b| >= 3 && IsContinuation(b[1]) && IsContinuation(b[2]) then
      match ToChar((b0 - 0xE0) * 4096 + (b1 - 0x80) * 64 + (b2 - 0x80), 0x800)
      case Some(c) => Some((c, 3))
      case None => None
    else if 0xF0 <= b0 < 0xF8 && |b| >= 4 && IsContinuation(b[1]) && IsContinuation(b[2]) && IsContinuation(b[3]) then
      match ToChar((b0 - 0xF0) * 262144 + (b1 - 0x80) * 4096 + (b2 - 0x80) * 64 + (b3 - 0x80), 0x10000)
      case Some(c) => Some((c, 4))
      case None => None
    else None
  }

  /** Strict UTF-8 decoding: None on any ill-formed sequence. */
  function Decode(b: seq<uint8>): Option<string>
    decreases |b|
  {
    if b == [] then Some([])
    else match DecodeChar(b)
      case None => None
      case Some((c, n)) =>
        match Decode(b[n..])
        case None => None
        case Some(s) => Some([c] + s)
  }

  lemma DecodeEncodeTwoBytes(v: int)
    requires 0x80 <= v < 0x800
    ensures (0xC0 + v / 64 - 0xC0) * 64 + (0x80 + v % 64 - 0x80) == v
    ensures 0xC0 <= 0xC0 + v / 64 < 0xE0
  {
  }

  lemma DecodeEncodeThreeBytes(v: int)
    requires 0x800 <= v < 0x10000
    ensures (0xE0 + v / 4096 - 0xE0) * 4096 + (0x80 + (v / 64) % 64 - 0x80) * 64 + (0x80 + v % 64 - 0x80) == v
    ensures 0xE0 <= 0xE0 + v / 4096 < 0xF0
  {
    var q := v / 64;
    assert q * 64 + v % 64 == v;
    assert (q / 64) * 64 + q % 64 == q;
    assert v / 4096 == q / 64;
  }

  lemma DecodeEncodeFourBytes(v: int)
    requires 0x10000 <= v < 0x110000
    ensures (0xF0 + v / 262144 - 0xF0) * 262144 + (0x80 + (v / 4096) % 64 - 0x80) * 4096
            + (0x80 + (v / 64) % 64 - 0x80) * 64 + (0x80 + v % 64 - 0x80) == v
    ensures 0xF0 <= 0xF0 + v / 262144 < 0xF8
  {
    var q := v / 64;
    var w := q / 64;
    assert q * 64 + v % 64 == v;
    assert w * 64 + q % 64 == q;
    assert (w / 64) * 64 + w % 64 == w;
    assert v / 4096 == w;
    assert v / 262144 == w / 64;
  }

  lemma DecodeEncodeChar(c: char, rest: seq<uint8>)
    ensures DecodeChar(EncodeChar(c) + rest) == Some((c, |EncodeChar(c)|))
  {
    var v := c as int;
    var e := EncodeChar(c);
    var b := e + rest;
    assert forall i :: 0 <= i < |e| ==> b[i] == e[i];
    if v < 0x80 {
    } else if v < 0x800 {
      DecodeEncodeTwoBytes(v);
    } else if v < 0x10000 {
      DecodeEncodeThreeBytes(v);
    } else {
      DecodeEncodeFourBytes(v);
    }
  }

  /** Decoding undoes encoding: the text a server returned is recovered exactly from its bytes. */
  lemma {:induction false} DecodeEncode(s: string)
    ensures Decode(Encode(s)) == Some(s)
  {
    if s != [] {
      var e := EncodeChar(s[0]);
      DecodeEncodeChar(s[0], Encode(s[1..]));
      assert (e + Encode(s[1..]))[|e|..] == Encode(s[1..]);
      DecodeEncode(s[1..]);
      assert [s[0]] + s[1..] == s;
    }
  }
}
