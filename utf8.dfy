/**
 * The byte view of a Rust `String`: its UTF-8 encoding (`as_bytes`) and the
 * checked conversion back (`String::from_utf8`). The identity cipher stub
 * returns a `String`, and what reaches base64 and the master-key file are its
 * bytes.
 */
module Utf8 {
  import opened Basics

  /** True for a byte of the form 10xxxxxx. */
  predicate IsContinuation(b: byte) {
    0x80 <= b < 0xC0
  }

  /** The 1 to 4 bytes that encode one Unicode scalar value. */
  function EncodeChar(c: char): (bs: seq<byte>)
    ensures 1 <= |bs| <= 4
    ensures forall i :: 1 <= i < |bs| ==> IsContinuation(bs[i])
  {
    var n := c as int;
    if n < 0x80 then
      [n as byte]
    else if n < 0x800 then
      [(0xC0 + n / 64) as byte, (0x80 + n % 64) as byte]
    else if n < 0x1_0000 then
      [(0xE0 + n / 4096) as byte, (0x80 + n / 64 % 64) as byte, (0x80 + n % 64) as byte]
    else
      [(0xF0 + n / 0x4_0000) as byte, (0x80 + n / 4096 % 64) as byte,
       (0x80 + n / 64 % 64) as byte, (0x80 + n % 64) as byte]
  }

  /** The UTF-8 encoding of a string, character by character. */
  function Encode(s: string): (bs: seq<byte>)
    ensures |s| <= |bs| <= 4 * |s|
  {
    if s == [] then [] else EncodeChar(s[0]) + Encode(s[1..])
  }

  /** True when `n` is a Unicode scalar value, i.e. a valid `char`. */
  predicate IsScalar(n: int) {
    0 <= n < 0xD800 || 0xE000 <= n < 0x11_0000
  }

  /**
   * Decodes the first character of `bs`, returning it with the number of
   * bytes it took; rejects stray continuation bytes, truncated sequences,
   * overlong forms, surrogates and values above U+10FFFF.
   */
  function DecodeFirst(bs: seq<byte>): (r: Option<(char, nat)>)
    ensures r.Some? ==> 1 <= r.value.1 <= |bs|
  {
    if |bs| == 0 then None
    else
      var b0 := bs[0] as int;
      if b0 < 0x80 then
        Some((b0 as char, 1))
      else if 0xC2 <= b0 < 0xE0 then
        if |bs| < 2 || !IsContinuation(bs[1]) then None
        else Some((((b0 - 0xC0) * 64 + (bs[1] as int - 0x80)) as char, 2))
      else if 0xE0 <= b0 < 0xF0 then
        if |bs| < 3 || !IsContinuation(bs[1]) || !IsContinuation(bs[2]) then None
        else
          var n := (b0 - 0xE0) * 4096 + (bs[1] as int - 0x80) * 64 + (bs[2] as int - 0x80);
          if n < 0x800 || !IsScalar(n) then None else Some((n as char, 3))
      else if 0xF0 <= b0 < 0xF5 then
        if |bs| < 4 || !IsContinuation(bs[1]) || !IsContinuation(bs[2]) || !IsContinuation(bs[3]) then None
        else
          var n := (b0 - 0xF0) * 0x4_0000 + (bs[1] as int - 0x80) * 4096
                   + (bs[2] as int - 0x80) * 64 + (bs[3] as int - 0x80);
          if n < 0x1_0000 || !IsScalar(n) then None else Some((n as char, 4))
      else
        None
  }

  /** `String::from_utf8`: the string whose encoding `bs` is, if any. */
  function Decode(bs: seq<byte>): (r: Option<string>)
    decreases |bs|
  {
    if bs == [] then Some("")
    else match DecodeFirst(bs)
      case None => None
      case Some((c, w)) =>
        match Decode(bs[w..])
        case None => None
        case Some(s) => Some([c] + s)
  }

  /** Decoding the encoding of one character gives it back, whatever follows. */
  lemma DecodeFirstOfEncodeChar(c: char, rest: seq<byte>)
    ensures DecodeFirst(EncodeChar(c) + rest) == Some((c, |EncodeChar(c)|))
  {
    var n := c as int;
    if 0x80 <= n < 0x800 {
      DecodeTwoBytes(c, rest);
    } else if 0x800 <= n < 0x1_0000 {
      DecodeThreeBytes(c, rest);
    } else if 0x1_0000 <= n {
      DecodeFourBytes(c, rest);
    }
  }

  lemma DecodeTwoBytes(c: char, rest: seq<byte>)
    requires 0x80 <= c as int < 0x800
    ensures DecodeFirst(EncodeChar(c) + rest) == Some((c, 2))
  {
    var n := c as int;
    assert (n / 64) * 64 + n % 64 == n;
  }

  lemma DecodeThreeBytes(c: char, rest: seq<byte>)
    requires 0x800 <= c as int < 0x1_0000
    ensures DecodeFirst(EncodeChar(c) + rest) == Some((c, 3))
  {
    var n := c as int;
    assert (n / 4096) * 4096 + (n / 64 % 64) * 64 + n % 64 == n;
  }

  lemma DecodeFourBytes(c: char, rest: seq<byte>)
    requires 0x1_0000 <= c as int
    ensures DecodeFirst(EncodeChar(c) + rest) == Some((c, 4))
  {
    var n := c as int;
    assert (n / 0x4_0000) * 0x4_0000 + (n / 4096 % 64) * 4096 + (n / 64 % 64) * 64 + n % 64 == n;
  }

  /** Round trip: decoding the UTF-8 encoding of any string gives it back. */
  lemma {:induction false} DecodeEncode(s: string)
    ensures Decode(Encode(s)) == Some(s)
  {
    if s != [] {
      var head := EncodeChar(s[0]);
      var tail := Encode(s[1..]);
      DecodeFirstOfEncodeChar(s[0], tail);
      assert (head + tail)[|head|..] == tail;
      DecodeEncode(s[1..]);
      assert [s[0]] + s[1..] == s;
    }
  }
}
