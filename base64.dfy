/**
 * Base 64 encoding with the standard alphabet and `=` padding, section 4 of
 * RFC 4648: the `STANDARD` engine of the `base64` crate. Decoding is
 * canonical: the length must be a multiple of four, padding may appear only
 * at the end of the last quantum, and the bits a padded quantum leaves unused
 * must be zero.
 */
module Base64 {
  import opened Basics

  /** The character for a 6-bit value: A-Z, a-z, 0-9, `+`, `/`. */
  function Symbol(i: int): char
    requires 0 <= i < 64
  {
    if i < 26 then ('A' as int + i) as char
    else if i < 52 then ('a' as int + i - 26) as char
    else if i < 62 then ('0' as int + i - 52) as char
    else if i == 62 then '+'
    else '/'
  }

  /** The 6-bit value of an alphabet character; `=` and every other character have none. */
  function Value(c: char): (r: Option<int>)
    ensures r.Some? ==> 0 <= r.value < 64 && Symbol(r.value) == c
    ensures r.None? ==> forall i :: 0 <= i < 64 ==> Symbol(i) != c
  {
    if 'A' <= c <= 'Z' then Some(c as int - 'A' as int)
    else if 'a' <= c <= 'z' then Some(c as int - 'a' as int + 26)
    else if '0' <= c <= '9' then Some(c as int - '0' as int + 52)
    else if c == '+' then Some(62)
    else if c == '/' then Some(63)
    else None
  }

  const Pad: char := '='

  /** Three bytes as four characters. */
  function EncodeFull(b0: byte, b1: byte, b2: byte): string {
    var x, y, z := b0 as int, b1 as int, b2 as int;
    [Symbol(x / 4), Symbol(x % 4 * 16 + y / 16), Symbol(y % 16 * 4 + z / 64), Symbol(z % 64)]
  }

  /** The last two bytes as three characters and one pad. */
  function EncodePair(b0: byte, b1: byte): string {
    var x, y := b0 as int, b1 as int;
    [Symbol(x / 4), Symbol(x % 4 * 16 + y / 16), Symbol(y % 16 * 4), Pad]
  }

  /** The last byte as two characters and two pads. */
  function EncodeSingle(b0: byte): string {
    var x := b0 as int;
    [Symbol(x / 4), Symbol(x % 4 * 16), Pad, Pad]
  }

  /** `STANDARD.encode`. */
  function Encode(bs: seq<byte>): (s: string)
    ensures |s| == (|bs| + 2) / 3 * 4
    decreases |bs|
  {
    if |bs| == 0 then ""
    else if |bs| == 1 then EncodeSingle(bs[0])
    else if |bs| == 2 then EncodePair(bs[0], bs[1])
    else EncodeFull(bs[0], bs[1], bs[2]) + Encode(bs[3..])
  }

  /** Decodes one quantum of four characters; padding is accepted only when `last`. */
  function DecodeQuantum(q: string, last: bool): (r: Option<seq<byte>>)
    requires |q| == 4
    ensures r.Some? ==> 1 <= |r.value| <= 3 && (!last ==> |r.value| == 3)
  {
    var v0, v1, v2, v3 := Value(q[0]), Value(q[1]), Value(q[2]), Value(q[3]);
    if v0.None? || v1.None? then None
    else
      var a, b := v0.value, v1.value;
      if last && q[2] == Pad && q[3] == Pad then
        if b % 16 != 0 then None
        else Some([(a * 4 + b / 16) as byte])
      else if v2.None? then None
      else
        var c := v2.value;
        if last && q[3] == Pad then
          if c % 4 != 0 then None
          else Some([(a * 4 + b / 16) as byte, (b % 16 * 16 + c / 4) as byte])
        else if v3.None? then None
        else
          var d := v3.value;
          Some([(a * 4 + b / 16) as byte, (b % 16 * 16 + c / 4) as byte, (c % 4 * 64 + d) as byte])
  }

  /** `STANDARD.decode`: the bytes `s` encodes, or None when `s` is not canonical base 64. */
  function Decode(s: string): (r: Option<seq<byte>>)
    ensures r.Some? ==> |s| % 4 == 0 && (|r.value| + 2) / 3 * 4 == |s|
    decreases |s|
  {
    if |s| == 0 then Some([])
    else if |s| < 4 then None
    else
      match DecodeQuantum(s[..4], |s| == 4)
      case None => None
      case Some(head) =>
        match Decode(s[4..])
        case None => None
        case Some(tail) => Some(head + tail)
  }

  lemma ValueOfSymbol(i: int)
    requires 0 <= i < 64
    ensures Value(Symbol(i)) == Some(i)
  {
  }

  /** `m * k + r` with `0 <= r < k` splits back into `m` and `r`, for the three group sizes used here. */
  lemma DivMod(m: int, k: int, r: int)
    requires 0 <= m && (k == 4 || k == 16 || k == 64) && 0 <= r < k
    ensures (m * k + r) / k == m && (m * k + r) % k == r
  {
    if k == 4 {
      assert m * k + r == m * 4 + r;
    } else if k == 16 {
      assert m * k + r == m * 16 + r;
    } else {
      assert m * k + r == m * 64 + r;
    }
  }

  /** The bits of a byte pair regrouped as a 6-bit value come apart again. */
  lemma HighLow(x: int, y: int)
    requires 0 <= x < 256 && 0 <= y < 256
    ensures 0 <= x % 4 * 16 + y / 16 < 64
    ensures (x % 4 * 16 + y / 16) / 16 == x % 4
    ensures (x % 4 * 16 + y / 16) % 16 == y / 16
    ensures (x / 4) * 4 + x % 4 == x
  {
    DivMod(x % 4, 16, y / 16);
  }

  lemma MidLow(y: int, z: int)
    requires 0 <= y < 256 && 0 <= z < 256
    ensures 0 <= y % 16 * 4 + z / 64 < 64
    ensures (y % 16 * 4 + z / 64) / 4 == y % 16
    ensures (y % 16 * 4 + z / 64) % 4 == z / 64
    ensures (y / 16) * 16 + y % 16 == y
    ensures (z / 64) * 64 + z % 64 == z
  {
    DivMod(y % 16, 4, z / 64);
  }

  lemma DecodeFull(b0: byte, b1: byte, b2: byte)
    ensures DecodeQuantum(EncodeFull(b0, b1, b2), false) == Some([b0, b1, b2])
    ensures DecodeQuantum(EncodeFull(b0, b1, b2), true) == Some([b0, b1, b2])
  {
    var x, y, z := b0 as int, b1 as int, b2 as int;
    HighLow(x, y);
    MidLow(y, z);
    ValueOfSymbol(x / 4);
    ValueOfSymbol(x % 4 * 16 + y / 16);
    ValueOfSymbol(y % 16 * 4 + z / 64);
    ValueOfSymbol(z % 64);
  }

  lemma DecodePair(b0: byte, b1: byte)
    ensures DecodeQuantum(EncodePair(b0, b1), true) == Some([b0, b1])
  {
    var x, y := b0 as int, b1 as int;
    HighLow(x, y);
    MidLow(y, 0);
    ValueOfSymbol(x / 4);
    ValueOfSymbol(x % 4 * 16 + y / 16);
    ValueOfSymbol(y % 16 * 4);
  }

  lemma DecodeSingle(b0: byte)
    ensures DecodeQuantum(EncodeSingle(b0), true) == Some([b0])
  {
    var x := b0 as int;
    HighLow(x, 0);
    ValueOfSymbol(x / 4);
    ValueOfSymbol(x % 4 * 16);
  }

  /** Decoding a lone final quantum. */
  lemma DecodeLast(q: string)
    requires |q| == 4
    ensures Decode(q) == DecodeQuantum(q, true)
  {
    assert q[..4] == q && q[4..] == [];
    match DecodeQuantum(q, true)
    case None =>
    case Some(head) => assert head + [] == head;
  }

  /** Decoding a quantum that more quanta follow. */
  lemma DecodeCons(q: string, rest: string)
    requires |q| == 4 && |rest| > 0
    requires DecodeQuantum(q, false).Some? && Decode(rest).Some?
    ensures Decode(q + rest) == Some(DecodeQuantum(q, false).value + Decode(rest).value)
  {
    assert (q + rest)[..4] == q && (q + rest)[4..] == rest;
  }

  /** Round trip for a final single byte. */
  lemma DecodeEncodeOne(bs: seq<byte>)
    requires |bs| == 1
    ensures Decode(Encode(bs)) == Some(bs)
  {
    DecodeSingle(bs[0]);
    DecodeLast(EncodeSingle(bs[0]));
    assert [bs[0]] == bs;
  }

  /** Round trip for a final byte pair. */
  lemma DecodeEncodeTwo(bs: seq<byte>)
    requires |bs| == 2
    ensures Decode(Encode(bs)) == Some(bs)
  {
    DecodePair(bs[0], bs[1]);
    DecodeLast(EncodePair(bs[0], bs[1]));
    assert [bs[0], bs[1]] == bs;
  }

  /** Round trip for a final unpadded quantum. */
  lemma DecodeEncodeThree(bs: seq<byte>)
    requires |bs| == 3
    ensures Decode(Encode(bs)) == Some(bs)
  {
    var q := EncodeFull(bs[0], bs[1], bs[2]);
    DecodeFull(bs[0], bs[1], bs[2]);
    assert Encode(bs) == q + "" == q;
    DecodeLast(q);
    assert [bs[0], bs[1], bs[2]] == bs;
  }

  /** Round trip: decoding the encoding of any byte string gives it back. */
  lemma {:induction false} DecodeEncode(bs: seq<byte>)
    ensures Decode(Encode(bs)) == Some(bs)
    decreases |bs|
  {
    if |bs| == 1 {
      DecodeEncodeOne(bs);
    } else if |bs| == 2 {
      DecodeEncodeTwo(bs);
    } else if |bs| == 3 {
      DecodeEncodeThree(bs);
    } else if |bs| > 3 {
      DecodeEncode(bs[3..]);
      DecodeEncodeCons(bs);
    }
  }

  lemma SplitThree(bs: seq<byte>)
    requires |bs| >= 3
    ensures [bs[0], bs[1], bs[2]] + bs[3..] == bs
  {
  }

  lemma NonEmptyEncoding(bs: seq<byte>)
    requires |bs| > 0
    ensures |Encode(bs)| >= 4
  {
  }

  /** One full quantum in front of a tail whose round trip holds. */
  lemma DecodeEncodeCons(bs: seq<byte>)
    requires |bs| > 3 && Decode(Encode(bs[3..])) == Some(bs[3..])
    ensures Decode(Encode(bs)) == Some(bs)
  {
    var q, rest := EncodeFull(bs[0], bs[1], bs[2]), Encode(bs[3..]);
    assert Encode(bs) == q + rest;
    assert |rest| >= 4 by {
      NonEmptyEncoding(bs[3..]);
    }
    DecodeFull(bs[0], bs[1], bs[2]);
    DecodeCons(q, rest);
    SplitThree(bs);
  }

  /** Decoding is canonical: whatever decodes is exactly the encoding of its result. */
  lemma {:induction false} EncodeDecode(s: string)
    requires Decode(s).Some?
    ensures Encode(Decode(s).value) == s
    decreases |s|
  {
    if |s| >= 4 {
      var head := DecodeQuantum(s[..4], |s| == 4).value;
      EncodeQuantum(s[..4], |s| == 4);
      if |s| > 4 {
        EncodeDecode(s[4..]);
        var tail := Decode(s[4..]).value;
        assert |head| == 3;
        assert (head + tail)[3..] == tail;
      } else {
        assert Decode(s[4..]) == Some([]);
        assert head + [] == head;
      }
      assert s[..4] + s[4..] == s;
    }
  }

  /** One decoded quantum re-encodes to the characters it came from. */
  lemma EncodeQuantum(q: string, last: bool)
    requires |q| == 4 && DecodeQuantum(q, last).Some?
    ensures var bs := DecodeQuantum(q, last).value;
      if |bs| == 1 then EncodeSingle(bs[0]) == q
      else if |bs| == 2 then EncodePair(bs[0], bs[1]) == q
      else EncodeFull(bs[0], bs[1], bs[2]) == q
  {
    var bs := DecodeQuantum(q, last).value;
    if |bs| == 1 {
      EncodeQuantumOne(q, last);
    } else if |bs| == 2 {
      EncodeQuantumTwo(q, last);
    } else {
      EncodeQuantumThree(q, last);
    }
  }

  lemma EncodeQuantumOne(q: string, last: bool)
    requires |q| == 4 && DecodeQuantum(q, last).Some? && |DecodeQuantum(q, last).value| == 1
    ensures EncodeSingle(DecodeQuantum(q, last).value[0]) == q
  {
    var a, b := Value(q[0]).value, Value(q[1]).value;
    DivMod(a, 4, b / 16);
    assert b == b / 16 * 16;
  }

  lemma EncodeQuantumTwo(q: string, last: bool)
    requires |q| == 4 && DecodeQuantum(q, last).Some? && |DecodeQuantum(q, last).value| == 2
    ensures var bs := DecodeQuantum(q, last).value; EncodePair(bs[0], bs[1]) == q
  {
    var a, b, c := Value(q[0]).value, Value(q[1]).value, Value(q[2]).value;
    var x := a * 4 + b / 16;
    var y := b % 16 * 16 + c / 4;
    DivMod(a, 4, b / 16);
    DivMod(b % 16, 16, c / 4);
    assert x % 4 * 16 + y / 16 == b;
    assert c == c / 4 * 4;
    var bs := DecodeQuantum(q, last).value;
    assert bs[0] as int == x && bs[1] as int == y;
    assert q[3] == Pad;
    assert EncodePair(bs[0], bs[1]) == [Symbol(a), Symbol(b), Symbol(y % 16 * 4), Pad];
  }

  lemma EncodeQuantumThree(q: string, last: bool)
    requires |q| == 4 && DecodeQuantum(q, last).Some? && |DecodeQuantum(q, last).value| == 3
    ensures var bs := DecodeQuantum(q, last).value; EncodeFull(bs[0], bs[1], bs[2]) == q
  {
    var a, b, c, d := Value(q[0]).value, Value(q[1]).value, Value(q[2]).value, Value(q[3]).value;
    var x := a * 4 + b / 16;
    var y := b % 16 * 16 + c / 4;
    var z := c % 4 * 64 + d;
    DivMod(a, 4, b / 16);
    DivMod(b % 16, 16, c / 4);
    DivMod(c % 4, 64, d);
    assert x % 4 * 16 + y / 16 == b;
    assert y % 16 * 4 + z / 64 == c;
    var bs := DecodeQuantum(q, last).value;
    assert bs[0] as int == x && bs[1] as int == y && bs[2] as int == z;
    assert EncodeFull(bs[0], bs[1], bs[2]) == [Symbol(a), Symbol(b), Symbol(c), Symbol(d)];
  }
}
