/** UTF-8 (RFC 3629), the encoding `str.encode()` applies before Base64.
    A Dafny `char` is a Unicode scalar value, so encoding never fails. */
module Utf8 {
  import opened Wrappers
  import opened Bytes
  import opened Arith

  /** The one to four bytes of a scalar value: the high bits in the lead
      byte, then six bits per continuation byte. */
  function EncodeChar(c: char): (bs: seq<Byte>)
    ensures 1 <= |bs| <= 4
  {
    var n := c as int;
    if n < 0x80 then [n]
    else if n < 0x800 then [0xC0 + n / 64, 0x80 + n % 64]
    else if n < 0x10000 then
      var r := n % 4096;
      [0xE0 + n / 4096, 0x80 + r / 64, 0x80 + r % 64]
    else
      var r1 := n % 262144;
      var r2 := r1 % 4096;
      [0xF0 + n / 262144, 0x80 + r1 / 4096, 0x80 + r2 / 64, 0x80 + r2 % 64]
  }

  function Encode(s: string): (bs: seq<Byte>)
    ensures |s| <= |bs| <= 4 * |s|
  {
    if |s| == 0 then [] else EncodeChar(s[0]) + Encode(s[1..])
  }

  predicate IsContinuation(b: Byte)
  {
    0x80 <= b < 0xC0
  }

  /** The scalar value at the front of `bs` and the number of bytes it
      occupies; `None` for a malformed, overlong, surrogate or out-of-range
      sequence. */
  function DecodeChar(bs: seq<Byte>): (r: Option<(char, nat)>)
    requires |bs| > 0
    ensures r.Some? ==> 1 <= r.value.1 <= |bs|
  {
    var b0: int := bs[0];
    if b0 < 0x80 then Some((b0 as char, 1))
    else if 0xC2 <= b0 < 0xE0 then
      if |bs| >= 2 && IsContinuation(bs[1]) then
        Some((Combine2(b0, bs[1]) as char, 2))
      else None
    else if 0xE0 <= b0 < 0xF0 then
      if |bs| >= 3 && IsContinuation(bs[1]) && IsContinuation(bs[2]) then
        var n := Combine3(b0, bs[1], bs[2]);
        if 0x800 <= n && !(0xD800 <= n < 0xE000) then Some((n as char, 3)) else None
      else None
    else if 0xF0 <= b0 < 0xF5 then
      if |bs| >= 4 && IsContinuation(bs[1]) && IsContinuation(bs[2]) && IsContinuation(bs[3]) then
        var n := Combine4(b0, bs[1], bs[2], bs[3]);
        if 0x10000 <= n < 0x110000 then Some((n as char, 4)) else None
      else None
    else None
  }

  /** The scalar value carried by a two-, three- or four-byte sequence: the
      payload bits of the lead byte followed by six bits per continuation byte. */
  function Combine2(b0: int, b1: int): int
    requires 0xC2 <= b0 < 0xE0 && 0x80 <= b1 < 0xC0
  {
    (b0 - 0xC0) * 64 + (b1 - 0x80)
  }

  function Combine3(b0: int, b1: int, b2: int): int
  {
    (b0 - 0xE0) * 4096 + (b1 - 0x80) * 64 + (b2 - 0x80)
  }

  function Combine4(b0: int, b1: int, b2: int, b3: int): int
  {
    (b0 - 0xF0) * 262144 + (b1 - 0x80) * 4096 + (b2 - 0x80) * 64 + (b3 - 0x80)
  }

  /** `bytes.decode()`: `None` when the bytes are not well-formed UTF-8. */
  function Decode(bs: seq<Byte>): Option<string>
    decreases |bs|
  {
    if |bs| == 0 then Some("")
    else
      match DecodeChar(bs)
      case None => None
      case Some((c, n)) =>
        match Decode(bs[n..])
        case None => None
        case Some(rest) => Some([c] + rest)
  }

  /** Each scalar value's bytes decode back to it, whatever follows. */
  lemma DecodeEncodeChar(c: char, rest: seq<Byte>)
    ensures DecodeChar(EncodeChar(c) + rest) == Some((c, |EncodeChar(c)|))
  {
    var n := c as int;
    var bs := EncodeChar(c) + rest;
    if n < 0x80 {
    } else if n < 0x800 {
      assert Combine2(bs[0], bs[1]) == n;
    } else if n < 0x10000 {
      assert Combine3(bs[0], bs[1], bs[2]) == n;
    } else {
      assert Combine4(bs[0], bs[1], bs[2], bs[3]) == n;
    }
  }

  /** Decoding inverts encoding. */
  lemma {:induction false} DecodeEncode(s: string)
    ensures Decode(Encode(s)) == Some(s)
  {
    if |s| > 0 {
      var head := EncodeChar(s[0]);
      var tail := Encode(s[1..]);
      EncodeFront(s);
      DecodeEncodeChar(s[0], tail);
      DecodeEncode(s[1..]);
      DecodeJoin(head + tail, |head|, s[0], s[1..]);
      assert (head + tail)[|head|..] == tail;
      assert [s[0]] + s[1..] == s;
    }
  }

  /** A decoded first character and a decoded rest make the decoded whole. */
  lemma DecodeJoin(bs: seq<Byte>, n: nat, c: char, rest: string)
    requires |bs| > 0 && DecodeChar(bs) == Some((c, n)) && Decode(bs[n..]) == Some(rest)
    ensures Decode(bs) == Some([c] + rest)
  {
  }

  /** Decoding accepts only the bytes the encoder produces: a decoded
      character re-encodes to exactly the bytes it was read from. */
  lemma EncodeDecodeChar(bs: seq<Byte>)
    requires |bs| > 0 && DecodeChar(bs).Some?
    ensures EncodeChar(DecodeChar(bs).value.0) == bs[..DecodeChar(bs).value.1]
  {
    var b0: int := bs[0];
    if b0 < 0x80 {
      assert bs[..1] == [bs[0]];
    } else if b0 < 0xE0 {
      EncodeDecodeTwo(bs);
    } else if b0 < 0xF0 {
      EncodeDecodeThree(bs);
    } else {
      EncodeDecodeFour(bs);
    }
  }

  lemma EncodeDecodeTwo(bs: seq<Byte>)
    requires |bs| > 0 && 0x80 <= bs[0] < 0xE0 && DecodeChar(bs).Some?
    ensures EncodeChar(DecodeChar(bs).value.0) == bs[..DecodeChar(bs).value.1]
  {
    var n := Combine2(bs[0], bs[1]);
    DivMod(bs[0] as int - 0xC0, bs[1] as int - 0x80, 64);
    assert EncodeChar(n as char) == [bs[0], bs[1]];
    assert bs[..2] == [bs[0], bs[1]];
  }

  lemma EncodeDecodeThree(bs: seq<Byte>)
    requires |bs| > 0 && 0xE0 <= bs[0] < 0xF0 && DecodeChar(bs).Some?
    ensures EncodeChar(DecodeChar(bs).value.0) == bs[..DecodeChar(bs).value.1]
  {
    var low := (bs[1] as int - 0x80) * 64 + (bs[2] as int - 0x80);
    var n := Combine3(bs[0], bs[1], bs[2]);
    DivMod(bs[0] as int - 0xE0, low, 4096);
    DivMod(bs[1] as int - 0x80, bs[2] as int - 0x80, 64);
    assert EncodeChar(n as char) == [bs[0], bs[1], bs[2]];
    assert bs[..3] == [bs[0], bs[1], bs[2]];
  }

  lemma EncodeDecodeFour(bs: seq<Byte>)
    requires |bs| > 0 && 0xF0 <= bs[0] && DecodeChar(bs).Some?
    ensures EncodeChar(DecodeChar(bs).value.0) == bs[..DecodeChar(bs).value.1]
  {
    var low2 := (bs[2] as int - 0x80) * 64 + (bs[3] as int - 0x80);
    var low1 := (bs[1] as int - 0x80) * 4096 + low2;
    var n := Combine4(bs[0], bs[1], bs[2], bs[3]);
    DivMod(bs[0] as int - 0xF0, low1, 262144);
    DivMod(bs[1] as int - 0x80, low2, 4096);
    DivMod(bs[2] as int - 0x80, bs[3] as int - 0x80, 64);
    assert EncodeChar(n as char) == [bs[0], bs[1], bs[2], bs[3]];
    assert bs[..4] == [bs[0], bs[1], bs[2], bs[3]];
  }

  /** Encoding inverts decoding on every byte string decoding accepts. */
  lemma {:induction false} EncodeDecode(bs: seq<Byte>)
    requires Decode(bs).Some?
    ensures Encode(Decode(bs).value) == bs
    decreases |bs|
  {
    if |bs| > 0 {
      var n := DecodeFront(bs);
      var c := DecodeChar(bs).value.0;
      EncodeDecodeChar(bs);
      EncodeDecode(bs[n..]);
      Reassemble(bs, n, c, Decode(bs[n..]).value);
    }
  }

  /** A character whose bytes start `bs`, followed by text whose bytes are
      the rest of `bs`, encodes to `bs`. */
  lemma Reassemble(bs: seq<Byte>, n: nat, c: char, rest: string)
    requires n <= |bs| && EncodeChar(c) == bs[..n] && Encode(rest) == bs[n..]
    ensures Encode([c] + rest) == bs
  {
    var s := [c] + rest;
    assert s[0] == c && s[1..] == rest;
    EncodeFront(s);
    assert bs == bs[..n] + bs[n..];
  }

  /** A non-empty accepted byte string is its first character followed by
      an accepted rest. */
  lemma DecodeFront(bs: seq<Byte>) returns (n: nat)
    requires |bs| > 0 && Decode(bs).Some?
    ensures DecodeChar(bs).Some? && n == DecodeChar(bs).value.1 && 1 <= n <= |bs|
    ensures Decode(bs[n..]).Some?
    ensures Decode(bs).value == [DecodeChar(bs).value.0] + Decode(bs[n..]).value
  {
    n := DecodeChar(bs).value.1;
  }

  lemma EncodeFront(s: string)
    requires |s| > 0
    ensures Encode(s) == EncodeChar(s[0]) + Encode(s[1..])
  {
  }
}
