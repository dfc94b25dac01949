/** The base 64 encoding of section 4 of RFC 4648 (`base64.b64encode`):
    three bytes become four characters of the alphabet `A`-`Z`, `a`-`z`,
    `0`-`9`, `+`, `/`, and a final group of one or two bytes is padded
    with `=`. */
module Base64 {
  import opened Wrappers
  import opened Bytes
  import opened Arith

  /** A six-bit group. */
  type Sextet = x: int | 0 <= x < 64

  /** The alphabet of RFC 4648, section 4, Table 1. */
  function Symbol(i: Sextet): (c: char)
    ensures c != '='
    ensures SymbolIndex(c) == Some(i)
  {
    if i < 26 then ('A' as int + i) as char
    else if i < 52 then ('a' as int + i - 26) as char
    else if i < 62 then ('0' as int + i - 52) as char
    else if i == 62 then '+'
    else '/'
  }

  /** The position of `c` in the alphabet, if it is in it. */
  function SymbolIndex(c: char): Option<Sextet>
  {
    if 'A' <= c <= 'Z' then Some(c as int - 'A' as int)
    else if 'a' <= c <= 'z' then Some(c as int - 'a' as int + 26)
    else if '0' <= c <= '9' then Some(c as int - '0' as int + 52)
    else if c == '+' then Some(62)
    else if c == '/' then Some(63)
    else None
  }

  /** Every alphabet position names the character it was read from. */
  lemma SymbolOfIndex(c: char)
    requires SymbolIndex(c).Some?
    ensures Symbol(SymbolIndex(c).value) == c
  {
  }

  /** Three bytes, 24 bits, as four sextets. */
  function EncodeGroup(b0: Byte, b1: Byte, b2: Byte): string
  {
    [Symbol(b0 / 4), Symbol((b0 % 4) * 16 + b1 / 16), Symbol((b1 % 16) * 4 + b2 / 64), Symbol(b2 % 64)]
  }

  function Encode(bs: seq<Byte>): string
    decreases |bs|
  {
    if |bs| == 0 then ""
    else if |bs| == 1 then [Symbol(bs[0] / 4), Symbol((bs[0] % 4) * 16), '=', '=']
    else if |bs| == 2 then [Symbol(bs[0] / 4), Symbol((bs[0] % 4) * 16 + bs[1] / 16), Symbol((bs[1] % 16) * 4), '=']
    else EncodeGroup(bs[0], bs[1], bs[2]) + Encode(bs[3..])
  }

  /** Every started group of three bytes becomes four characters. */
  lemma {:induction false} EncodeLength(bs: seq<Byte>)
    ensures |Encode(bs)| == 4 * ((|bs| + 2) / 3)
    decreases |bs|
  {
    if |bs| >= 3 {
      EncodeLength(bs[3..]);
      assert (|bs| + 2) / 3 == (|bs[3..]| + 2) / 3 + 1;
    }
  }

  /** The three bytes packed in four sextets: 6 + 2, 4 + 4 and 2 + 6 bits. */
  function Byte0(i0: Sextet, i1: Sextet): Byte
  {
    i0 as int * 4 + i1 as int / 16
  }

  function Byte1(i1: Sextet, i2: Sextet): Byte
  {
    (i1 as int % 16) * 16 + i2 as int / 4
  }

  function Byte2(i2: Sextet, i3: Sextet): Byte
  {
    (i2 as int % 4) * 64 + i3 as int
  }

  /** A full quantum of four alphabet characters. */
  function DecodeGroup(q: string): Option<seq<Byte>>
    requires |q| == 4
  {
    var i0, i1, i2, i3 := SymbolIndex(q[0]), SymbolIndex(q[1]), SymbolIndex(q[2]), SymbolIndex(q[3]);
    if i0.Some? && i1.Some? && i2.Some? && i3.Some? then
      Some([Byte0(i0.value, i1.value), Byte1(i1.value, i2.value), Byte2(i2.value, i3.value)])
    else None
  }

  /** The last quantum, which may end in one or two `=`; the bits the padding
      leaves over must be zero, as the encoder writes them. */
  function DecodeFinal(q: string): Option<seq<Byte>>
    requires |q| == 4
  {
    var i0, i1, i2 := SymbolIndex(q[0]), SymbolIndex(q[1]), SymbolIndex(q[2]);
    if q[2] == '=' && q[3] == '=' then
      if i0.Some? && i1.Some? && i1.value % 16 == 0 then Some([Byte0(i0.value, i1.value)])
      else None
    else if q[3] == '=' then
      if i0.Some? && i1.Some? && i2.Some? && i2.value % 4 == 0 then
        Some([Byte0(i0.value, i1.value), Byte1(i1.value, i2.value)])
      else None
    else
      DecodeGroup(q)
  }

  /** Strict decoding: `None` unless `s` is exactly what `Encode` writes for
      some byte string. */
  function Decode(s: string): Option<seq<Byte>>
    decreases |s|
  {
    if |s| % 4 != 0 then None
    else if |s| == 0 then Some([])
    else if |s| == 4 then DecodeFinal(s)
    else
      var head := DecodeGroup(s[..4]);
      var tail := Decode(s[4..]);
      if head.Some? && tail.Some? then Some(head.value + tail.value) else None
  }

  /** Splitting bytes into sextets and packing them again is the identity. */
  lemma Unpack(b0: Byte, b1: Byte, b2: Byte)
    ensures Byte0(b0 / 4, (b0 % 4) * 16 + b1 / 16) == b0
    ensures Byte1((b0 % 4) * 16 + b1 / 16, (b1 % 16) * 4 + b2 / 64) == b1
    ensures Byte2((b1 % 16) * 4 + b2 / 64, b2 % 64) == b2
  {
    DivMod(b0 % 4, b1 / 16, 16);
    DivMod(b1 % 16, b2 / 64, 4);
  }

  /** Packing sextets into bytes and splitting them again is the identity. */
  lemma Repack(i0: Sextet, i1: Sextet, i2: Sextet, i3: Sextet)
    ensures Byte0(i0, i1) / 4 == i0
    ensures (Byte0(i0, i1) % 4) * 16 + Byte1(i1, i2) / 16 == i1
    ensures (Byte1(i1, i2) % 16) * 4 + Byte2(i2, i3) / 64 == i2
    ensures Byte2(i2, i3) % 64 == i3
  {
    DivMod(i0, i1 / 16, 4);
    DivMod(i1 % 16, i2 / 4, 16);
    DivMod(i2 % 4, i3, 64);
  }

  lemma DecodeEncodeGroup(b0: Byte, b1: Byte, b2: Byte)
    ensures DecodeGroup(EncodeGroup(b0, b1, b2)) == Some([b0, b1, b2])
    ensures DecodeFinal(EncodeGroup(b0, b1, b2)) == Some([b0, b1, b2])
  {
    var i0: Sextet, i1: Sextet, i2: Sextet, i3: Sextet := b0 / 4, (b0 % 4) * 16 + b1 / 16, (b1 % 16) * 4 + b2 / 64, b2 % 64;
    var q := EncodeGroup(b0, b1, b2);
    assert q == [Symbol(i0), Symbol(i1), Symbol(i2), Symbol(i3)];
    DecodeSymbols(q, i0, i1, i2, i3);
    Unpack(b0, b1, b2);
  }

  /** Four alphabet symbols decode to the bytes their sextets pack. */
  lemma DecodeSymbols(q: string, i0: Sextet, i1: Sextet, i2: Sextet, i3: Sextet)
    requires q == [Symbol(i0), Symbol(i1), Symbol(i2), Symbol(i3)]
    ensures DecodeGroup(q) == Some([Byte0(i0, i1), Byte1(i1, i2), Byte2(i2, i3)])
    ensures DecodeFinal(q) == DecodeGroup(q)
  {
  }

  /** Decoding inverts encoding. */
  lemma {:induction false} DecodeEncode(bs: seq<Byte>)
    ensures Decode(Encode(bs)) == Some(bs)
    decreases |bs|
  {
    if |bs| == 1 {
      DecodeEncodeOne(bs[0]);
      assert bs == [bs[0]];
    } else if |bs| == 2 {
      DecodeEncodeTwo(bs[0], bs[1]);
      assert bs == [bs[0], bs[1]];
    } else if |bs| >= 3 {
      DecodeEncode(bs[3..]);
      DecodeEncodeLonger(bs);
    }
  }

  /** The step of `DecodeEncode` past the first three bytes. */
  lemma DecodeEncodeLonger(bs: seq<Byte>)
    requires |bs| >= 3
    requires Decode(Encode(bs[3..])) == Some(bs[3..])
    ensures Decode(Encode(bs)) == Some(bs)
  {
    EncodeUnfolds(bs);
    DecodeEncodeGroup(bs[0], bs[1], bs[2]);
    if |bs| == 3 {
      DecodeLastGroup(EncodeGroup(bs[0], bs[1], bs[2]), bs);
    } else {
      DecodeGroupThenMore(bs);
    }
  }

  lemma DecodeGroupThenMore(bs: seq<Byte>)
    requires |bs| > 3
    requires Decode(Encode(bs[3..])) == Some(bs[3..])
    requires DecodeGroup(EncodeGroup(bs[0], bs[1], bs[2])) == Some([bs[0], bs[1], bs[2]])
    ensures Decode(EncodeGroup(bs[0], bs[1], bs[2]) + Encode(bs[3..])) == Some(bs)
  {
    var head, rest := [bs[0], bs[1], bs[2]], bs[3..];
    SplitThree(bs);
    EncodeNonEmpty(rest);
    DecodeAppendGroup(EncodeGroup(bs[0], bs[1], bs[2]), Encode(rest), head, rest);
  }

  lemma SplitThree(bs: seq<Byte>)
    requires |bs| >= 3
    ensures [bs[0], bs[1], bs[2]] + bs[3..] == bs
  {
  }

  lemma EncodeNonEmpty(bs: seq<Byte>)
    requires |bs| >= 1
    ensures |Encode(bs)| >= 4
  {
  }

  lemma EncodeUnfolds(bs: seq<Byte>)
    requires |bs| >= 3
    ensures Encode(bs) == EncodeGroup(bs[0], bs[1], bs[2]) + Encode(bs[3..])
  {
  }

  lemma DecodeLastGroup(group: string, bs: seq<Byte>)
    requires |group| == 4 && |bs| == 3
    requires DecodeFinal(group) == Some([bs[0], bs[1], bs[2]])
    ensures Decode(group + Encode(bs[3..])) == Some(bs)
  {
    assert Encode(bs[3..]) == "";
    assert group + "" == group;
    assert [bs[0], bs[1], bs[2]] == bs;
  }

  /** A full quantum in front of a non-empty valid text decodes to its three
      bytes in front of that text's bytes. */
  lemma DecodeAppendGroup(group: string, t: string, head: seq<Byte>, tail: seq<Byte>)
    requires |group| == 4 && DecodeGroup(group) == Some(head)
    requires |t| >= 4 && Decode(t) == Some(tail)
    ensures Decode(group + t) == Some(head + tail)
  {
    DecodedLength(t);
    AddFour(|t|);
    var s := group + t;
    assert |s| == |t| + 4;
    assert s[..4] == group && s[4..] == t;
    DecodeCons(s, head, tail);
  }

  lemma DecodedLength(t: string)
    requires Decode(t).Some?
    ensures |t| % 4 == 0
  {
  }

  lemma DecodeCons(s: string, head: seq<Byte>, tail: seq<Byte>)
    requires |s| > 4 && |s| % 4 == 0
    requires DecodeGroup(s[..4]) == Some(head)
    requires Decode(s[4..]) == Some(tail)
    ensures Decode(s) == Some(head + tail)
  {
  }

  /** A lone final byte: two symbols and `==`. */
  lemma DecodeEncodeOne(b0: Byte)
    ensures Decode(Encode([b0])) == Some([b0])
  {
    var q := Encode([b0]);
    assert q[2] == '=' && q[3] == '=';
    Unpack(b0, 0, 0);
  }

  /** Two final bytes: three symbols and `=`. */
  lemma DecodeEncodeTwo(b0: Byte, b1: Byte)
    ensures Decode(Encode([b0, b1])) == Some([b0, b1])
  {
    var i0, i1, i2 := b0 / 4, (b0 % 4) * 16 + b1 / 16, (b1 % 16) * 4;
    var q := Encode([b0, b1]);
    assert q == [Symbol(i0), Symbol(i1), Symbol(i2), '='];
    Unpack(b0, b1, 0);
    DivMod(b1 % 16, 0, 4);
    assert DecodeFinal(q) == Some([Byte0(i0, i1), Byte1(i1, i2)]);
  }

  lemma EncodeDecodeGroup(q: string)
    requires |q| == 4 && DecodeGroup(q).Some?
    ensures var bs := DecodeGroup(q).value; |bs| == 3 && EncodeGroup(bs[0], bs[1], bs[2]) == q
  {
    SymbolOfIndex(q[0]);
    SymbolOfIndex(q[1]);
    SymbolOfIndex(q[2]);
    SymbolOfIndex(q[3]);
    Repack(SymbolIndex(q[0]).value, SymbolIndex(q[1]).value, SymbolIndex(q[2]).value, SymbolIndex(q[3]).value);
  }

  lemma EncodeDecodeFinal(q: string)
    requires |q| == 4 && DecodeFinal(q).Some?
    ensures Encode(DecodeFinal(q).value) == q
  {
    SymbolOfIndex(q[0]);
    SymbolOfIndex(q[1]);
    if q[2] == '=' && q[3] == '=' {
      Repack(SymbolIndex(q[0]).value, SymbolIndex(q[1]).value, 0, 0);
    } else if q[3] == '=' {
      SymbolOfIndex(q[2]);
      Repack(SymbolIndex(q[0]).value, SymbolIndex(q[1]).value, SymbolIndex(q[2]).value, 0);
    } else {
      EncodeDecodeGroup(q);
      var bs := DecodeGroup(q).value;
      assert Encode(bs) == EncodeGroup(bs[0], bs[1], bs[2]) + Encode(bs[3..]);
    }
  }

  lemma EncodeGroupThen(head: seq<Byte>, tail: seq<Byte>, q: string, rest: string)
    requires |head| == 3 && EncodeGroup(head[0], head[1], head[2]) == q
    requires Encode(tail) == rest
    ensures Encode(head + tail) == q + rest
  {
    var bs := head + tail;
    assert bs[3..] == tail;
    assert bs[0] == head[0] && bs[1] == head[1] && bs[2] == head[2];
  }

  /** Encoding inverts decoding: the decoder accepts only canonical text. */
  lemma {:induction false} EncodeDecode(s: string)
    requires Decode(s).Some?
    ensures Encode(Decode(s).value) == s
    decreases |s|
  {
    if |s| == 0 {
      assert Decode(s).value == [];
    } else if |s| == 4 {
      EncodeDecodeFinal(s);
    } else {
      DecodeSplits(s);
      EncodeDecode(s[4..]);
      EncodeDecodeLonger(s);
    }
  }

  /** Text longer than one quantum decodes only if its first quantum and
      the rest both do. */
  lemma DecodeSplits(s: string)
    requires |s| != 0 && |s| != 4 && Decode(s).Some?
    ensures |s| > 4
    ensures DecodeGroup(s[..4]).Some? && Decode(s[4..]).Some?
    ensures Decode(s) == Some(DecodeGroup(s[..4]).value + Decode(s[4..]).value)
  {
    DecodedLength(s);
    MultipleOfFour(|s|);
  }

  /** The step of `EncodeDecode` past the first quantum. */
  lemma EncodeDecodeLonger(s: string)
    requires |s| > 4 && Decode(s).Some?
    requires Decode(s[4..]).Some? && Encode(Decode(s[4..]).value) == s[4..]
    ensures Encode(Decode(s).value) == s
  {
    var head := DecodeGroup(s[..4]).value;
    var tail := Decode(s[4..]).value;
    assert Decode(s) == Some(head + tail);
    EncodeDecodeGroup(s[..4]);
    EncodeGroupThen(head, tail, s[..4], s[4..]);
    assert s[..4] + s[4..] == s;
  }
}
