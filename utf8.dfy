/** Python's built-in "utf-8" codec, written out per RFC 3629: section 3
    gives the bit layout of one code point's encoding, section 4 the byte
    sequences a strict decoder accepts (no overlong forms, no surrogates,
    nothing above U+10FFFF). A Dafny `char` is a Unicode scalar value, so
    every string can be encoded. */
module Utf8 {
  import opened Base

  /** A continuation byte, 10xxxxxx. */
  predicate IsCont(b: byte) {
    0x80 <= b < 0xC0
  }

  /** The six payload bits of a continuation byte. */
  function Low(b: byte): int {
    b as int - 0x80
  }

  /** The bytes RFC 3629 assigns to one scalar value: 1 byte below U+0080,
      2 below U+0800, 3 below U+10000 and 4 otherwise. */
  function EncodeChar(c: char): seq<byte> {
    var n := c as int;
    var n1 := n / 64;
    var n2 := n1 / 64;
    Digit(n);
    Digit(n1);
    if n < 0x80 then [n]
    else if n < 0x800 then [0xC0 + n1, 0x80 + n % 64]
    else if n < 0x10000 then [0xE0 + n2, 0x80 + n1 % 64, 0x80 + n % 64]
    else [0xF0 + n2 / 64, 0x80 + n2 % 64, 0x80 + n1 % 64, 0x80 + n % 64]
  }

  /** The last base-64 digit of `n` and the number above it. */
  lemma Digit(n: int)
    requires n >= 0
    ensures n == (n / 64) * 64 + n % 64 && 0 <= n % 64 < 64 && n / 64 >= 0
  {
  }

  /** `s.encode("utf-8")`. */
  function Encode(s: string): seq<byte> {
    if s == [] then [] else EncodeChar(s[0]) + Encode(s[1..])
  }

  function Prepend(c: char, rest: Option<string>): Option<string> {
    match rest
    case None => None
    case Some(t) => Some([c] + t)
  }

  /** `bytes.decode("utf-8")` in strict mode: `None` where Python raises
      `UnicodeDecodeError`. */
  function Decode(bs: seq<byte>): Option<string>
    decreases |bs|
  {
    if bs == [] then Some([])
    else
      var b0: int := bs[0];
      if b0 < 0x80 then Prepend(b0 as char, Decode(bs[1..]))
      else if 0xC2 <= b0 < 0xE0 && |bs| >= 2 && IsCont(bs[1]) then
        var n := (b0 - 0xC0) * 64 + Low(bs[1]);
        Prepend(n as char, Decode(bs[2..]))
      else if 0xE0 <= b0 < 0xF0 && |bs| >= 3 && IsCont(bs[1]) && IsCont(bs[2]) then
        var n := (b0 - 0xE0) * 4096 + Low(bs[1]) * 64 + Low(bs[2]);
        if n < 0x800 || 0xD800 <= n < 0xE000 then None
        else Prepend(n as char, Decode(bs[3..]))
      else if 0xF0 <= b0 < 0xF5 && |bs| >= 4 && IsCont(bs[1]) && IsCont(bs[2]) && IsCont(bs[3]) then
        var n := (b0 - 0xF0) * 262144 + Low(bs[1]) * 4096 + Low(bs[2]) * 64 + Low(bs[3]);
        if n < 0x10000 || 0x110000 <= n then None
        else Prepend(n as char, Decode(bs[4..]))
      else None
  }

  /** Only the one-byte form of a scalar value lies below 0x80: every byte of
      a longer form has its top bit set. */
  lemma EncodeCharBytes(c: char)
    ensures c as int < 0x80 ==> EncodeChar(c) == [c as int]
    ensures c as int >= 0x80 ==> |EncodeChar(c)| >= 2 && forall k :: 0 <= k < |EncodeChar(c)| ==> EncodeChar(c)[k] >= 0x80
  {
  }

  /** Decoding the encoding of one scalar value in front of `rest` yields that
      value in front of the decoding of `rest`. */
  lemma DecodeEncodeChar(c: char, rest: seq<byte>)
    ensures Decode(EncodeChar(c) + rest) == Prepend(c, Decode(rest))
  {
    var n := c as int;
    if n < 0x80 {
      assert (EncodeChar(c) + rest)[1..] == rest;
    } else if n < 0x800 {
      DecodeTwo(c, rest);
    } else if n < 0x10000 {
      DecodeThree(c, rest);
    } else {
      DecodeFour(c, rest);
    }
  }

  lemma DecodeTwo(c: char, rest: seq<byte>)
    requires 0x80 <= c as int < 0x800
    ensures Decode(EncodeChar(c) + rest) == Prepend(c, Decode(rest))
  {
    var n := c as int;
    Digit(n);
    var bs := EncodeChar(c) + rest;
    assert bs[0] == 0xC0 + n / 64 && bs[1] == 0x80 + n % 64;
    assert bs[2..] == rest;
  }

  lemma DecodeThree(c: char, rest: seq<byte>)
    requires 0x800 <= c as int < 0x10000
    ensures Decode(EncodeChar(c) + rest) == Prepend(c, Decode(rest))
  {
    var n := c as int;
    var n1 := n / 64;
    Digit(n);
    Digit(n1);
    var bs := EncodeChar(c) + rest;
    assert bs[0] == 0xE0 + n1 / 64 && bs[1] == 0x80 + n1 % 64 && bs[2] == 0x80 + n % 64;
    assert bs[3..] == rest;
  }

  lemma DecodeFour(c: char, rest: seq<byte>)
    requires 0x10000 <= c as int
    ensures Decode(EncodeChar(c) + rest) == Prepend(c, Decode(rest))
  {
    var n := c as int;
    var n1 := n / 64;
    var n2 := n1 / 64;
    Digit(n);
    Digit(n1);
    Digit(n2);
    var bs := EncodeChar(c) + rest;
    assert bs[0] == 0xF0 + n2 / 64 && bs[1] == 0x80 + n2 % 64;
    assert bs[2] == 0x80 + n1 % 64 && bs[3] == 0x80 + n % 64;
    assert bs[4..] == rest;
  }

  /** Decoding inverts encoding: every string survives the round trip. */
  lemma {:induction false} DecodeEncode(s: string)
    ensures Decode(Encode(s)) == Some(s)
  {
    if s != [] {
      DecodeEncode(s[1..]);
      DecodeEncodeChar(s[0], Encode(s[1..]));
      assert [s[0]] + s[1..] == s;
    }
  }

  /** The number of bytes of the leading sequence the decoder consumes. */
  function LeadWidth(b0: byte): nat {
    if b0 < 0x80 then 1 else if b0 < 0xE0 then 2 else if b0 < 0xF0 then 3 else 4
  }

  /** A byte string that decodes starts with the encoding of the first
      character decoded, and the rest decodes to the remaining characters. */
  lemma DecodeHead(bs: seq<byte>, s: string)
    requires bs != [] && Decode(bs) == Some(s)
    ensures s != [] && LeadWidth(bs[0]) <= |bs|
    ensures EncodeChar(s[0]) == bs[..LeadWidth(bs[0])]
    ensures Decode(bs[LeadWidth(bs[0])..]) == Some(s[1..])
  {
    var b0: int := bs[0];
    if b0 < 0x80 {
    } else if b0 < 0xE0 {
      HeadTwo(bs, s);
    } else if b0 < 0xF0 {
      HeadThree(bs, s);
    } else {
      HeadFour(bs, s);
    }
  }

  lemma HeadTwo(bs: seq<byte>, s: string)
    requires bs != [] && Decode(bs) == Some(s) && 0x80 <= bs[0] < 0xE0
    ensures s != [] && 2 <= |bs| && EncodeChar(s[0]) == bs[..2] && Decode(bs[2..]) == Some(s[1..])
  {
    var w, z := bs[0] as int - 0xC0, Low(bs[1]);
    var n := w * 64 + z;
    assert s == [n as char] + s[1..];
    EncodeTwo(w, z);
    Take2(bs);
  }

  lemma EncodeTwo(w: int, z: int)
    requires 2 <= w < 32 && 0 <= z < 64
    ensures EncodeChar((w * 64 + z) as char) == [0xC0 + w, 0x80 + z]
  {
    Split64(w, z);
  }

  /** A three-byte lead that decodes: the bytes it must have, and the
      character it gives. */
  lemma LeadThree(bs: seq<byte>)
    requires bs != [] && Decode(bs).Some? && 0xE0 <= bs[0] < 0xF0
    ensures |bs| >= 3 && IsCont(bs[1]) && IsCont(bs[2])
    ensures var n := (bs[0] as int - 0xE0) * 4096 + Low(bs[1]) * 64 + Low(bs[2]);
      0x800 <= n < 0x10000 && !(0xD800 <= n < 0xE000) &&
      Decode(bs) == Prepend(n as char, Decode(bs[3..]))
  {
  }

  lemma EncodeThree(w: int, y: int, z: int)
    requires 0 <= w < 16 && 0 <= y < 64 && 0 <= z < 64
    requires var n := w * 4096 + y * 64 + z; 0x800 <= n && !(0xD800 <= n < 0xE000)
    ensures EncodeChar((w * 4096 + y * 64 + z) as char) == [0xE0 + w, 0x80 + y, 0x80 + z]
  {
    Split64(w * 64 + y, z);
    Split64(w, y);
  }

  lemma HeadThree(bs: seq<byte>, s: string)
    requires bs != [] && Decode(bs) == Some(s) && 0xE0 <= bs[0] < 0xF0
    ensures s != [] && 3 <= |bs| && EncodeChar(s[0]) == bs[..3] && Decode(bs[3..]) == Some(s[1..])
  {
    LeadThree(bs);
    var w, y, z := bs[0] as int - 0xE0, Low(bs[1]), Low(bs[2]);
    var c := (w * 4096 + y * 64 + z) as char;
    var t := Decode(bs[3..]).value;
    assert s == [c] + t;
    EncodeThree(w, y, z);
    assert EncodeChar(s[0]) == [bs[0], bs[1], bs[2]];
    Take3(bs);
  }

  /** A four-byte lead that decodes: the bytes it must have, and the
      character it gives. */
  lemma LeadFour(bs: seq<byte>)
    requires bs != [] && Decode(bs).Some? && 0xF0 <= bs[0]
    ensures |bs| >= 4 && bs[0] < 0xF5 && IsCont(bs[1]) && IsCont(bs[2]) && IsCont(bs[3])
    ensures var n := (bs[0] as int - 0xF0) * 262144 + Low(bs[1]) * 4096 + Low(bs[2]) * 64 + Low(bs[3]);
      0x10000 <= n < 0x110000 && Decode(bs) == Prepend(n as char, Decode(bs[4..]))
  {
  }

  lemma EncodeFour(w: int, x: int, y: int, z: int)
    requires 0 <= w < 5 && 0 <= x < 64 && 0 <= y < 64 && 0 <= z < 64
    requires 0x10000 <= w * 262144 + x * 4096 + y * 64 + z < 0x110000
    ensures EncodeChar((w * 262144 + x * 4096 + y * 64 + z) as char) == [0xF0 + w, 0x80 + x, 0x80 + y, 0x80 + z]
  {
    Split64(w * 4096 + x * 64 + y, z);
    Split64(w * 64 + x, y);
    Split64(w, x);
  }

  lemma HeadFour(bs: seq<byte>, s: string)
    requires bs != [] && Decode(bs) == Some(s) && 0xF0 <= bs[0]
    ensures s != [] && 4 <= |bs| && EncodeChar(s[0]) == bs[..4] && Decode(bs[4..]) == Some(s[1..])
  {
    LeadFour(bs);
    var w, x, y, z := bs[0] as int - 0xF0, Low(bs[1]), Low(bs[2]), Low(bs[3]);
    var c := (w * 262144 + x * 4096 + y * 64 + z) as char;
    var t := Decode(bs[4..]).value;
    assert s == [c] + t;
    EncodeFour(w, x, y, z);
    assert EncodeChar(s[0]) == [bs[0], bs[1], bs[2], bs[3]];
    Take4(bs);
  }

  lemma Take2(s: seq<byte>)
    requires |s| >= 2
    ensures s[..2] == [s[0], s[1]]
  {
  }

  lemma Take3(s: seq<byte>)
    requires |s| >= 3
    ensures s[..3] == [s[0], s[1], s[2]]
  {
  }

  lemma Take4(s: seq<byte>)
    requires |s| >= 4
    ensures s[..4] == [s[0], s[1], s[2], s[3]]
  {
  }

  /** Six payload bits below a prefix: the prefix and the bits come back out. */
  lemma Split64(hi: int, lo: int)
    requires 0 <= hi && 0 <= lo < 64
    ensures (hi * 64 + lo) / 64 == hi && (hi * 64 + lo) % 64 == lo
  {
  }

  /** Encoding inverts decoding: a byte string that decodes is exactly the
      encoding of what it decodes to, so the decoder accepts no byte string
      that the encoder cannot produce. */
  lemma {:induction false} EncodeDecode(bs: seq<byte>, s: string)
    requires Decode(bs) == Some(s)
    ensures Encode(s) == bs
    decreases |bs|
  {
    if bs != [] {
      DecodeHead(bs, s);
      var k := LeadWidth(bs[0]);
      EncodeDecode(bs[k..], s[1..]);
      EncodeCons(bs, s, k);
    }
  }

  /** The encoding of a string whose first character encodes as the first
      `k` bytes and whose rest encodes as the remaining bytes. */
  lemma EncodeCons(bs: seq<byte>, s: string, k: nat)
    requires s != [] && k <= |bs|
    requires EncodeChar(s[0]) == bs[..k] && Encode(s[1..]) == bs[k..]
    ensures Encode(s) == bs
  {
    assert bs == bs[..k] + bs[k..];
  }

  lemma {:induction false} EncodeAppend(a: string, b: string)
    ensures Encode(a + b) == Encode(a) + Encode(b)
  {
    if a != [] {
      assert (a + b)[1..] == a[1..] + b;
      EncodeAppend(a[1..], b);
    } else {
      assert a + b == b;
    }
  }
}
