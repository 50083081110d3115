/** `getnonascii`: keep only the bytes of a byte string whose top bit is set
    (value 128 or more), in their original order. */
module AsciiFilter {
  import opened Base

  /** The bytes of `b` with value 128 or more, in order: what `getnonascii`
      returns. */
  function NonAscii(b: seq<byte>): seq<byte> {
    if b == [] then []
    else NonAscii(DropLast(b)) + (if Last(b) >= 0x80 then [Last(b)] else [])
  }

  function IsHigh(x: byte): bool {
    x >= 0x80
  }

  /** `NonAscii` is the filter of the bytes by `IsHigh`. */
  lemma {:induction false} NonAsciiIsFilter(b: seq<byte>)
    ensures NonAscii(b) == Filter(b, IsHigh)
    decreases |b|
  {
    if b != [] {
      NonAsciiIsFilter(DropLast(b));
    }
  }

  /** How many bytes of `b` are 7-bit ASCII. */
  function AsciiCount(b: seq<byte>): nat {
    if b == [] then 0 else AsciiCount(DropLast(b)) + (if Last(b) < 0x80 then 1 else 0)
  }

  /** The loop of `getnonascii`: walk the bytes one at a time and append
      each non-ASCII one to `out`. */
  method GetNonAscii(bstr: seq<byte>) returns (out: seq<byte>)
    ensures out == NonAscii(bstr)
  {
    out := [];
    for i := 0 to |bstr|
      invariant out == NonAscii(bstr[..i])
    {
      assert DropLast(bstr[..i + 1]) == bstr[..i];
      if bstr[i] >= 0x80 {
        out := out + [bstr[i]];
      }
    }
    assert bstr[..|bstr|] == bstr;
  }

  /** The filter keeps only bytes from 128 up, and every one of them. */
  lemma {:induction false} NonAsciiMembers(b: seq<byte>)
    ensures forall k :: 0 <= k < |NonAscii(b)| ==> NonAscii(b)[k] >= 0x80
    ensures forall x :: x in NonAscii(b) <==> x in b && x >= 0x80
    decreases |b|
  {
    if b != [] {
      var p := DropLast(b);
      NonAsciiMembers(p);
      assert b == p + [Last(b)];
    }
  }

  /** The filter's output is an order-preserving subsequence of its input,
      as long as the input less its ASCII bytes, and empty on empty input. */
  lemma {:induction false} NonAsciiShape(b: seq<byte>)
    ensures Subsequence(NonAscii(b), b)
    ensures |NonAscii(b)| == |b| - AsciiCount(b)
    ensures b == [] ==> NonAscii(b) == []
    decreases |b|
  {
    if b != [] {
      var p := DropLast(b);
      NonAsciiShape(p);
      var r := NonAscii(p);
      assert p + [Last(b)] == b;
      if Last(b) >= 0x80 {
        assert DropLast(r + [Last(b)]) == r;
      } else {
        assert NonAscii(b) == r;
        SubsequenceExtend(r, p, Last(b));
      }
    }
  }

  /** The filter distributes over concatenation. */
  lemma {:induction false} NonAsciiAppend(a: seq<byte>, b: seq<byte>)
    ensures NonAscii(a + b) == NonAscii(a) + NonAscii(b)
    decreases |b|
  {
    if b == [] {
      assert a + b == a;
    } else {
      assert DropLast(a + b) == a + DropLast(b);
      assert Last(a + b) == Last(b);
      NonAsciiAppend(a, DropLast(b));
    }
  }

  /** A byte string with no ASCII byte passes through unchanged. */
  lemma {:induction false} NonAsciiOfHigh(b: seq<byte>)
    requires forall k :: 0 <= k < |b| ==> b[k] >= 0x80
    ensures NonAscii(b) == b
    decreases |b|
  {
    if b != [] {
      var p := DropLast(b);
      var x := Last(b);
      assert forall k :: 0 <= k < |p| ==> p[k] == b[k];
      assert x == b[|b| - 1] >= 0x80;
      NonAsciiOfHigh(p);
      Rejoin(b);
    }
  }

  /** Filtering twice gives what filtering once gives. */
  lemma NonAsciiIdempotent(b: seq<byte>)
    ensures NonAscii(NonAscii(b)) == NonAscii(b)
  {
    NonAsciiMembers(b);
    NonAsciiOfHigh(NonAscii(b));
  }
}
