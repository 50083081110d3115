/** The Python `str` operations the program relies on: `isascii`, `strip`,
    and the non-ASCII characters of a line. */
module Text {
  import opened Base

  /** `s.isascii()`: every character is below U+0080 (true of ""). */
  predicate IsAsciiText(s: string) {
    forall i :: 0 <= i < |s| ==> s[i] as int < 0x80
  }

  /** `c.isspace()`: the characters Python treats as whitespace, those of
      Unicode bidirectional class WS, B or S or of general category Zs. */
  predicate IsSpace(c: char) {
    var n := c as int;
    (0x09 <= n <= 0x0D) || (0x1C <= n <= 0x20) || n == 0x85 || n == 0xA0 || n == 0x1680
    || (0x2000 <= n <= 0x200A) || n == 0x2028 || n == 0x2029 || n == 0x202F || n == 0x205F
    || n == 0x3000
  }

  /** `s` without its leading whitespace. */
  function TrimStart(s: string): (r: string)
    ensures |r| <= |s| && r == s[|s| - |r|..]
    ensures forall k :: 0 <= k < |s| - |r| ==> IsSpace(s[k])
    ensures r == [] || !IsSpace(r[0])
  {
    if s != [] && IsSpace(s[0]) then TrimStart(s[1..]) else s
  }

  /** `s` without its trailing whitespace. */
  function TrimEnd(s: string): (r: string)
    ensures |r| <= |s| && r == s[..|r|]
    ensures forall k :: |r| <= k < |s| ==> IsSpace(s[k])
    ensures r == [] || !IsSpace(Last(r))
  {
    if s != [] && IsSpace(Last(s)) then TrimEnd(DropLast(s)) else s
  }

  /** `r` is the slice of `s` at offset `i`, and only whitespace of `s` lies
      before and after it. */
  ghost predicate CutAt(s: string, i: int, r: string) {
    0 <= i <= i + |r| <= |s| && r == s[i..i + |r|]
    && (forall k :: 0 <= k < i ==> IsSpace(s[k]))
    && (forall k :: i + |r| <= k < |s| ==> IsSpace(s[k]))
  }

  /** `s.strip()`: the slice of `s` left once whitespace is cut from both
      ends; it neither starts nor ends with whitespace. */
  function Strip(s: string): (r: string)
    ensures exists i :: CutAt(s, i, r)
    ensures r == [] || (!IsSpace(r[0]) && !IsSpace(Last(r)))
  {
    var t := TrimStart(s);
    var r := TrimEnd(t);
    assert r == s[|s| - |t|..][..|r|] == s[|s| - |t|..|s| - |t| + |r|];
    assert r != [] ==> r[0] == t[0];
    assert CutAt(s, |s| - |t|, r);
    r
  }

  /** A string strips to "" exactly when it is all whitespace. */
  lemma StripBlank(s: string)
    ensures Strip(s) == [] <==> forall k :: 0 <= k < |s| ==> IsSpace(s[k])
  {
    var r := Strip(s);
    var i :| CutAt(s, i, r);
    if r != [] {
      assert s[i] == r[0];
    }
  }

  /** Stripping twice changes nothing more. */
  lemma StripIdempotent(s: string)
    ensures Strip(Strip(s)) == Strip(s)
  {
    var r := Strip(s);
    if r != [] {
      assert TrimStart(r) == r;
      assert TrimEnd(r) == r;
    }
  }

  /** The characters of `s` from U+0080 up, in order. */
  function NonAsciiChars(s: string): seq<char> {
    if s == [] then []
    else NonAsciiChars(DropLast(s)) + (if Last(s) as int >= 0x80 then [Last(s)] else [])
  }

  lemma {:induction false} NonAsciiCharsAppend(a: string, b: string)
    ensures NonAsciiChars(a + b) == NonAsciiChars(a) + NonAsciiChars(b)
    decreases |b|
  {
    if b == [] {
      assert a + b == a;
    } else {
      assert DropLast(a + b) == a + DropLast(b);
      NonAsciiCharsAppend(a, DropLast(b));
    }
  }

  /** A line is ASCII exactly when it has no non-ASCII characters. */
  lemma {:induction false} AsciiIffNoNonAscii(s: string)
    ensures IsAsciiText(s) <==> NonAsciiChars(s) == []
    decreases |s|
  {
    if s != [] {
      AsciiIffNoNonAscii(DropLast(s));
      assert forall i :: 0 <= i < |s| - 1 ==> DropLast(s)[i] == s[i];
    }
  }

  function IsHighChar(c: char): bool {
    c as int >= 0x80
  }

  /** The non-ASCII characters are the filter of the string by `IsHighChar`. */
  lemma {:induction false} NonAsciiCharsIsFilter(s: string)
    ensures NonAsciiChars(s) == Filter(s, IsHighChar)
    decreases |s|
  {
    if s != [] {
      NonAsciiCharsIsFilter(DropLast(s));
    }
  }
}
