/** The round-trip matcher: the body of the scorer's inner loop, which decides
    whether one line, re-encoded in one candidate codec, shows the mojibake
    signature (the non-ASCII part collapses to half as many characters). */
module Matcher {
  import opened Base
  import opened Text
  import opened AsciiFilter
  import opened Catalog
  import Utf8

  /** The verdict for one line and one codec: a hit carries the repaired
      non-ASCII text (`result`); a miss is every other outcome, including
      the encode and decode errors the loop catches. */
  datatype Verdict = Hit(result: string) | Miss

  /** What one pass of the inner loop computes: `orig` is the line's
      non-ASCII bytes decoded as UTF-8; `result` is the non-ASCII bytes of the
      line re-encoded in `enc`, decoded as UTF-8; a hit needs
      `len(orig) == 2 * len(result)`. */
  function Judge(lib: Codecs, enc: string, line: string): Verdict {
    match Utf8.Decode(NonAscii(Utf8.Encode(line)))
    case None => Miss
    case Some(orig) =>
      match lib.encode(enc, line)
      case None => Miss
      case Some(bs) =>
        match Utf8.Decode(NonAscii(bs))
        case None => Miss
        case Some(result) => if |orig| == 2 * |result| then Hit(result) else Miss
  }

  /** The inner loop's body, step by step, with the filter method; the
      `Miss` branches are the `except` clause. */
  method TryEncoding(lib: Codecs, enc: string, s: string) returns (v: Verdict)
    ensures v == Judge(lib, enc, s)
  {
    var unicodeNonAscii := GetNonAscii(Utf8.Encode(s));
    var orig := Utf8.Decode(unicodeNonAscii);
    if orig.None? {
      return Miss;
    }
    var encoded := lib.encode(enc, s);
    if encoded.None? {
      return Miss;
    }
    var encodingNonAscii := GetNonAscii(encoded.value);
    var result := Utf8.Decode(encodingNonAscii);
    if result.None? {
      return Miss;
    }
    if |orig.value| == 2 * |result.value| {
      v := Hit(result.value);
    } else {
      v := Miss;
    }
  }

  /** The non-ASCII bytes of one character's UTF-8 form: none for an ASCII
      character, all of them otherwise. */
  lemma NonAsciiOfChar(c: char)
    ensures NonAscii(Utf8.EncodeChar(c)) == Utf8.Encode(NonAsciiChars([c]))
  {
    Utf8.EncodeCharBytes(c);
    assert Utf8.Encode([c]) == Utf8.EncodeChar(c) + Utf8.Encode([]);
    assert DropLast([c]) == [] && Last([c]) == c;
    CharFilter(c as int, Utf8.EncodeChar(c));
  }

  /** The byte form of one character: a single ASCII byte is dropped, and
      bytes that are all non-ASCII are kept. */
  lemma CharFilter(n: int, e: seq<byte>)
    requires n < 0x80 ==> e == [n]
    requires n >= 0x80 ==> forall k :: 0 <= k < |e| ==> e[k] >= 0x80
    ensures NonAscii(e) == if n < 0x80 then [] else e
  {
    if n < 0x80 {
      assert DropLast(e) == [];
    } else {
      NonAsciiOfHigh(e);
    }
  }

  /** Dropping the ASCII bytes of a UTF-8 encoding leaves the UTF-8 encoding
      of the non-ASCII characters. */
  lemma {:induction false} NonAsciiOfUtf8(s: string)
    ensures NonAscii(Utf8.Encode(s)) == Utf8.Encode(NonAsciiChars(s))
  {
    if s != [] {
      NonAsciiOfUtf8(s[1..]);
      NonAsciiAppend(Utf8.EncodeChar(s[0]), Utf8.Encode(s[1..]));
      NonAsciiOfChar(s[0]);
      assert s == [s[0]] + s[1..];
      NonAsciiCharsAppend([s[0]], s[1..]);
      Utf8.EncodeAppend(NonAsciiChars([s[0]]), NonAsciiChars(s[1..]));
    }
  }

  /** `orig` always decodes: the non-ASCII bytes of a line's UTF-8 encoding
      are valid UTF-8 and decode to the line's non-ASCII characters, so the
      `except` clause never fires for this step. */
  lemma OrigDecodes(line: string)
    ensures Utf8.Decode(NonAscii(Utf8.Encode(line))) == Some(NonAsciiChars(line))
  {
    NonAsciiOfUtf8(line);
    Utf8.DecodeEncode(NonAsciiChars(line));
  }

  /** The same holds of any byte string that is valid UTF-8: its non-ASCII
      bytes decode to the non-ASCII characters of its decoding. */
  lemma NonAsciiOfValid(bs: seq<byte>, s: string)
    requires Utf8.Decode(bs) == Some(s)
    ensures Utf8.Decode(NonAscii(bs)) == Some(NonAsciiChars(s))
  {
    Utf8.EncodeDecode(bs, s);
    OrigDecodes(s);
  }

  /** The hit rule in terms of the line itself: a hit exactly when the line
      can be encoded in `enc`, the non-ASCII bytes of that encoding decode as
      UTF-8, and the line has twice as many non-ASCII characters as the
      decoded text; the hit then carries that text. */
  lemma JudgeRule(lib: Codecs, enc: string, line: string)
    ensures Judge(lib, enc, line).Hit? <==>
      lib.encode(enc, line).Some?
      && Utf8.Decode(NonAscii(lib.encode(enc, line).value)).Some?
      && |NonAsciiChars(line)| == 2 * |Utf8.Decode(NonAscii(lib.encode(enc, line).value)).value|
    ensures Judge(lib, enc, line).Hit? ==>
      Some(Judge(lib, enc, line).result) == Utf8.Decode(NonAscii(lib.encode(enc, line).value))
  {
    OrigDecodes(line);
  }

  /** Decoded text made only of bytes from 128 up has only non-ASCII
      characters. */
  lemma {:induction false} DecodeHighIsNonAscii(bs: seq<byte>, s: string)
    requires forall k :: 0 <= k < |bs| ==> bs[k] >= 0x80
    requires Utf8.Decode(bs) == Some(s)
    ensures forall k :: 0 <= k < |s| ==> s[k] as int >= 0x80
    decreases |bs|
  {
    if bs != [] {
      Utf8.DecodeHead(bs, s);
      var w := Utf8.LeadWidth(bs[0]);
      DecodeHighIsNonAscii(bs[w..], s[1..]);
      assert Utf8.EncodeChar(s[0])[0] == bs[0];
      assert forall k :: 1 <= k < |s| ==> s[k] == s[1..][k - 1];
    }
  }

  /** The shape of a hit: the repaired text is non-empty and wholly non-ASCII
      when the line is not ASCII, and the line's non-ASCII count is even. */
  lemma HitShape(lib: Codecs, enc: string, line: string)
    requires Judge(lib, enc, line).Hit?
    ensures |NonAsciiChars(line)| == 2 * |Judge(lib, enc, line).result|
    ensures forall k :: 0 <= k < |Judge(lib, enc, line).result| ==> Judge(lib, enc, line).result[k] as int >= 0x80
    ensures !IsAsciiText(line) ==> |Judge(lib, enc, line).result| >= 1
  {
    JudgeRule(lib, enc, line);
    AsciiIffNoNonAscii(line);
    var bs := lib.encode(enc, line).value;
    NonAsciiMembers(bs);
    DecodeHighIsNonAscii(NonAscii(bs), Judge(lib, enc, line).result);
  }

  /** Scorer and repairer agree: when the repair of a line in `enc` succeeds,
      the verdict is a hit exactly when the repaired line has half as many
      non-ASCII characters, and the hit's text is the repaired line's
      non-ASCII characters. */
  lemma JudgeOfRepairable(lib: Codecs, enc: string, line: string, fixed: string)
    requires Recode(lib, enc, line) == Some(fixed)
    ensures Judge(lib, enc, line) ==
      if |NonAsciiChars(line)| == 2 * |NonAsciiChars(fixed)| then Hit(NonAsciiChars(fixed)) else Miss
  {
    OrigDecodes(line);
    NonAsciiOfValid(lib.encode(enc, line).value, fixed);
  }
}
