/** The interactive guesser: given a line of mojibake and, optionally, the
    text it should read as, try every codec of the catalog on the line's
    UTF-8 bytes. With no target it lists every codec that decodes the bytes,
    with the decoding; with a target it names the codecs whose decoding is
    exactly the (stripped) target. */
module Guesser {
  import opened Base
  import opened Text
  import opened Catalog
  import Utf8

  /** One line of the listing: a codec and what the bytes read as in it. */
  datatype Guess = Guess(enc: string, decoded: string)

  /** What the guesser prints: the listing, or the matching codec names. */
  datatype Report = Listed(guesses: seq<Guess>) | Matched(encs: seq<string>)

  /** `orig.encode("utf-8").decode(enc)`, `None` where it raises. */
  function Reading(lib: Codecs, orig: string, enc: string): Option<string> {
    lib.decode(enc, Utf8.Encode(orig))
  }

  /** The listing over `encs`: one guess per codec that decodes. */
  function ListAll(lib: Codecs, orig: string, encs: seq<string>): seq<Guess> {
    if encs == [] then []
    else ListAll(lib, orig, DropLast(encs)) +
         match Reading(lib, orig, Last(encs))
         case None => []
         case Some(d) => [Guess(Last(encs), d)]
  }

  /** The codecs of `encs` whose decoding equals `target`. */
  function MatchAll(lib: Codecs, orig: string, target: string, encs: seq<string>): seq<string> {
    if encs == [] then []
    else MatchAll(lib, orig, target, DropLast(encs)) +
         (if Reading(lib, orig, Last(encs)) == Some(target) then [Last(encs)] else [])
  }

  /** The guesser's output: a blank target (all whitespace once stripped)
      selects the listing. The target is stripped; the decodings are not. */
  function GuessReport(lib: Codecs, orig: string, output: string): Report {
    if Strip(output) == "" then Listed(ListAll(lib, orig, ENCODINGS))
    else Matched(MatchAll(lib, orig, Strip(output), ENCODINGS))
  }

  /** The guesser's two loops over the catalog; a codec that raises is
      skipped. */
  method GuessEncoding(lib: Codecs, orig: string, output: string) returns (r: Report)
    ensures r == GuessReport(lib, orig, output)
  {
    var data := Utf8.Encode(orig);
    if Strip(output) == "" {
      var guesses := ListLoop(lib, orig, data, ENCODINGS);
      r := Listed(guesses);
    } else {
      var encs := MatchLoop(lib, orig, data, Strip(output), ENCODINGS);
      r := Matched(encs);
    }
  }

  /** The listing loop over `encs`, on the bytes `data` of `orig`. */
  method ListLoop(lib: Codecs, orig: string, data: seq<byte>, encs: seq<string>) returns (guesses: seq<Guess>)
    requires data == Utf8.Encode(orig)
    ensures guesses == ListAll(lib, orig, encs)
  {
    guesses := [];
    for i := 0 to |encs|
      invariant guesses == ListAll(lib, orig, encs[..i])
    {
      assert DropLast(encs[..i + 1]) == encs[..i];
      var decoded := lib.decode(encs[i], data);
      if decoded.Some? {
        guesses := guesses + [Guess(encs[i], decoded.value)];
      }
    }
    assert encs[..|encs|] == encs;
  }

  /** The matching loop over `encs`: the codecs whose decoding of `data` is
      the target. */
  method MatchLoop(lib: Codecs, orig: string, data: seq<byte>, target: string, encs: seq<string>)
    returns (found: seq<string>)
    requires data == Utf8.Encode(orig)
    ensures found == MatchAll(lib, orig, target, encs)
  {
    found := [];
    for i := 0 to |encs|
      invariant found == MatchAll(lib, orig, target, encs[..i])
    {
      assert DropLast(encs[..i + 1]) == encs[..i];
      if Some(target) == lib.decode(encs[i], data) {
        found := found + [encs[i]];
      }
    }
    assert encs[..|encs|] == encs;
  }

  function GuessEncs(gs: seq<Guess>): seq<string> {
    seq(|gs|, k requires 0 <= k < |gs| => gs[k].enc)
  }

  function Decodes(lib: Codecs, orig: string): string -> bool {
    (e: string) => Reading(lib, orig, e).Some?
  }

  function DecodesAs(lib: Codecs, orig: string, target: string): string -> bool {
    (e: string) => Reading(lib, orig, e) == Some(target)
  }

  /** The listing names exactly the codecs of `encs` that decode the bytes,
      in catalog order, each with its decoding. */
  lemma ListAllSpec(lib: Codecs, orig: string, encs: seq<string>)
    ensures GuessEncs(ListAll(lib, orig, encs)) == Filter(encs, Decodes(lib, orig))
    ensures forall k :: 0 <= k < |ListAll(lib, orig, encs)| ==>
      Reading(lib, orig, ListAll(lib, orig, encs)[k].enc) == Some(ListAll(lib, orig, encs)[k].decoded)
  {
    ListAllEncs(lib, orig, encs);
    ListAllReadings(lib, orig, encs);
  }

  lemma {:induction false} ListAllEncs(lib: Codecs, orig: string, encs: seq<string>)
    ensures GuessEncs(ListAll(lib, orig, encs)) == Filter(encs, Decodes(lib, orig))
    decreases |encs|
  {
    if encs != [] {
      var init := DropLast(encs);
      ListAllEncs(lib, orig, init);
      var prev := ListAll(lib, orig, init);
      match Reading(lib, orig, Last(encs))
      case None =>
        assert ListAll(lib, orig, encs) == prev;
      case Some(d) =>
        assert ListAll(lib, orig, encs) == prev + [Guess(Last(encs), d)];
        GuessEncsAppend(prev, Guess(Last(encs), d));
    }
  }

  lemma {:induction false} ListAllReadings(lib: Codecs, orig: string, encs: seq<string>)
    ensures forall k :: 0 <= k < |ListAll(lib, orig, encs)| ==>
      Reading(lib, orig, ListAll(lib, orig, encs)[k].enc) == Some(ListAll(lib, orig, encs)[k].decoded)
    decreases |encs|
  {
    if encs != [] {
      var init := DropLast(encs);
      ListAllReadings(lib, orig, init);
      var prev := ListAll(lib, orig, init);
      match Reading(lib, orig, Last(encs))
      case None =>
        assert ListAll(lib, orig, encs) == prev;
      case Some(d) =>
        var l := prev + [Guess(Last(encs), d)];
        assert ListAll(lib, orig, encs) == l;
        assert forall k :: 0 <= k < |prev| ==> l[k] == prev[k];
    }
  }

  /** The matches are exactly the codecs of `encs` whose decoding is the
      target, in catalog order. */
  lemma {:induction false} MatchAllSpec(lib: Codecs, orig: string, target: string, encs: seq<string>)
    ensures MatchAll(lib, orig, target, encs) == Filter(encs, DecodesAs(lib, orig, target))
    decreases |encs|
  {
    if encs != [] {
      MatchAllSpec(lib, orig, target, DropLast(encs));
    }
  }

  /** The target mode: the names printed are in catalog order, and a codec
      is printed exactly when decoding the UTF-8 bytes with it succeeds and
      gives the stripped target. */
  lemma MatchedRule(lib: Codecs, orig: string, output: string, e: string)
    requires Strip(output) != ""
    ensures GuessReport(lib, orig, output).Matched?
    ensures Subsequence(GuessReport(lib, orig, output).encs, ENCODINGS)
    ensures e in GuessReport(lib, orig, output).encs <==>
      e in ENCODINGS && lib.decode(e, Utf8.Encode(orig)) == Some(Strip(output))
  {
    MatchingOver(lib, orig, Strip(output), ENCODINGS, e);
  }

  /** The matching facts over any list of codecs. */
  lemma MatchingOver(lib: Codecs, orig: string, target: string, encs: seq<string>, e: string)
    ensures Subsequence(MatchAll(lib, orig, target, encs), encs)
    ensures e in MatchAll(lib, orig, target, encs) <==> e in encs && lib.decode(e, Utf8.Encode(orig)) == Some(target)
  {
    MatchAllSpec(lib, orig, target, encs);
    FilterIsSubsequence(encs, DecodesAs(lib, orig, target));
    FilterMembers(encs, DecodesAs(lib, orig, target), e);
  }

  /** The listing mode, chosen exactly when the target is all whitespace:
      the codecs listed are in catalog order, a codec is listed exactly when
      it decodes the bytes, and each line shows that decoding. */
  lemma ListedRule(lib: Codecs, orig: string, output: string, e: string)
    ensures GuessReport(lib, orig, output).Listed? <==> forall k :: 0 <= k < |output| ==> IsSpace(output[k])
    ensures GuessReport(lib, orig, output).Listed? ==>
      var gs := GuessReport(lib, orig, output).guesses;
      && Subsequence(GuessEncs(gs), ENCODINGS)
      && (e in GuessEncs(gs) <==> e in ENCODINGS && lib.decode(e, Utf8.Encode(orig)).Some?)
      && (forall k :: 0 <= k < |gs| ==> lib.decode(gs[k].enc, Utf8.Encode(orig)) == Some(gs[k].decoded))
  {
    StripBlank(output);
    ListingOver(lib, orig, ENCODINGS, e);
  }

  /** The listing facts over any list of codecs. */
  lemma ListingOver(lib: Codecs, orig: string, encs: seq<string>, e: string)
    ensures var gs := ListAll(lib, orig, encs);
      && Subsequence(GuessEncs(gs), encs)
      && (e in GuessEncs(gs) <==> e in encs && lib.decode(e, Utf8.Encode(orig)).Some?)
      && (forall k :: 0 <= k < |gs| ==> lib.decode(gs[k].enc, Utf8.Encode(orig)) == Some(gs[k].decoded))
  {
    ListAllSpec(lib, orig, encs);
    FilterIsSubsequence(encs, Decodes(lib, orig));
    FilterMembers(encs, Decodes(lib, orig), e);
  }

  function ReadsAs(target: string): Guess -> bool {
    (g: Guess) => g.decoded == target
  }

  lemma GuessEncsAppend(gs: seq<Guess>, g: Guess)
    ensures GuessEncs(gs + [g]) == GuessEncs(gs) + [g.enc]
  {
  }

  /** The two modes agree: the matches for a target are the listed codecs
      whose decoding is that target. */
  lemma {:induction false} MatchesAreListed(lib: Codecs, orig: string, target: string, encs: seq<string>)
    ensures MatchAll(lib, orig, target, encs) == GuessEncs(Filter(ListAll(lib, orig, encs), ReadsAs(target)))
    decreases |encs|
  {
    if encs != [] {
      var init := DropLast(encs);
      var x := Last(encs);
      MatchesAreListed(lib, orig, target, init);
      var prev := ListAll(lib, orig, init);
      var f := Filter(prev, ReadsAs(target));
      var tail := match Reading(lib, orig, x) case None => [] case Some(d) => [Guess(x, d)];
      assert ListAll(lib, orig, encs) == prev + tail;
      FilterAppend(prev, tail, ReadsAs(target));
      if tail != [] {
        FilterSingle(tail[0], ReadsAs(target));
        if Reading(lib, orig, x) == Some(target) {
          GuessEncsAppend(f, tail[0]);
        }
      } else {
        assert Filter(prev + tail, ReadsAs(target)) == f + [];
      }
    }
  }

  /** The decodings are compared unstripped: a codec whose decoding starts
      or ends with whitespace never matches a target. */
  lemma PaddedNeverMatches(lib: Codecs, orig: string, output: string, e: string, d: string)
    requires lib.decode(e, Utf8.Encode(orig)) == Some(d)
    requires d != [] && (IsSpace(d[0]) || IsSpace(Last(d)))
    ensures !GuessReport(lib, orig, output).Matched? || e !in GuessReport(lib, orig, output).encs
  {
    if Strip(output) != "" {
      MatchedRule(lib, orig, output, e);
    }
  }
}
