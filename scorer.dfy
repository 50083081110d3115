/** The candidate scorer: one pass over the lines of the file that, for every
    non-ASCII line and every codec of the catalog, asks the matcher for a
    verdict and on a hit bumps the codec's histogram count and appends the
    repaired text to its sample. It also keeps the first usable example
    line. */
module Scorer {
  import opened Base
  import opened Text
  import opened Catalog
  import opened Matcher

  /** The two `defaultdict`s of one pass. `order` lists the keys of `hist` in
      insertion order (the order of their first hits), which Python's dict
      keeps and the selector's stable sort relies on. */
  datatype Tally = Tally(order: seq<string>, hist: map<string, nat>, results: map<string, string>)

  /** The dictionaries before the first line. */
  const Fresh: Tally := Tally([], map[], map[])

  /** `hist[e]`, with the default 0. */
  function Count(t: Tally, e: string): nat {
    if e in t.hist then t.hist[e] else 0
  }

  /** `results[e]`, with the default "". */
  function Sample(t: Tally, e: string): string {
    if e in t.results then t.results[e] else ""
  }

  /** The two updates of a hit: `results[e] += r` and `hist[e] += 1`. */
  function Record(t: Tally, e: string, r: string): Tally {
    Tally(if e in t.hist then t.order else t.order + [e],
          t.hist[e := Count(t, e) + 1],
          t.results[e := Sample(t, e) + r])
  }

  /** The dictionaries agree: the same keys, `order` lists them once each,
      and every count is at least 1. */
  ghost predicate Valid(t: Tally) {
    && Distinct(t.order)
    && (forall e :: e in t.hist <==> e in t.order)
    && t.results.Keys == t.hist.Keys
    && (forall e :: e in t.hist ==> t.hist[e] >= 1)
  }

  function Apply(t: Tally, e: string, v: Verdict): Tally {
    match v
    case Hit(r) => Record(t, e, r)
    case Miss => t
  }

  /** The inner loop: the codecs of `encs` tried in order on one line. */
  function ScoreEncodings(lib: Codecs, t: Tally, line: string, encs: seq<string>): Tally {
    if encs == [] then t
    else Apply(ScoreEncodings(lib, t, line, DropLast(encs)), Last(encs), Judge(lib, Last(encs), line))
  }

  /** One iteration of the outer loop: ASCII lines are skipped. */
  function ScoreLine(lib: Codecs, encs: seq<string>, t: Tally, line: string): Tally {
    if IsAsciiText(line) then t else ScoreEncodings(lib, t, line, encs)
  }

  /** The dictionaries after the whole file. */
  function ScoreLines(lib: Codecs, encs: seq<string>, lines: seq<string>): Tally {
    if lines == [] then Fresh else ScoreLine(lib, encs, ScoreLines(lib, encs, DropLast(lines)), Last(lines))
  }

  /** `example` after the whole file: `if not example: example = s.strip()`
      on every non-ASCII line. */
  function Example(lines: seq<string>): string {
    if lines == [] then ""
    else
      var e := Example(DropLast(lines));
      if !IsAsciiText(Last(lines)) && e == "" then Strip(Last(lines)) else e
  }

  /** The scoring pass over the catalog, written as the nested loops that
      update the dictionaries in place. */
  method Score(lib: Codecs, lines: seq<string>) returns (t: Tally, example: string)
    ensures t == ScoreLines(lib, ENCODINGS, lines)
    ensures example == Example(lines)
  {
    t := Fresh;
    example := "";
    for n := 0 to |lines|
      invariant t == ScoreLines(lib, ENCODINGS, lines[..n])
      invariant example == Example(lines[..n])
    {
      assert DropLast(lines[..n + 1]) == lines[..n];
      var s := lines[n];
      if !IsAsciiText(s) {
        if example == "" {
          example := Strip(s);
        }
        t := ScoreLineLoop(lib, t, s, ENCODINGS);
      }
    }
    assert lines[..|lines|] == lines;
  }

  /** The inner loop for one non-ASCII line: on a hit, `results[enc] += r`
      and `hist[enc] += 1`. */
  method ScoreLineLoop(lib: Codecs, t0: Tally, s: string, encs: seq<string>) returns (t: Tally)
    ensures t == ScoreEncodings(lib, t0, s, encs)
  {
    var order, hist, results := t0.order, t0.hist, t0.results;
    for i := 0 to |encs|
      invariant Tally(order, hist, results) == ScoreEncodings(lib, t0, s, encs[..i])
    {
      assert DropLast(encs[..i + 1]) == encs[..i];
      var enc := encs[i];
      var v := TryEncoding(lib, enc, s);
      ghost var cur := Tally(order, hist, results);
      assert ScoreEncodings(lib, t0, s, encs[..i + 1]) == Apply(cur, enc, v);
      if v.Hit? {
        results := results[enc := (if enc in results then results[enc] else "") + v.result];
        if enc !in hist {
          order := order + [enc];
        }
        hist := hist[enc := (if enc in hist then hist[enc] else 0) + 1];
        assert Tally(order, hist, results) == Record(cur, enc, v.result);
      }
    }
    assert encs[..|encs|] == encs;
    t := Tally(order, hist, results);
  }

  // ----- The per-line hit rule -----

  /** Trying the codecs of a duplicate-free `encs` on one line bumps `e`'s
      count by one and appends the hit's text to its sample exactly when `e`
      is one of them and its verdict is a hit; otherwise `e` is untouched. */
  lemma {:induction false} ScoreEncodingsRule(lib: Codecs, t: Tally, line: string, encs: seq<string>, e: string)
    requires Distinct(encs)
    ensures var t' := ScoreEncodings(lib, t, line, encs);
      if e in encs && Judge(lib, e, line).Hit? then
        Count(t', e) == Count(t, e) + 1 && Sample(t', e) == Sample(t, e) + Judge(lib, e, line).result
      else
        Count(t', e) == Count(t, e) && Sample(t', e) == Sample(t, e)
    decreases |encs|
  {
    if encs != [] {
      var init := DropLast(encs);
      assert Distinct(init);
      Rejoin(encs);
      ScoreEncodingsRule(lib, t, line, init, e);
      ApplyEffect(ScoreEncodings(lib, t, line, init), Last(encs), Judge(lib, Last(encs), line), e);
      if e == Last(encs) {
        assert e !in init;
      }
    }
  }

  /** One verdict bumps `e`'s count and extends its sample exactly when it
      is a hit for `e`. */
  lemma ApplyEffect(t: Tally, x: string, v: Verdict, e: string)
    ensures Count(Apply(t, x, v), e) == Count(t, e) + (if x == e && v.Hit? then 1 else 0)
    ensures Sample(Apply(t, x, v), e) == Sample(t, e) + (if x == e && v.Hit? then v.result else "")
  {
  }

  /** The hit rule for one iteration of the outer loop. */
  lemma ScoreLineRule(lib: Codecs, encs: seq<string>, t: Tally, line: string, e: string)
    requires Distinct(encs)
    ensures var t' := ScoreLine(lib, encs, t, line);
      if !IsAsciiText(line) && e in encs && Judge(lib, e, line).Hit? then
        Count(t', e) == Count(t, e) + 1 && Sample(t', e) == Sample(t, e) + Judge(lib, e, line).result
      else
        Count(t', e) == Count(t, e) && Sample(t', e) == Sample(t, e)
  {
    if !IsAsciiText(line) {
      ScoreEncodingsRule(lib, t, line, encs, e);
    }
  }

  // ----- Invariants of the whole pass -----

  lemma RecordValid(t: Tally, e: string, r: string)
    requires Valid(t)
    ensures Valid(Record(t, e, r))
  {
    var t' := Record(t, e, r);
    if e !in t.hist {
      assert forall i :: 0 <= i < |t.order| ==> t.order[i] != e;
    }
    assert forall x :: x in t'.order <==> x in t.order || x == e;
  }

  lemma {:induction false} ScoreEncodingsValid(lib: Codecs, t: Tally, line: string, encs: seq<string>)
    requires Valid(t)
    ensures Valid(ScoreEncodings(lib, t, line, encs))
    ensures forall x :: x in ScoreEncodings(lib, t, line, encs).order ==> x in t.order || x in encs
    ensures t.order <= ScoreEncodings(lib, t, line, encs).order
    decreases |encs|
  {
    if encs != [] {
      var init := DropLast(encs);
      ScoreEncodingsValid(lib, t, line, init);
      var mid := ScoreEncodings(lib, t, line, init);
      assert encs == init + [Last(encs)];
      match Judge(lib, Last(encs), line)
      case Hit(r) => RecordValid(mid, Last(encs), r);
      case Miss =>
    }
  }

  /** After any file: the dictionaries agree (same keys, listed once each in
      `order`, counts at least 1) and only codecs of the catalog appear. */
  lemma {:induction false} ScoreLinesValid(lib: Codecs, encs: seq<string>, lines: seq<string>)
    ensures Valid(ScoreLines(lib, encs, lines))
    ensures forall x :: x in ScoreLines(lib, encs, lines).order ==> x in encs
    decreases |lines|
  {
    if lines != [] {
      ScoreLinesValid(lib, encs, DropLast(lines));
      var prev := ScoreLines(lib, encs, DropLast(lines));
      if !IsAsciiText(Last(lines)) {
        ScoreEncodingsValid(lib, prev, Last(lines), encs);
      }
    }
  }

  /** The lines of the file that contain a non-ASCII character. */
  predicate HasNonAscii(s: string) {
    !IsAsciiText(s)
  }

  /** The texts that codec `e` contributes, line by line in file order: one
      per non-ASCII line on which `e` hits. */
  function HitsOf(lib: Codecs, e: string, lines: seq<string>): seq<string> {
    if lines == [] then []
    else HitsOf(lib, e, DropLast(lines))
         + (if HasNonAscii(Last(lines)) && Judge(lib, e, Last(lines)).Hit?
            then [Judge(lib, e, Last(lines)).result] else [])
  }

  /** Concatenation of a sequence of strings. */
  function Concat(ss: seq<string>): string {
    if ss == [] then "" else Concat(DropLast(ss)) + Last(ss)
  }

  /** What the pass computes, codec by codec: for a codec of a duplicate-free
      catalog, its count is the number of non-ASCII lines it hits and its
      sample is the file-order concatenation of those hits' texts; a codec
      outside the catalog gets no entry. */
  lemma {:induction false} ScoreLinesCounts(lib: Codecs, encs: seq<string>, lines: seq<string>, e: string)
    requires Distinct(encs)
    ensures e in encs ==>
      Count(ScoreLines(lib, encs, lines), e) == |HitsOf(lib, e, lines)|
      && Sample(ScoreLines(lib, encs, lines), e) == Concat(HitsOf(lib, e, lines))
    ensures e !in encs ==>
      e !in ScoreLines(lib, encs, lines).hist && Sample(ScoreLines(lib, encs, lines), e) == ""
    decreases |lines|
  {
    if e !in encs {
      ScoreLinesValid(lib, encs, lines);
    } else if lines != [] {
      var prev := DropLast(lines);
      ScoreLinesCounts(lib, encs, prev, e);
      ScoreLineRule(lib, encs, ScoreLines(lib, encs, prev), Last(lines), e);
      HitsStep(lib, e, lines);
    }
  }

  /** One more line adds at most its own hit to a codec's texts. */
  lemma HitsStep(lib: Codecs, e: string, lines: seq<string>)
    requires lines != []
    ensures var h := HitsOf(lib, e, DropLast(lines));
      if HasNonAscii(Last(lines)) && Judge(lib, e, Last(lines)).Hit? then
        |HitsOf(lib, e, lines)| == |h| + 1
        && Concat(HitsOf(lib, e, lines)) == Concat(h) + Judge(lib, e, Last(lines)).result
      else HitsOf(lib, e, lines) == h
  {
    var h := HitsOf(lib, e, DropLast(lines));
    if HasNonAscii(Last(lines)) && Judge(lib, e, Last(lines)).Hit? {
      var r := Judge(lib, e, Last(lines)).result;
      assert DropLast(h + [r]) == h && Last(h + [r]) == r;
    }
  }

  /** A codec's hits come from distinct non-ASCII lines, so they are at most
      as many as those lines. */
  lemma {:induction false} HitsBound(lib: Codecs, e: string, lines: seq<string>)
    ensures |HitsOf(lib, e, lines)| <= |Filter(lines, HasNonAscii)|
    decreases |lines|
  {
    if lines != [] {
      HitsBound(lib, e, DropLast(lines));
    }
  }

  /** The bounds on the histogram: every codec in it has a count between 1
      and the number of non-ASCII lines, and every codec that hits some
      non-ASCII line is in it. */
  lemma CountBounds(lib: Codecs, encs: seq<string>, lines: seq<string>, e: string)
    requires Distinct(encs)
    ensures var t := ScoreLines(lib, encs, lines);
      e in t.hist ==> 1 <= t.hist[e] <= |Filter(lines, HasNonAscii)|
    ensures e in ScoreLines(lib, encs, lines).hist <==> e in encs && HitsOf(lib, e, lines) != []
  {
    ScoreLinesValid(lib, encs, lines);
    ScoreLinesCounts(lib, encs, lines, e);
    HitsBound(lib, e, lines);
  }

  /** ASCII-only lines change nothing: scoring the file gives the same
      dictionaries as scoring its non-ASCII lines alone. */
  lemma {:induction false} AsciiLinesIgnored(lib: Codecs, encs: seq<string>, lines: seq<string>)
    ensures ScoreLines(lib, encs, lines) == ScoreLines(lib, encs, Filter(lines, HasNonAscii))
    decreases |lines|
  {
    if lines != [] {
      var prev := DropLast(lines);
      AsciiLinesIgnored(lib, encs, prev);
      var f := Filter(prev, HasNonAscii);
      if HasNonAscii(Last(lines)) {
        assert DropLast(f + [Last(lines)]) == f;
      } else {
        assert Filter(lines, HasNonAscii) == f;
      }
    }
  }

  // ----- The example line -----

  /** A line that can serve as the example: non-ASCII, and not all
      whitespace. */
  predicate ExampleCandidate(s: string) {
    !IsAsciiText(s) && Strip(s) != ""
  }

  /** With no candidate line, `example` stays "". */
  lemma {:induction false} ExampleNone(lines: seq<string>)
    requires forall i :: 0 <= i < |lines| ==> !ExampleCandidate(lines[i])
    ensures Example(lines) == ""
    decreases |lines|
  {
    if lines != [] {
      var prev := DropLast(lines);
      assert forall i :: 0 <= i < |prev| ==> prev[i] == lines[i];
      ExampleNone(prev);
      assert !ExampleCandidate(Last(lines));
    }
  }

  /** `example` is the stripped form of the first non-ASCII line whose
      stripped form is non-empty. */
  lemma {:induction false} ExampleFirst(lines: seq<string>, i: nat)
    requires i < |lines| && ExampleCandidate(lines[i])
    requires forall j :: 0 <= j < i ==> !ExampleCandidate(lines[j])
    ensures Example(lines) == Strip(lines[i])
    decreases |lines|
  {
    var prev := DropLast(lines);
    assert forall j :: 0 <= j < |prev| ==> prev[j] == lines[j];
    if i == |lines| - 1 {
      ExampleNone(prev);
    } else {
      ExampleFirst(prev, i);
    }
  }
}
