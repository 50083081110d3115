# srt-deborker, modelled in Dafny

`debork.py` repairs subtitle files that were saved as UTF-8 after being
mis-decoded in a legacy codec ("mojibake"). A character such as `é` then
appears as two characters such as `Ã©`. The tool inverts this by
re-encoding each line in the wrong codec and reading the bytes back as
UTF-8. It can be used in three ways:

- **Guesser.** With neither a file nor a codec on the command line, it
  tries every codec of its catalog on one typed line. It lists the
  readings, or names the codecs that give a typed target text.
- **Detection.** With a file but no codec, it scores every codec:
  - For each line containing non-ASCII text, it re-encodes the line in the
    codec.
  - It keeps only the non-ASCII bytes and decodes them as UTF-8.
  - It counts a hit when the result has exactly half as many characters as
    the line's non-ASCII part.

  It then shows the top-scoring codecs, one per distinct repaired sample,
  with a repaired example line, and asks which codec to use.
- **Repair.** With a file (and a codec given or chosen), it rewrites every
  line with the codec and writes the result to the output file or to
  standard output. A file named as its own output is refused at once.

The model follows the program module by module:

| module | file | what it holds |
|---|---|---|
| `Base` | base.dfy | `Option`, bytes, filtering of sequences, subsequences |
| `Utf8` | utf8.dfy | UTF-8 encoding and strict decoding (section 3 of RFC 3629), with both round trips proved |
| `Text` | text.dfy | `str.isascii`, `str.isspace`, `str.strip`, the non-ASCII characters of a string |
| `AsciiFilter` | nonascii.dfy | `getnonascii` |
| `Catalog` | catalog.dfy | `ENCODINGS`, codecs as a parameter, `s.encode(enc).decode("utf-8")` |
| `Matcher` | matcher.dfy | the body of the scoring loop: one line against one codec |
| `Scorer` | scorer.dfy | the detection pass over the file: histogram, samples, example line |
| `Selector` | selector.dfy | the stable sort and the loop that shows the best codecs |
| `Guesser` | guesser.dfy | the interactive guesser |
| `Repairer` | repairer.dfy | the line-by-line repair |
| `Cli` | cli.dfy | the choice of stage from the arguments, and the self-overwrite guard |

Each loop of the program is a method, proved equal to a specification
function written as a left fold over the loop's input: `GetNonAscii` to
`NonAscii`, `Score` to `ScoreLines` and `Example`, `ScoreLineLoop` to
`ScoreEncodings`, `SelectBest` to `Select` (through the fold `WalkOver`),
`ListLoop` to `ListAll`, `MatchLoop` to `MatchAll`, and `Repair` to
`RepairAll`. The loop-free steps are methods proved equal to case
splits: `TryEncoding` to `Judge`, `GuessEncoding` to `GuessReport`, and
`Debork` to `Outcome`. The lemmas prove what the program promises about those functions.

Python's codecs are a parameter, `Codecs`: two total functions
`encode(name, text)` and `decode(name, bytes)`, which return `None` where
Python raises. Each `try`/`except` becomes a branch on that `Option`. The
dictionary `hist` keeps its insertion order, which is the order of first hits.
This order matters, because the stable sort breaks ties by it. The model
carries it as `Tally.order` next to the maps `hist` and `results`.

An empty histogram is not handled: `best[0][1]` (debork.py:119) raises
`IndexError` and the program ends before the repair stage. The model
follows the code:

- `Select` returns `Failed([], NoScores)`.
- `Selector.AllAsciiFails` and `Cli.AsciiFileStops` prove that this is what
  happens to a file without a single non-ASCII line.

## Model

| member | source | states |
|---|---|---|
| `AsciiFilter.GetNonAscii` | debork.py:49-55 | the loop returns exactly `NonAscii(bstr)`, the bytes of value 128 or more in order |
| `AsciiFilter.NonAsciiMembers` | debork.py:49-55 | every output byte is at least 128, and a byte occurs in the output exactly when it occurs in the input and is at least 128 |
| `AsciiFilter.NonAsciiShape` | debork.py:49-55 | the output is an order-preserving subsequence of the input; its length is the input's length minus the number of ASCII bytes; empty input gives empty output |
| `AsciiFilter.NonAsciiAppend` | debork.py:49-55 | the filter distributes over concatenation |
| `AsciiFilter.NonAsciiOfHigh` | debork.py:49-55 | input without ASCII bytes passes unchanged |
| `AsciiFilter.NonAsciiIdempotent` | debork.py:49-55 | filtering twice equals filtering once |
| `AsciiFilter.NonAsciiIsFilter` | debork.py:49-55 | the bytes kept are the generic order-preserving filter of the input by "value 128 or more" |
| `Utf8.DecodeEncode` | debork.py:106-107 | decoding the UTF-8 encoding of any string gives the string back |
| `Utf8.EncodeDecode` | debork.py:111-112 | bytes that decode as UTF-8 are the encoding of their decoding |
| `Text.Strip` | debork.py:71 | `strip` gives a slice of its argument with only whitespace cut from either side, and its first and last characters are not whitespace |
| `Text.StripBlank` | debork.py:71 | a string strips to "" exactly when it is all whitespace |
| `Text.StripIdempotent` | debork.py:98 | stripping twice equals stripping once |
| `Text.AsciiIffNoNonAscii` | debork.py:96 | `isascii()` holds exactly when the string has no character from U+0080 up |
| `Text.NonAsciiCharsIsFilter` | debork.py:96 | the non-ASCII characters of a string are its order-preserving filter by "code point U+0080 or more" |
| `Matcher.TryEncoding` | debork.py:103-117 | one pass of the inner loop gives the verdict `Judge` |
| `Matcher.OrigDecodes` | debork.py:106-107 | the non-ASCII bytes of a line's UTF-8 encoding always decode, to the line's non-ASCII characters in order, so `orig` never raises |
| `Matcher.NonAsciiOfUtf8` | debork.py:106 | the non-ASCII bytes of a line's UTF-8 encoding are the UTF-8 encoding of its non-ASCII characters |
| `Matcher.JudgeRule` | debork.py:111-115 | a hit exactly when the line encodes in the codec, the non-ASCII bytes decode as UTF-8, and the line's non-ASCII count is twice the decoded length; the hit carries that decoded text |
| `Matcher.HitShape` | debork.py:112-113 | a hit's text contains only non-ASCII characters; it is half as long as the line's non-ASCII part, and not empty for a non-ASCII line |
| `Matcher.JudgeOfRepairable` | debork.py:111-113 | when a line's repair with a codec succeeds, the verdict is a hit exactly when the repaired line has half as many non-ASCII characters, and the hit's text is those characters |
| `Scorer.Score` | debork.py:89-117 | the nested loops leave the dictionaries `ScoreLines(ENCODINGS, lines)` and the example line `Example(lines)` |
| `Scorer.ScoreLineLoop` | debork.py:99-117 | the inner loop over the codecs, for one non-ASCII line, leaves the dictionaries `ScoreEncodings` of that line, whose effect on each codec `Scorer.ScoreEncodingsRule` states |
| `Scorer.ScoreEncodingsRule` | debork.py:99-117 | trying distinct codecs on one line raises `e`'s count by one and appends the hit's text to its sample exactly on a hit, and leaves `e` untouched otherwise |
| `Scorer.ScoreLineRule` | debork.py:96-117 | the same per-line rule for one iteration of the outer loop, with ASCII lines changing nothing |
| `Scorer.ScoreLinesValid` | debork.py:90-117 | after the pass, `hist` and `results` have the same keys, each listed once in insertion order, each count is at least 1, and only catalog codecs appear |
| `Scorer.ScoreLinesCounts` | debork.py:113-115 | a codec's count is the number of non-ASCII lines it hits; its sample is the file-order concatenation of those hits' texts; a codec outside the catalog has no entry |
| `Scorer.CountBounds` | debork.py:113-115 | every count lies between 1 and the number of non-ASCII lines, and a codec has an entry exactly when it hits some line |
| `Scorer.AsciiLinesIgnored` | debork.py:96 | scoring the file gives the same dictionaries as scoring only its non-ASCII lines |
| `Scorer.ExampleFirst` | debork.py:96-98 | `example` is the stripped form of the first non-ASCII line whose stripped form is not empty |
| `Scorer.ExampleNone` | debork.py:93-98 | with no such line, `example` stays "" |
| `Selector.SortFacts` | debork.py:118 | the sort orders by score, high to low; it is a permutation of the entries, and for every score it keeps the entries of that score in their original order |
| `Selector.BestPrefix` | debork.py:118-119 | the sorted list starts with the top-scoring codecs in insertion order, `best_score` is the maximum count, and the entry after them scores less |
| `Selector.SelectBest` | debork.py:118-128 | the selector's loop, with `seen`, `break` and the repair of the example, gives `Select` |
| `Selector.WalkBest` | debork.py:121-128 | the loop ends with what the walk over the top group gives, or stops at the next entry with the same lines shown |
| `Selector.WalkGroup` | debork.py:121-126 | over the top group, `seen` is the list of shown samples and covers every entry; a codec is shown exactly when no earlier one had its sample; a crash happens at the first codec with a new sample whose repair of the example fails, every codec before it was shown exactly when it was the first with its sample, and nothing from it on was shown |
| `Selector.TopGroupFacts` | debork.py:118-122 | no count exceeds the top score; the top group is duplicate-free and holds exactly the codecs that reach it |
| `Selector.SelectShows` | debork.py:118-128 | every codec shown has the maximal count; codecs are shown in insertion order; no two have the same sample; each is shown with the example and its repair; unless the repair raises, exactly the first codec of each sample is shown; a raise happens at the first top codec with a new sample whose repair fails, after exactly the first-of-sample top codecs before it were shown |
| `Selector.SelectEmpty` | debork.py:118-119 | the selector fails at `best[0]` exactly when the histogram is empty |
| `Selector.SelectSingleTop` | debork.py:118-128 | a single top codec that repairs the example is the one line shown |
| `Selector.AllAsciiFails` | debork.py:89-119 | a file without a non-ASCII line leaves the histogram empty, so the selector fails |
| `Guesser.GuessEncoding` | debork.py:68-83 | the guesser's two loops give `GuessReport` |
| `Guesser.ListLoop` | debork.py:72-76 | the listing loop, skipping codecs that raise, returns `ListAll`, whose contents `Guesser.ListAllSpec` states |
| `Guesser.MatchLoop` | debork.py:78-83 | the matching loop, skipping codecs that raise, returns `MatchAll`, whose contents `Guesser.MatchAllSpec` states |
| `Guesser.ListAllSpec` | debork.py:72-76 | the listing names exactly the catalog codecs that decode the bytes, in catalog order, each with its decoding |
| `Guesser.MatchAllSpec` | debork.py:78-83 | the matches are exactly the catalog codecs whose decoding is the target, in catalog order |
| `Guesser.ListedRule` | debork.py:71-76 | the listing is chosen exactly when the target is all whitespace; the listed codecs form a subsequence of the catalog; a codec is listed exactly when it decodes the bytes, with its decoding shown |
| `Guesser.MatchedRule` | debork.py:77-83 | for a non-blank target, the named codecs form a subsequence of the catalog, and a codec is named exactly when its decoding equals the stripped target |
| `Guesser.MatchesAreListed` | debork.py:72-83 | the matches for a target are the listed codecs whose decoding is that target |
| `Guesser.PaddedNeverMatches` | debork.py:80 | the decoded side is not stripped, so a decoding that starts or ends with whitespace never matches |
| `Repairer.Repair` | debork.py:137-138 | the repair loop gives `RepairAll`, stopping at the first line that raises |
| `Repairer.RepairAllSpec` | debork.py:137-138 | the lines written are the repairs of a prefix of the file, in order; a completed run covers every line; a stopped run stops at a line whose repair fails |
| `Repairer.RepairCompletes` | debork.py:137-138 | a run completes exactly when every line can be repaired, and then writes each line's repair |
| `Repairer.RepairStops` | debork.py:137-138 | a run stops at line k exactly when k is the first line that fails, with the repairs of lines 0 to k-1 written |
| `Cli.Debork` | debork.py:64-138 | the program body, stage by stage, gives `Outcome` |
| `Cli.GuardRefuses` | debork.py:64-66 | the arguments are refused exactly when a non-empty input path equals the output path, and then no file is opened and no stage runs |
| `Cli.NeverOverwritesInput` | debork.py:64-66 | the only file ever opened for writing is the named output, which differs from the input |
| `Cli.Stages` | debork.py:68-138 | the guesser runs exactly without a file and a codec; detection runs exactly with a file but no codec; repair runs with a file unless detection failed; a codec without a file does nothing |
| `Cli.StageResults` | debork.py:68-138 | each stage reached computes its report; repair uses the given codec, or else the typed one |
| `Cli.AsciiFileStops` | debork.py:89-138 | detection on a file without a non-ASCII line fails, and nothing is repaired |

## Left out

- Argument parsing, the prompts, and printing. The parsed arguments are
  the value `Args`, and the answers typed at the three prompts are
  `Console`. What would be printed is returned as values: `Report`, the
  `Pick`s of a `Selection`, and the `written` lines of a `Run`.
- `OutputWriter` and the file handles. The files opened are recorded as
  `Opening`s in order. The lines written are a `seq<string>`; the output
  text is their concatenation. Buffering and closing are not modelled.
- The encoding of the output sink. The output file is opened without an
  encoding argument (debork.py:32), so it uses the platform's default
  encoding, and standard output has its own. Every write and every print
  is assumed to succeed:
  - `Repairer.RepairCompletes` and `Repairer.RepairStops` hold for a sink
    that accepts every string. A `UnicodeEncodeError` from `out.write`
    (debork.py:138) would stop the run at a line whose repair succeeded.
  - `Guesser.ListedRule` and `Guesser.ListAllSpec` hold for a console that
    accepts every string. The bare `except:` at debork.py:75 also catches a
    failing `print`, and the codec would then be left out of the listing.
  - A failing `print` in the matching guesser (debork.py:81) would skip
    the codec in the same way. One in the selector (debork.py:126) would
    stop the program. Neither is modelled.
- Reading the subtitle file. Its lines are given as a `seq<string>`, read
  the same way on both passes. Python decodes the file as UTF-8 a chunk
  at a time, so an invalid byte raises when the reader reaches it,
  possibly after earlier lines were scored, or repaired and written.
  Decoding errors of the file are not modelled.
- The codec tables of Python's standard library. `Codecs` leaves them
  uninterpreted. A codec name Python does not know (`LookupError`) is
  treated as a failed call:
  - For the guesser and the repair prompt this matches the code.
  - In the scorer, `LookupError` would escape the `except` clause. Every
    name in `ENCODINGS` is a codec of Python's standard library, so that
    case does not arise there.
- Distinctness of `ENCODINGS`: the 94 names are pairwise different, but
  the model does not prove this. The lemmas that need it
  (`Scorer.ScoreEncodingsRule`, `Scorer.ScoreLineRule`,
  `Scorer.ScoreLinesCounts`, `Scorer.CountBounds`) take a duplicate-free
  catalog as a hypothesis.
- Lone surrogates: Dafny characters are Unicode scalar values, so a line
  always encodes as UTF-8. Python's `str` can hold lone surrogates, which
  raise `UnicodeEncodeError`.
- The `struct.iter_unpack` mechanics of `getnonascii`: the loop walks the
  byte sequence by index.
- Paths are compared as strings, as the guard compares them. Two spellings
  of the same file are not recognised as equal.
