/** The command line: `debork.py [-e ENCODING] [-o OUTPUT] [srt]`. The
    arguments choose among the guesser (no file, no codec), detection (a
    file but no codec) and repair (a file); repair after detection asks for
    the codec. A file given as its own output is refused before anything is
    opened. */
module Cli {
  import opened Base
  import opened Catalog
  import opened Scorer
  import opened Selector
  import opened Guesser
  import opened Repairer

  /** The parsed arguments; `None` is an absent option. */
  datatype Args = Args(encoding: Option<string>, output: Option<string>, srt: Option<string>)

  /** The three answers typed at the prompts: the original text and the
      target text of the guesser, and the codec asked for after detection. */
  datatype Console = Console(orig: string, target: string, choice: string)

  datatype Mode = Read | Write
  datatype Opening = Opening(path: string, mode: Mode)

  /** What one invocation does: whether it refused the arguments, the files
      it opened in order, and the outcome of each stage it reached. */
  datatype Session = Session(
    refused: bool,
    files: seq<Opening>,
    guessed: Option<Report>,
    selected: Option<Selection>,
    repaired: Option<Run>)

  /** Python truthiness of an optional string: present and not empty. */
  predicate Given(o: Option<string>) {
    o.Some? && o.value != ""
  }

  /** The guard: a file named as its own output. */
  predicate SelfOverwrite(args: Args) {
    Given(args.srt) && args.output == args.srt
  }

  /** The files the repair stage opens: the input for reading, then the
      output for writing when one is named (otherwise standard output). */
  function RepairOpenings(args: Args): seq<Opening>
    requires Given(args.srt)
  {
    [Opening(args.srt.value, Read)] + if Given(args.output) then [Opening(args.output.value, Write)] else []
  }

  /** The codec the repair stage uses: the one given, or the answer to the
      prompt. */
  function ChosenEncoding(args: Args, console: Console): string {
    if Given(args.encoding) then args.encoding.value else console.choice
  }

  /** The detection stage: the selection over the scores of the file. */
  function Detection(lib: Codecs, file: seq<string>): Selection {
    Select(lib, ScoreLines(lib, ENCODINGS, file), Example(file))
  }

  /** One invocation on the subtitle file's lines `file`. A failed selection
      raises, which ends the program before the repair stage. */
  function Outcome(lib: Codecs, args: Args, console: Console, file: seq<string>): Session {
    if SelfOverwrite(args) then Session(true, [], None, None, None)
    else if !Given(args.srt) then
      var guessed := if !Given(args.encoding) then Some(GuessReport(lib, console.orig, console.target)) else None;
      Session(false, [], guessed, None, None)
    else
      var repair := Some(RepairAll(lib, ChosenEncoding(args, console), file));
      if Given(args.encoding) then Session(false, RepairOpenings(args), None, None, repair)
      else
        var sel := Detection(lib, file);
        var detect := [Opening(args.srt.value, Read)];
        if sel.Failed? then Session(false, detect, None, Some(sel), None)
        else Session(false, detect + RepairOpenings(args), None, Some(sel), repair)
  }

  /** The body of the program, stage by stage. */
  method Debork(lib: Codecs, args: Args, console: Console, file: seq<string>) returns (s: Session)
    ensures s == Outcome(lib, args, console, file)
  {
    if Given(args.srt) && args.srt == args.output {
      return Session(true, [], None, None, None);
    }
    if !Given(args.srt) {
      var guessed: Option<Report> := None;
      if !Given(args.encoding) {
        var report := GuessEncoding(lib, console.orig, console.target);
        guessed := Some(report);
      }
      return Session(false, [], guessed, None, None);
    }
    var path := args.srt.value;
    var files: seq<Opening> := [];
    var selected: Option<Selection> := None;
    if !Given(args.encoding) {
      files := [Opening(path, Read)];
      var tally, example := Score(lib, file);
      var sel := SelectBest(lib, tally, example);
      assert sel == Detection(lib, file);
      selected := Some(sel);
      if sel.Failed? {
        return Session(false, files, None, selected, None);
      }
    }
    var encoding := if Given(args.encoding) then args.encoding.value else "";
    if encoding == "" {
      encoding := console.choice;
    }
    assert encoding == ChosenEncoding(args, console);
    files := files + [Opening(path, Read)];
    if Given(args.output) {
      files := files + [Opening(args.output.value, Write)];
    }
    assert files == (if Given(args.encoding) then [] else [Opening(path, Read)]) + RepairOpenings(args);
    assert selected == if Given(args.encoding) then None else Some(Detection(lib, file));
    var run := Repair(lib, encoding, file);
    s := Session(false, files, None, selected, Some(run));
  }

  /** The guard: a file named as its own output is refused, and nothing is
      opened, read or run. */
  lemma GuardRefuses(lib: Codecs, args: Args, console: Console, file: seq<string>)
    ensures Outcome(lib, args, console, file).refused <==> SelfOverwrite(args)
    ensures SelfOverwrite(args) ==> Outcome(lib, args, console, file) == Session(true, [], None, None, None)
  {
  }

  /** The input file is never opened for writing: the only file opened for
      writing is the named output, and it differs from the input. */
  lemma NeverOverwritesInput(lib: Codecs, args: Args, console: Console, file: seq<string>, k: nat)
    requires k < |Outcome(lib, args, console, file).files|
    requires Outcome(lib, args, console, file).files[k].mode == Write
    ensures Given(args.output) && Given(args.srt)
    ensures Outcome(lib, args, console, file).files[k].path == args.output.value != args.srt.value
  {
    if SelfOverwrite(args) {
    } else if !Given(args.srt) {
    } else if Given(args.encoding) {
    } else {
      var sel := Detection(lib, file);
    }
  }

  /** Which stages run: the guesser exactly without a file and a codec,
      detection exactly with a file but no codec, and repair with a file
      unless detection failed; a codec without a file does nothing. */
  lemma Stages(lib: Codecs, args: Args, console: Console, file: seq<string>)
    ensures var s := Outcome(lib, args, console, file);
      && (s.guessed.Some? <==> !Given(args.encoding) && !Given(args.srt))
      && (s.selected.Some? <==> !SelfOverwrite(args) && !Given(args.encoding) && Given(args.srt))
      && (s.repaired.Some? <==>
            !SelfOverwrite(args) && Given(args.srt) && (Given(args.encoding) || s.selected.value.Shown?))
      && (Given(args.encoding) && !Given(args.srt) ==> s == Session(false, [], None, None, None))
  {
    if SelfOverwrite(args) {
    } else if !Given(args.srt) {
    } else if Given(args.encoding) {
    } else {
      var sel := Detection(lib, file);
    }
  }

  /** What each stage computes: the guesser's report on the typed texts,
      the selection over the scores of the file, and the repair of the file
      with the given codec or, after detection, the typed one. */
  lemma StageResults(lib: Codecs, args: Args, console: Console, file: seq<string>)
    ensures var s := Outcome(lib, args, console, file);
      && (s.guessed.Some? ==> s.guessed.value == GuessReport(lib, console.orig, console.target))
      && (s.selected.Some? ==> s.selected.value == Detection(lib, file))
      && (s.repaired.Some? ==>
            s.repaired.value == RepairAll(lib, if Given(args.encoding) then args.encoding.value else console.choice, file))
  {
    if SelfOverwrite(args) {
    } else if !Given(args.srt) {
    } else if Given(args.encoding) {
    } else {
      var sel := Detection(lib, file);
    }
  }

  /** Detection on a file with no non-ASCII line fails at the empty
      histogram, and nothing is repaired. */
  lemma AsciiFileStops(lib: Codecs, args: Args, console: Console, file: seq<string>)
    requires Given(args.srt) && !SelfOverwrite(args) && !Given(args.encoding)
    requires forall i :: 0 <= i < |file| ==> Text.IsAsciiText(file[i])
    ensures Outcome(lib, args, console, file) ==
      Session(false, [Opening(args.srt.value, Read)], None, Some(Failed([], NoScores)), None)
  {
    AllAsciiFails(lib, ENCODINGS, file);
  }
}
