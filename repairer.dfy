/** The batch repairer: every line of the subtitle file, re-encoded in the
    chosen codec and read back as UTF-8, is written out in order. The first
    line that cannot be repaired raises, so the run stops there with the
    lines before it already written. */
module Repairer {
  import opened Base
  import opened Catalog

  /** A run over the file: all lines repaired, or stopped at line `at` with
      the repairs of the lines before it written. */
  datatype Run = Completed(written: seq<string>) | Aborted(written: seq<string>, at: nat)

  /** The run over `lines` with codec `enc`. */
  function RepairAll(lib: Codecs, enc: string, lines: seq<string>): Run {
    if lines == [] then Completed([])
    else match RepairAll(lib, enc, DropLast(lines))
         case Aborted(w, k) => Aborted(w, k)
         case Completed(w) =>
           match Recode(lib, enc, Last(lines))
           case None => Aborted(w, |lines| - 1)
           case Some(fixed) => Completed(w + [fixed])
  }

  /** The repair loop: write each repaired line, stopping at the first one
      that raises. */
  method Repair(lib: Codecs, enc: string, lines: seq<string>) returns (run: Run)
    ensures run == RepairAll(lib, enc, lines)
  {
    var written: seq<string> := [];
    for i := 0 to |lines|
      invariant RepairAll(lib, enc, lines[..i]) == Completed(written)
    {
      assert DropLast(lines[..i + 1]) == lines[..i];
      var fixed := Recode(lib, enc, lines[i]);
      if fixed.None? {
        RepairSettled(lib, enc, lines, i + 1);
        return Aborted(written, i);
      }
      written := written + [fixed.value];
    }
    assert lines[..|lines|] == lines;
    run := Completed(written);
  }

  /** Once a run has stopped, later lines change nothing. */
  lemma {:induction false} RepairSettled(lib: Codecs, enc: string, lines: seq<string>, i: nat)
    requires i <= |lines| && RepairAll(lib, enc, lines[..i]).Aborted?
    ensures RepairAll(lib, enc, lines) == RepairAll(lib, enc, lines[..i])
    decreases |lines| - i
  {
    if i < |lines| {
      assert DropLast(lines[..i + 1]) == lines[..i];
      RepairSettled(lib, enc, lines, i + 1);
    } else {
      assert lines[..i] == lines;
    }
  }

  /** `written` holds, in order, the repairs of the first `|written|` lines. */
  ghost predicate RepairedPrefix(lib: Codecs, enc: string, lines: seq<string>, written: seq<string>) {
    |written| <= |lines| &&
    forall i :: 0 <= i < |written| ==> Recode(lib, enc, lines[i]) == Some(written[i])
  }

  /** What a run writes: the repairs of a prefix of the file, line by line;
      a completed run covers every line, a stopped run stops at the first
      line whose repair fails. */
  lemma {:induction false} RepairAllSpec(lib: Codecs, enc: string, lines: seq<string>)
    ensures var run := RepairAll(lib, enc, lines);
      && RepairedPrefix(lib, enc, lines, run.written)
      && (run.Completed? ==> |run.written| == |lines|)
      && (run.Aborted? ==> run.at == |run.written| < |lines| && Recode(lib, enc, lines[run.at]).None?)
    decreases |lines|
  {
    if lines != [] {
      var init := DropLast(lines);
      RepairAllSpec(lib, enc, init);
      assert forall i :: 0 <= i < |init| ==> init[i] == lines[i];
    }
  }

  /** A run completes exactly when every line can be repaired, and then
      writes each line's repair. */
  lemma RepairCompletes(lib: Codecs, enc: string, lines: seq<string>)
    ensures RepairAll(lib, enc, lines).Completed? <==>
      forall i :: 0 <= i < |lines| ==> Recode(lib, enc, lines[i]).Some?
    ensures RepairAll(lib, enc, lines).Completed? ==>
      |RepairAll(lib, enc, lines).written| == |lines| &&
      forall i :: 0 <= i < |lines| ==> Recode(lib, enc, lines[i]) == Some(RepairAll(lib, enc, lines).written[i])
  {
    RepairAllSpec(lib, enc, lines);
  }

  /** A run stops at line `k` exactly when `k` is the first line whose
      repair fails, and it has then written the repairs of lines 0 to k-1. */
  lemma RepairStops(lib: Codecs, enc: string, lines: seq<string>, k: nat)
    ensures RepairAll(lib, enc, lines).Aborted? && RepairAll(lib, enc, lines).at == k <==>
      k < |lines| && Recode(lib, enc, lines[k]).None?
      && forall i :: 0 <= i < k ==> Recode(lib, enc, lines[i]).Some?
    ensures RepairAll(lib, enc, lines).Aborted? ==>
      var run := RepairAll(lib, enc, lines);
      run.at < |lines| && |run.written| == run.at && forall i :: 0 <= i < run.at ==> Recode(lib, enc, lines[i]) == Some(run.written[i])
  {
    RepairAllSpec(lib, enc, lines);
  }
}
