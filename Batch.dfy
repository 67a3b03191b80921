/**
 * The batch loop of `main`: which candidates are skipped, converted or
 * counted as failures, the three counters and the exit status.
 *
 * The output directory is the set of names present in it. Whether
 * `process_image` succeeds on a file is an oracle `converts` keyed by the
 * input name; a success leaves the output name present, a failure leaves
 * the directory as it was.
 */
module Batch {
  import opened Wrappers
  import opened Names
  import opened Listing
  import opened Options

  /** What happened to one candidate. */
  datatype Outcome = Processed | Skipped | Failed

  /** The per-file line `main` prints: input name, output name, outcome. */
  datatype FileReport = FileReport(input: string, output: string, outcome: Outcome)

  /** Exit status of a run whose input directory is missing or where some file failed. */
  const FailureExitCode := 1

  /** The fate of one candidate, given the names already in the output directory. */
  function Decide(name: string, present: set<string>, overwrite: bool, converts: string -> bool): Outcome
  {
    if OutputName(name) in present && !overwrite then Skipped
    else if converts(name) then Processed
    else Failed
  }

  /** The output directory after the candidates `cands` have been handled in order. */
  function Present(cands: seq<string>, existing: set<string>, overwrite: bool, converts: string -> bool): (p: set<string>)
    ensures existing <= p
  {
    if cands == [] then existing
    else
      var prefix := cands[..|cands| - 1];
      var last := cands[|cands| - 1];
      var before := Present(prefix, existing, overwrite, converts);
      if Decide(last, before, overwrite, converts) == Processed then before + {OutputName(last)} else before
  }

  /** The per-file reports for the candidates `cands`, one each, in order. */
  function Reports(cands: seq<string>, existing: set<string>, overwrite: bool, converts: string -> bool): (r: seq<FileReport>)
    ensures |r| == |cands|
  {
    if cands == [] then []
    else
      var prefix := cands[..|cands| - 1];
      var last := cands[|cands| - 1];
      var before := Present(prefix, existing, overwrite, converts);
      var rest := Reports(prefix, existing, overwrite, converts);
      var r := rest + [FileReport(last, OutputName(last), Decide(last, before, overwrite, converts))];
      r
  }

  /** Report i is about candidate i: it carries that candidate's input name and output name. */
  lemma {:induction false} ReportNames(cands: seq<string>, existing: set<string>, overwrite: bool, converts: string -> bool)
    ensures var r := Reports(cands, existing, overwrite, converts);
            forall i :: 0 <= i < |r| ==> r[i].input == cands[i] && r[i].output == OutputName(cands[i])
  {
    if cands != [] {
      var prefix := cands[..|cands| - 1];
      ReportNames(prefix, existing, overwrite, converts);
      assert forall i :: 0 <= i < |prefix| ==> cands[i] == prefix[i];
    }
  }

  /** Handling candidate i extends the reports by its own and adds its output name only when it is converted. */
  lemma Step(cands: seq<string>, existing: set<string>, overwrite: bool, converts: string -> bool, i: nat)
    requires i < |cands|
    ensures var before := Present(cands[..i], existing, overwrite, converts);
            var o := Decide(cands[i], before, overwrite, converts);
            && Reports(cands[..i + 1], existing, overwrite, converts)
                 == Reports(cands[..i], existing, overwrite, converts) + [FileReport(cands[i], OutputName(cands[i]), o)]
            && Present(cands[..i + 1], existing, overwrite, converts)
                 == if o == Processed then before + {OutputName(cands[i])} else before
  {
    assert cands[..i + 1][..i] == cands[..i] && cands[..i + 1][i] == cands[i];
  }

  /** Appending one report adds one to the count of its outcome and leaves the other two counts alone. */
  lemma CountAppend(rs: seq<FileReport>, x: FileReport)
    ensures Count(rs + [x], Processed) == Count(rs, Processed) + (if x.outcome == Processed then 1 else 0)
    ensures Count(rs + [x], Skipped) == Count(rs, Skipped) + (if x.outcome == Skipped then 1 else 0)
    ensures Count(rs + [x], Failed) == Count(rs, Failed) + (if x.outcome == Failed then 1 else 0)
  {
    assert (rs + [x])[..|rs|] == rs;
  }

  /** How many reports have outcome o. */
  function Count(rs: seq<FileReport>, o: Outcome): (n: nat)
    ensures n <= |rs|
  {
    if rs == [] then 0
    else Count(rs[..|rs| - 1], o) + (if rs[|rs| - 1].outcome == o then 1 else 0)
  }

  /** No report has outcome o exactly when the count of o is zero, and all have it exactly when the count is the length. */
  lemma {:induction false} CountExtremes(rs: seq<FileReport>, o: Outcome)
    ensures Count(rs, o) == 0 <==> forall i :: 0 <= i < |rs| ==> rs[i].outcome != o
    ensures Count(rs, o) == |rs| <==> forall i :: 0 <= i < |rs| ==> rs[i].outcome == o
  {
    if rs != [] {
      var prefix := rs[..|rs| - 1];
      CountExtremes(prefix, o);
      assert forall i :: 0 <= i < |prefix| ==> prefix[i] == rs[i];
    }
  }

  /** Every report has exactly one outcome, so the three counts add up to the number of reports. */
  lemma {:induction false} CountsPartition(rs: seq<FileReport>)
    ensures Count(rs, Processed) + Count(rs, Skipped) + Count(rs, Failed) == |rs|
  {
    if rs != [] {
      CountsPartition(rs[..|rs| - 1]);
    }
  }

  /**
   * The rule for candidate i: skipped exactly when its output name is
   * already present and overwriting is off; otherwise converted or failed
   * as the oracle says.
   */
  lemma {:induction false} OutcomeRule(cands: seq<string>, existing: set<string>, overwrite: bool, converts: string -> bool, i: nat)
    requires i < |cands|
    ensures var before := Present(cands[..i], existing, overwrite, converts);
            var o := Reports(cands, existing, overwrite, converts)[i].outcome;
            && (o == Skipped <==> OutputName(cands[i]) in before && !overwrite)
            && (o == Processed <==> !(OutputName(cands[i]) in before && !overwrite) && converts(cands[i]))
            && (o == Failed <==> !(OutputName(cands[i]) in before && !overwrite) && !converts(cands[i]))
  {
    var prefix := cands[..|cands| - 1];
    if i < |cands| - 1 {
      OutcomeRule(prefix, existing, overwrite, converts, i);
      assert prefix[..i] == cands[..i];
    } else {
      assert cands[..i] == prefix;
    }
  }

  /** The output directory only gains names as the batch goes on. */
  lemma {:induction false} PresentGrows(cands: seq<string>, existing: set<string>, overwrite: bool, converts: string -> bool, i: nat)
    requires i <= |cands|
    ensures Present(cands[..i], existing, overwrite, converts) <= Present(cands, existing, overwrite, converts)
  {
    if i < |cands| {
      var prefix := cands[..|cands| - 1];
      PresentGrows(prefix, existing, overwrite, converts, i);
      assert prefix[..i] == cands[..i];
    } else {
      assert cands[..i] == cands;
    }
  }

  /** A run adds no name to the output directory but the output names of its candidates. */
  lemma {:induction false} PresentOnlyAddsOutputs(cands: seq<string>, existing: set<string>, overwrite: bool,
                                                 converts: string -> bool, x: string)
    requires x in Present(cands, existing, overwrite, converts)
    ensures x in existing || exists i :: 0 <= i < |cands| && OutputName(cands[i]) == x
  {
    if cands != [] {
      var prefix := cands[..|cands| - 1];
      if x in Present(prefix, existing, overwrite, converts) {
        PresentOnlyAddsOutputs(prefix, existing, overwrite, converts, x);
        if x !in existing {
          var i :| 0 <= i < |prefix| && OutputName(prefix[i]) == x;
          assert cands[i] == prefix[i];
        }
      } else {
        assert OutputName(cands[|cands| - 1]) == x;
      }
    }
  }

  /** After a run, the output of every candidate that did not fail is present. */
  lemma NonFailedOutputPresent(cands: seq<string>, existing: set<string>, overwrite: bool, converts: string -> bool, i: nat)
    requires i < |cands|
    requires Reports(cands, existing, overwrite, converts)[i].outcome != Failed
    ensures OutputName(cands[i]) in Present(cands, existing, overwrite, converts)
  {
    OutcomeRule(cands, existing, overwrite, converts, i);
    PresentGrows(cands, existing, overwrite, converts, i);
    PresentGrows(cands, existing, overwrite, converts, i + 1);
    var upto := cands[..i + 1];
    assert upto[..i] == cands[..i] && upto[i] == cands[i];
  }

  /**
   * Running the batch again on the same candidates without overwriting
   * skips every file that did not fail the first time, whatever the second
   * conversion would do.
   */
  lemma SecondRunSkips(cands: seq<string>, existing: set<string>, overwrite: bool, converts: string -> bool,
                       again: string -> bool, i: nat)
    requires i < |cands|
    requires Reports(cands, existing, overwrite, converts)[i].outcome != Failed
    ensures var after := Present(cands, existing, overwrite, converts);
            Reports(cands, after, false, again)[i].outcome == Skipped
  {
    var after := Present(cands, existing, overwrite, converts);
    NonFailedOutputPresent(cands, existing, overwrite, converts, i);
    OutcomeRule(cands, after, false, again, i);
  }

  /** A first run without failures is followed by a second run that skips everything. */
  lemma SecondRunSkipsAll(cands: seq<string>, existing: set<string>, overwrite: bool, converts: string -> bool,
                          again: string -> bool)
    requires Count(Reports(cands, existing, overwrite, converts), Failed) == 0
    ensures var second := Reports(cands, Present(cands, existing, overwrite, converts), false, again);
            && Count(second, Skipped) == |cands|
            && Count(second, Processed) == 0
            && Count(second, Failed) == 0
  {
    var second := Reports(cands, Present(cands, existing, overwrite, converts), false, again);
    EverySecondSkipped(cands, existing, overwrite, converts, again);
    CountExtremes(second, Skipped);
    CountsPartition(second);
  }

  /** The per-file half of `SecondRunSkipsAll`: each report of the second run is a skip. */
  lemma EverySecondSkipped(cands: seq<string>, existing: set<string>, overwrite: bool, converts: string -> bool,
                           again: string -> bool)
    requires Count(Reports(cands, existing, overwrite, converts), Failed) == 0
    ensures var second := Reports(cands, Present(cands, existing, overwrite, converts), false, again);
            forall i :: 0 <= i < |second| ==> second[i].outcome == Skipped
  {
    var first := Reports(cands, existing, overwrite, converts);
    var second := Reports(cands, Present(cands, existing, overwrite, converts), false, again);
    CountExtremes(first, Failed);
    forall i | 0 <= i < |second|
      ensures second[i].outcome == Skipped
    {
      assert first[i].outcome != Failed;
      SecondRunSkips(cands, existing, overwrite, converts, again, i);
    }
  }

  /** With overwriting on, what was in the output directory before makes no difference. */
  lemma {:induction false} OverwriteIgnoresExisting(cands: seq<string>, e1: set<string>, e2: set<string>,
                                                   converts: string -> bool)
    ensures Reports(cands, e1, true, converts) == Reports(cands, e2, true, converts)
    ensures Count(Reports(cands, e1, true, converts), Skipped) == 0
  {
    if cands != [] {
      OverwriteIgnoresExisting(cands[..|cands| - 1], e1, e2, converts);
    }
  }

  /**
   * Two inputs with the same stem share an output name: the first in order
   * is converted and the second is skipped, its output now being present.
   */
  lemma SameStemSkipsLater()
    ensures var r := Reports(["a.jpg", "a.png"], {}, false, _ => true);
            r == [FileReport("a.jpg", "a.webp", Processed), FileReport("a.png", "a.webp", Skipped)]
  {
    var c := ["a.jpg", "a.png"];
    var always: string -> bool := _ => true;
    assert LastDot("a.jpg") == 1 by { assert "a.jpg"[1] == '.'; }
    assert LastDot("a.png") == 1 by { assert "a.png"[1] == '.'; }
    assert OutputName("a.jpg") == "a.webp" && OutputName("a.png") == "a.webp";
    assert c[..0] == [] && c[..2] == c;
    Step(c, {}, false, always, 0);
    Step(c, {}, false, always, 1);
  }

  /**
   * The `for` loop of `main` over the sorted candidates: a candidate whose
   * output is already present is skipped when overwriting is off (the
   * source's early `continue`); any other is handed to the conversion,
   * which converts it or fails. The outcome of each branch is recorded as
   * that candidate's report, which stands in for the printed line.
   */
  method ProcessCandidates(files: seq<string>, existing: set<string>, overwrite: bool, converts: string -> bool)
    returns (reports: seq<FileReport>, present: set<string>, processed: nat, skipped: nat, errors: nat)
    ensures reports == Reports(files, existing, overwrite, converts)
    ensures present == Present(files, existing, overwrite, converts)
    ensures processed == Count(reports, Processed)
    ensures skipped == Count(reports, Skipped)
    ensures errors == Count(reports, Failed)
    ensures processed + skipped + errors == |files|
  {
    reports, present := [], existing;
    processed, skipped, errors := 0, 0, 0;
    var i := 0;
    while i < |files|
      invariant 0 <= i <= |files|
      invariant reports == Reports(files[..i], existing, overwrite, converts)
      invariant present == Present(files[..i], existing, overwrite, converts)
      invariant processed == Count(reports, Processed)
      invariant skipped == Count(reports, Skipped)
      invariant errors == Count(reports, Failed)
      invariant processed + skipped + errors == i
    {
      var name := files[i];
      var output := OutputName(name);
      Step(files, existing, overwrite, converts, i);
      var outcome;
      if output in present && !overwrite {
        outcome := Skipped;
        skipped := skipped + 1;
      } else if converts(name) {
        outcome := Processed;
        present := present + {output};
        processed := processed + 1;
      } else {
        outcome := Failed;
        errors := errors + 1;
      }
      CountAppend(reports, FileReport(name, output, outcome));
      reports := reports + [FileReport(name, output, outcome)];
      i := i + 1;
    }
    assert files[..i] == files;
  }

  /**
   * `main` after argument parsing: validate the arguments, check the input
   * directory, select the candidates and work through them, counting each
   * as processed, skipped or failed. `inputIsDir` is what `is_dir` says of
   * the input directory, `entries` what `iterdir` lists in it and
   * `existing` the names in the output directory before the run.
   */
  method Run(args: Args, inputIsDir: bool, entries: seq<Entry>, existing: set<string>, converts: string -> bool)
    returns (exitCode: int, outputDirMade: bool, reports: seq<FileReport>, present: set<string>,
             processed: nat, skipped: nat, errors: nat)
    ensures Validate(args).Failure? ==>
              exitCode == UsageExitCode && !outputDirMade && reports == [] && present == existing
    ensures Validate(args).Success? && !inputIsDir ==>
              exitCode == FailureExitCode && !outputDirMade && reports == [] && present == existing
    ensures Validate(args).Success? && inputIsDir ==>
              && outputDirMade
              && reports == Reports(Candidates(entries), existing, args.overwrite, converts)
              && present == Present(Candidates(entries), existing, args.overwrite, converts)
    ensures processed == Count(reports, Processed)
    ensures skipped == Count(reports, Skipped)
    ensures errors == Count(reports, Failed)
    ensures processed + skipped + errors == |reports|
    ensures exitCode == 0 <==> Validate(args).Success? && inputIsDir && errors == 0
    ensures exitCode == FailureExitCode <==> Validate(args).Success? && (!inputIsDir || errors > 0)
    ensures Validate(args).Success? && inputIsDir && Candidates(entries) == [] ==> exitCode == 0
  {
    reports, present := [], existing;
    processed, skipped, errors := 0, 0, 0;
    outputDirMade := false;
    if Validate(args).Failure? {
      return UsageExitCode, outputDirMade, reports, present, processed, skipped, errors;
    }
    if !inputIsDir {
      return FailureExitCode, outputDirMade, reports, present, processed, skipped, errors;
    }
    outputDirMade := true;
    var files := Candidates(entries);
    if |files| == 0 {
      return 0, outputDirMade, reports, present, processed, skipped, errors;
    }
    reports, present, processed, skipped, errors := ProcessCandidates(files, existing, args.overwrite, converts);
    exitCode := if errors > 0 then FailureExitCode else 0;
  }
}
