/** Targeted mode: one input file against the other files of the input directory.
    Unlike full mode, a candidate whose extraction fails is skipped, and an
    exception while scoring or writing the report for one candidate only marks
    that candidate's row. */
module TargetedMode {
  import opened Common
  import opened Text
  import opened Documents

  /** The candidates that are processed: every listed name other than the input
      file's basename whose extraction is truthy; exceptions are swallowed. */
  function Survivors(files: seq<string>, inputBase: string, extract: string -> Extracted): (r: seq<string>)
    ensures |r| <= |files|
    ensures forall f :: f in r <==> f in files && f != inputBase && Truthy(extract(f))
    decreases |files|
  {
    if files == [] then []
    else
      var rest := Survivors(files[1..], inputBase, extract);
      assert forall f :: f in files <==> f == files[0] || f in files[1..];
      (if files[0] != inputBase && Truthy(extract(files[0])) then [files[0]] else []) + rest
  }

  /** Skipping keeps listing order: the survivors of a concatenation are the
      survivors of each part. */
  lemma {:induction false} SurvivorsAppend(a: seq<string>, b: seq<string>, inputBase: string, extract: string -> Extracted)
    ensures Survivors(a + b, inputBase, extract) == Survivors(a, inputBase, extract) + Survivors(b, inputBase, extract)
    decreases |a|
  {
    if a == [] {
      assert a + b == b;
    } else {
      assert (a + b)[1..] == a[1..] + b;
      SurvivorsAppend(a[1..], b, inputBase, extract);
    }
  }

  /** One candidate in front of the rest is kept or skipped on its own. */
  lemma SurvivorsCons(f: string, rest: seq<string>, inputBase: string, extract: string -> Extracted)
    ensures Survivors([f] + rest, inputBase, extract) ==
            (if f != inputBase && Truthy(extract(f)) then [f] else []) + Survivors(rest, inputBase, extract)
  {
    assert ([f] + rest)[1..] == rest;
  }

  /** An unreadable candidate anywhere in the listing does not stop the run: the
      candidates around it survive exactly as they would without it. */
  lemma BadCandidateSkipped(before: seq<string>, bad: string, after: seq<string>, inputBase: string,
                            extract: string -> Extracted)
    requires !Truthy(extract(bad))
    ensures Survivors(before + [bad] + after, inputBase, extract)
            == Survivors(before, inputBase, extract) + Survivors(after, inputBase, extract)
  {
    calc {
      Survivors(before + [bad] + after, inputBase, extract);
      { assert before + [bad] + after == before + ([bad] + after); }
      Survivors(before + ([bad] + after), inputBase, extract);
      { SurvivorsAppend(before, [bad] + after, inputBase, extract); }
      Survivors(before, inputBase, extract) + Survivors([bad] + after, inputBase, extract);
      { SurvivorsCons(bad, after, inputBase, extract);
        assert [] + Survivors(after, inputBase, extract) == Survivors(after, inputBase, extract); }
      Survivors(before, inputBase, extract) + Survivors(after, inputBase, extract);
    }
  }

  /** What comparing the input with candidate i produces: the candidate's score
      row, and the report call made, if one was. */
  datatype Step<S> = Step(row: seq<Cell<S>>, report: Option<Report>)

  /** The body of the try block for candidate i: equal texts are not compared;
      otherwise the score is appended and the report written, and an exception
      from either appends -1. */
  function CandidateStep<S>(i: nat, input: Tokens, text: Tokens, inputName: string, name: string, blockSize: int,
                            score: (Tokens, Tokens) -> Option<S>, renders: Report -> bool): (r: Step<S>)
    ensures r.row == [] <==> input == text
    ensures r.report.Some? <==> input != text && score(input, text).Some?
    ensures r.report.Some? ==> r.report.value == Report(i, input, text, inputName, name, blockSize)
    ensures r.row != [] ==>
              (r.row[|r.row| - 1].Sentinel? <==> r.report.None? || !renders(r.report.value))
    ensures r.report.Some? ==> r.row[0].Score? && score(input, text).value == r.row[0].value
    ensures r.report.None? ==> |r.row| <= 1
    ensures r.report.Some? ==> |r.row| == (if renders(r.report.value) then 1 else 2)
  {
    if input == text then Step([], None)
    else
      match score(input, text)
      case None => Step([Sentinel], None)
      case Some(s) =>
        var rep := Report(i, input, text, inputName, name, blockSize);
        if renders(rep) then Step([Score(s)], Some(rep)) else Step([Score(s), Sentinel], Some(rep))
  }

  /** Every recorded call is the report call of a candidate below n. */
  predicate ReportsMatchSteps<S>(reports: seq<Report>, n: nat, input: Tokens, docs: seq<Tokens>, names: seq<string>,
                                 inputName: string, blockSize: int,
                                 score: (Tokens, Tokens) -> Option<S>, renders: Report -> bool)
    requires n <= |docs| && |names| == |docs|
  {
    forall k :: 0 <= k < |reports| ==>
      reports[k].index < n
      && CandidateStep(reports[k].index, input, docs[reports[k].index], inputName, names[reports[k].index],
                       blockSize, score, renders).report == Some(reports[k])
  }

  /** The recorded calls are in increasing candidate order. */
  predicate IndicesAscending(reports: seq<Report>) {
    forall k, k' :: 0 <= k < k' < |reports| ==> reports[k].index < reports[k'].index
  }

  /** Every candidate below n whose step writes a report has its call recorded. */
  predicate StepsReported<S>(reports: seq<Report>, n: nat, input: Tokens, docs: seq<Tokens>, names: seq<string>,
                             inputName: string, blockSize: int,
                             score: (Tokens, Tokens) -> Option<S>, renders: Report -> bool)
    requires n <= |docs| && |names| == |docs|
  {
    forall i :: 0 <= i < n && CandidateStep(i, input, docs[i], inputName, names[i], blockSize, score, renders).report.Some? ==>
      exists k :: 0 <= k < |reports| && reports[k].index == i
  }

  /** `report` lists the report calls of candidates 0 .. n - 1, in candidate order. */
  predicate ReportsInOrder<S>(reports: seq<Report>, n: nat, input: Tokens, docs: seq<Tokens>, names: seq<string>,
                              inputName: string, blockSize: int,
                              score: (Tokens, Tokens) -> Option<S>, renders: Report -> bool)
    requires n <= |docs| && |names| == |docs|
  {
    && ReportsMatchSteps(reports, n, input, docs, names, inputName, blockSize, score, renders)
    && IndicesAscending(reports)
    && StepsReported(reports, n, input, docs, names, inputName, blockSize, score, renders)
  }

  /** The report calls of candidate n - 1, if any. */
  function CallsOf<S>(n: nat, input: Tokens, docs: seq<Tokens>, names: seq<string>, inputName: string,
                      blockSize: int, score: (Tokens, Tokens) -> Option<S>, renders: Report -> bool): seq<Report>
    requires 0 < n <= |docs| && |names| == |docs|
  {
    var st := CandidateStep(n - 1, input, docs[n - 1], inputName, names[n - 1], blockSize, score, renders);
    if st.report.Some? then [st.report.value] else []
  }

  /** Appending candidate n - 1's call to the calls of the candidates before it
      keeps the calls in candidate order and complete. */
  lemma ReportsInOrderExtend<S>(prev: seq<Report>, n: nat, input: Tokens, docs: seq<Tokens>, names: seq<string>,
                                inputName: string, blockSize: int,
                                score: (Tokens, Tokens) -> Option<S>, renders: Report -> bool)
    requires 0 < n <= |docs| && |names| == |docs|
    requires ReportsInOrder(prev, n - 1, input, docs, names, inputName, blockSize, score, renders)
    ensures ReportsInOrder(prev + CallsOf(n, input, docs, names, inputName, blockSize, score, renders),
                           n, input, docs, names, inputName, blockSize, score, renders)
  {
    var extra := CallsOf(n, input, docs, names, inputName, blockSize, score, renders);
    var reports := prev + extra;
    assert forall k :: 0 <= k < |prev| ==> reports[k] == prev[k];
    assert forall k :: |prev| <= k < |reports| ==> reports[k] == extra[k - |prev|] && reports[k].index == n - 1;
    assert ReportsMatchSteps(reports, n, input, docs, names, inputName, blockSize, score, renders);
    assert IndicesAscending(reports);
    forall i | 0 <= i < n && CandidateStep(i, input, docs[i], inputName, names[i], blockSize, score, renders).report.Some?
      ensures exists k :: 0 <= k < |reports| && reports[k].index == i
    {
      if i == n - 1 {
        assert reports[|prev|].index == i;
      } else {
        var k :| 0 <= k < |prev| && prev[k].index == i;
        assert reports[k].index == i;
      }
    }
  }

  /** The loop over the processed candidates: one row per candidate and the
      report calls in candidate order. */
  function CompareAll<S>(n: nat, input: Tokens, docs: seq<Tokens>, names: seq<string>, inputName: string,
                         blockSize: int, score: (Tokens, Tokens) -> Option<S>, renders: Report -> bool)
    : (r: (seq<seq<Cell<S>>>, seq<Report>))
    requires n <= |docs| && |names| == |docs|
    ensures |r.0| == n
    ensures forall i :: 0 <= i < n ==>
              r.0[i] == CandidateStep(i, input, docs[i], inputName, names[i], blockSize, score, renders).row
    ensures ReportsInOrder(r.1, n, input, docs, names, inputName, blockSize, score, renders)
  {
    if n == 0 then ([], [])
    else
      var prev := CompareAll(n - 1, input, docs, names, inputName, blockSize, score, renders);
      var st := CandidateStep(n - 1, input, docs[n - 1], inputName, names[n - 1], blockSize, score, renders);
      ReportsInOrderExtend(prev.1, n, input, docs, names, inputName, blockSize, score, renders);
      (prev.0 + [st.row], prev.1 + CallsOf(n, input, docs, names, inputName, blockSize, score, renders))
  }

  /** What one targeted run leaves behind: its result and the report calls made. */
  datatype TargetedRun<S> = TargetedRun(outcome: Result<Table<S>, CompareError>, reports: seq<Report>)

  /** Every check before the candidate loop passes: the input is a file with a
      listed suffix, the directory exists, some listed file is eligible, and the
      input's text is extracted. */
  predicate ChecksPass(inputPath: string, inputIsFile: bool, inDirExists: bool, listing: seq<Entry>,
                       inputText: Extracted) {
    inputIsFile && HasListedSuffix(inputPath) && inDirExists && EligibleNames(listing) != [] && Truthy(inputText)
  }

  /** `specific_compare`: input checks, the suffix filter, the input's extraction,
      lenient candidate processing, then one row per surviving candidate. */
  function SpecificCompare<S>(inputPath: string, inputIsFile: bool, inDirExists: bool, listing: seq<Entry>,
                              inputText: Extracted, extract: string -> Extracted,
                              score: (Tokens, Tokens) -> Option<S>, renders: Report -> bool,
                              blockSize: int, summaryAppears: bool): (run: TargetedRun<S>)
    ensures !inputIsFile ==> run == TargetedRun(Err(PathNotFound), [])
    ensures inputIsFile && !HasListedSuffix(inputPath) ==> run == TargetedRun(Err(UnsupportedFile), [])
    ensures inputIsFile && HasListedSuffix(inputPath) && !inDirExists ==> run == TargetedRun(Err(PathNotFound), [])
    ensures inputIsFile && HasListedSuffix(inputPath) && inDirExists && EligibleNames(listing) == [] ==>
              run == TargetedRun(Err(MinimumFiles), [])
    ensures (inputIsFile && HasListedSuffix(inputPath) && inDirExists && EligibleNames(listing) != []
             && !Truthy(inputText)) ==> run == TargetedRun(Err(InputNotExtracted), [])
    ensures run.outcome.Err? && run.outcome.error in {PathNotFound, UnsupportedFile, MinimumFiles, InputNotExtracted, NoFilesProcessed} ==>
              run.reports == []
    ensures run.outcome == Err(NoFilesProcessed) <==>
              && ChecksPass(inputPath, inputIsFile, inDirExists, listing, inputText)
              && Survivors(EligibleNames(listing), Basename(inputPath), extract) == []
    ensures var kept := Survivors(EligibleNames(listing), Basename(inputPath), extract);
      run.outcome.Ok? <==> ChecksPass(inputPath, inputIsFile, inDirExists, listing, inputText) && kept != [] && summaryAppears
    ensures var kept := Survivors(EligibleNames(listing), Basename(inputPath), extract);
      ChecksPass(inputPath, inputIsFile, inDirExists, listing, inputText) && kept != [] ==>
        && (!summaryAppears ==> run.outcome == Err(ResultsNotCreated))
        && ReportsInOrder(run.reports, |kept|, TextOf(inputText), Texts(kept, extract), Stems(kept), Basename(inputPath),
                          blockSize, score, renders)
    ensures run.outcome.Ok? ==>
              var kept := Survivors(EligibleNames(listing), Basename(inputPath), extract);
              && summaryAppears && kept != []
              && run.outcome.value.names == Stems(kept)
              && |run.outcome.value.matrix| == |kept|
              && forall i :: 0 <= i < |kept| ==>
                   run.outcome.value.matrix[i] ==
                   CandidateStep(i, TextOf(inputText), TextOf(extract(kept[i])), Basename(inputPath), Stem(kept[i]),
                                 blockSize, score, renders).row
  {
    if !inputIsFile then TargetedRun(Err(PathNotFound), [])
    else if !HasListedSuffix(inputPath) then TargetedRun(Err(UnsupportedFile), [])
    else if !inDirExists then TargetedRun(Err(PathNotFound), [])
    else
      var files := EligibleNames(listing);
      if files == [] then TargetedRun(Err(MinimumFiles), [])
      else if !Truthy(inputText) then TargetedRun(Err(InputNotExtracted), [])
      else
        var kept := Survivors(files, Basename(inputPath), extract);
        if kept == [] then TargetedRun(Err(NoFilesProcessed), [])
        else
          var docs := Texts(kept, extract);
          var names := Stems(kept);
          var r := CompareAll(|kept|, inputText.tokens, docs, names, Basename(inputPath), blockSize, score, renders);
          if summaryAppears then TargetedRun(Ok(Table(r.0, names)), r.1)
          else TargetedRun(Err(ResultsNotCreated), r.1)
  }
}
