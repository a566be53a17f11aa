/** Full mode: every file of the input directory against every other one.
    The scorer, the extractor and the report writer are parameters; a scorer
    result of None and a report-writer result of false stand for the call raising. */
module FullMode {
  import opened Common
  import opened Text
  import opened Documents
  import opened Pairs

  /** The extraction pass: its outcome (the texts, in file order) and how many
      files were handed to the extractor. The display names appended alongside
      the texts are the stems of the files, `Stems(files)`, once the pass succeeds. */
  datatype Extraction = Extraction(outcome: Result<seq<Tokens>, CompareError>, calls: nat)

  /** Strict extraction: the first file whose extraction is falsy ends the run with
      UnsupportedFile, and an extractor exception propagates unchanged. */
  function ExtractAll(files: seq<string>, extract: string -> Extracted): (r: Extraction)
    ensures r.calls <= |files|
    ensures r.outcome.Ok? <==> forall k :: 0 <= k < |files| ==> Truthy(extract(files[k]))
    ensures r.outcome.Ok? ==>
              && r.calls == |files| && |r.outcome.value| == |files|
              && forall k :: 0 <= k < |files| ==> r.outcome.value[k] == TextOf(extract(files[k]))
    ensures r.outcome.Err? ==>
              && 0 < r.calls
              && (forall k :: 0 <= k < r.calls - 1 ==> Truthy(extract(files[k])))
              && !Truthy(extract(files[r.calls - 1]))
              && r.outcome.error == (if extract(files[r.calls - 1]).Raised? then ExtractionRaised(files[r.calls - 1])
                                     else UnsupportedFile)
    decreases |files|
  {
    if files == [] then Extraction(Ok([]), 0)
    else
      var e := extract(files[0]);
      if !Truthy(e) then
        Extraction(Err(if e.Raised? then ExtractionRaised(files[0]) else UnsupportedFile), 1)
      else
        var rest := ExtractAll(files[1..], extract);
        match rest.outcome
        case Ok(texts) =>
          ExtractedAfterFirst(files, extract, texts);
          Extraction(Ok([e.tokens] + texts), rest.calls + 1)
        case Err(err) =>
          FailureAfterFirst(files, extract, rest.calls);
          Extraction(Err(err), rest.calls + 1)
  }

  /** Prepending the first file's words to the rest's extraction covers all files. */
  lemma ExtractedAfterFirst(files: seq<string>, extract: string -> Extracted, texts: seq<Tokens>)
    requires files != [] && Truthy(extract(files[0]))
    requires forall k :: 0 <= k < |files| - 1 ==> Truthy(extract(files[1..][k]))
    requires |texts| == |files| - 1 && forall k :: 0 <= k < |texts| ==> texts[k] == TextOf(extract(files[1..][k]))
    ensures forall k :: 0 <= k < |files| ==> Truthy(extract(files[k]))
    ensures var docs := [TextOf(extract(files[0]))] + texts;
      |docs| == |files| && forall k :: 0 <= k < |files| ==> docs[k] == TextOf(extract(files[k]))
  {
    assert forall k :: 1 <= k < |files| ==> files[k] == files[1..][k - 1];
  }

  /** A failure at position `calls - 1` of the rest is a failure at position
      `calls` of the whole list, after truthy extractions only. */
  lemma FailureAfterFirst(files: seq<string>, extract: string -> Extracted, calls: nat)
    requires files != [] && Truthy(extract(files[0]))
    requires 0 < calls <= |files| - 1
    requires forall k :: 0 <= k < calls - 1 ==> Truthy(extract(files[1..][k]))
    requires !Truthy(extract(files[1..][calls - 1]))
    ensures forall k :: 0 <= k < calls ==> Truthy(extract(files[k]))
    ensures files[calls] == files[1..][calls - 1]
  {
    assert forall k :: 1 <= k < |files| ==> files[k] == files[1..][k - 1];
  }

  /** The report call made for ordered pair (i, j): numbered by the pair counter,
      row document on the left. */
  function PairReport(docs: seq<Tokens>, names: seq<string>, blockSize: int, i: nat, j: nat): Report
    requires |names| == |docs| && i < |docs| && j < |docs| && i != j
  {
    Report(PairIndex(|docs|, i, j), docs[i], docs[j], names[i], names[j], blockSize)
  }

  /** The k-th report call of a run. */
  function ReportAt(docs: seq<Tokens>, names: seq<string>, blockSize: int, k: nat): Report
    requires |names| == |docs| && k < PairCount(|docs|)
  {
    var p := PairAt(|docs|, k);
    PairReport(docs, names, blockSize, p.0, p.1)
  }

  /** `reports` are the first |reports| report calls of the run. */
  predicate ReportsSoFar(reports: seq<Report>, docs: seq<Tokens>, names: seq<string>, blockSize: int)
    requires |names| == |docs|
  {
    forall k :: 0 <= k < |reports| ==> k < PairCount(|docs|) && reports[k] == ReportAt(docs, names, blockSize, k)
  }

  /** Both the scorer and the report writer complete for ordered pair (i, j). */
  predicate PairSucceeds<S>(docs: seq<Tokens>, names: seq<string>, blockSize: int,
                            score: (Tokens, Tokens) -> Option<S>, renders: Report -> bool, i: nat, j: nat)
    requires |names| == |docs| && i < |docs| && j < |docs| && i != j
  {
    score(docs[i], docs[j]).Some? && renders(PairReport(docs, names, blockSize, i, j))
  }

  predicate AllPairsSucceed<S>(docs: seq<Tokens>, names: seq<string>, blockSize: int,
                               score: (Tokens, Tokens) -> Option<S>, renders: Report -> bool)
    requires |names| == |docs|
  {
    forall i, j :: 0 <= i < |docs| && 0 <= j < |docs| && i != j ==>
      PairSucceeds(docs, names, blockSize, score, renders, i, j)
  }

  /** Row i fails first at column b: every earlier pair of the row succeeds and
      pair (i, b) does not. */
  predicate RowFailsAt<S>(docs: seq<Tokens>, names: seq<string>, blockSize: int,
                          score: (Tokens, Tokens) -> Option<S>, renders: Report -> bool, i: nat, b: nat)
    requires |names| == |docs|
  {
    && i < |docs| && b < |docs| && i != b
    && (forall c :: 0 <= c < b && c != i ==> PairSucceeds(docs, names, blockSize, score, renders, i, c))
    && !PairSucceeds(docs, names, blockSize, score, renders, i, b)
  }

  /** (i, b) is the first ordered pair, in row-major order, whose scorer or
      report writer raises. */
  predicate FirstFailure<S>(docs: seq<Tokens>, names: seq<string>, blockSize: int,
                            score: (Tokens, Tokens) -> Option<S>, renders: Report -> bool, i: nat, b: nat)
    requires |names| == |docs|
  {
    && RowFailsAt(docs, names, blockSize, score, renders, i, b)
    && (forall a, c :: 0 <= a < i && 0 <= c < |docs| && a != c ==>
          PairSucceeds(docs, names, blockSize, score, renders, a, c))
  }

  /** A run has at most one first failing pair, so the number of report calls a
      failed run made is determined by the documents, scorer and writer. */
  lemma FirstFailureUnique<S>(docs: seq<Tokens>, names: seq<string>, blockSize: int,
                              score: (Tokens, Tokens) -> Option<S>, renders: Report -> bool,
                              i: nat, b: nat, i': nat, b': nat)
    requires |names| == |docs|
    requires FirstFailure(docs, names, blockSize, score, renders, i, b)
    requires FirstFailure(docs, names, blockSize, score, renders, i', b')
    ensures i == i' && b == b'
  {
  }

  /** The number of report calls made when the run stops at pair (i, b): one per
      earlier pair, and one for (i, b) itself when its score was computed and only
      the report writer raised. */
  function CallsUntil<S>(docs: seq<Tokens>, score: (Tokens, Tokens) -> Option<S>, i: nat, b: nat): nat
    requires i < |docs| && b < |docs| && i != b
  {
    PairIndex(|docs|, i, b) + (if score(docs[i], docs[b]).Some? then 1 else 0)
  }

  /** Cell (i, j) of the score matrix: -1 on the diagonal, the scorer's value for
      (row document, column document) elsewhere. */
  predicate CellOf<S(==)>(c: Cell<S>, docs: seq<Tokens>, score: (Tokens, Tokens) -> Option<S>, i: nat, j: nat)
    requires i < |docs| && j < |docs|
  {
    if i == j then c == Sentinel else c.Score? && score(docs[i], docs[j]) == Some(c.value)
  }

  predicate RowOf<S(==)>(row: seq<Cell<S>>, docs: seq<Tokens>, score: (Tokens, Tokens) -> Option<S>, i: nat)
    requires i < |docs|
  {
    |row| == |docs| && forall j :: 0 <= j < |row| ==> CellOf(row[j], docs, score, i, j)
  }

  /** `m` is the N x N score matrix of the documents. */
  predicate IsScoreMatrix<S(==)>(m: seq<seq<Cell<S>>>, docs: seq<Tokens>, score: (Tokens, Tokens) -> Option<S>) {
    |m| == |docs| && forall i :: 0 <= i < |m| ==> RowOf(m[i], docs, score, i)
  }

  /** The report call for pair (i, j) continues the sequence of calls when the
      counter holds that pair's value. */
  lemma NextReport(reports: seq<Report>, docs: seq<Tokens>, names: seq<string>, blockSize: int, i: nat, j: nat)
    requires |names| == |docs| && i < |docs| && j < |docs| && i != j
    requires |reports| == PairIndex(|docs|, i, j) && ReportsSoFar(reports, docs, names, blockSize)
    ensures ReportsSoFar(reports + [PairReport(docs, names, blockSize, i, j)], docs, names, blockSize)
  {
    PairAtIndex(|docs|, i, j);
    var all := reports + [PairReport(docs, names, blockSize, i, j)];
    assert forall k :: 0 <= k < |reports| ==> all[k] == reports[k];
    assert all[|reports|] == ReportAt(docs, names, blockSize, |reports|);
  }

  /** The inner loop for row document i: scores it against every other document,
      writes -1 at column i, and issues the row's report calls after the ones
      already made. The first scorer or report writer exception ends the loop. */
  method BuildRow<S(==)>(docs: seq<Tokens>, names: seq<string>, blockSize: int,
                     score: (Tokens, Tokens) -> Option<S>, renders: Report -> bool,
                     i: nat, before: seq<Report>)
    returns (row: Result<seq<Cell<S>>, CompareError>, reports: seq<Report>)
    requires |names| == |docs| && i < |docs|
    requires |before| == RowStart(|docs|, i) && ReportsSoFar(before, docs, names, blockSize)
    ensures row.Ok? <==> forall b :: 0 <= b < |docs| && b != i ==> PairSucceeds(docs, names, blockSize, score, renders, i, b)
    ensures row.Ok? ==> RowOf(row.value, docs, score, i) && |reports| == RowStart(|docs|, i + 1)
    ensures row.Err? ==> row.error == StepRaised
    ensures row.Err? ==> exists b :: RowFailsAt(docs, names, blockSize, score, renders, i, b)
                                     && |reports| == CallsUntil(docs, score, i, b)
    ensures |reports| <= RowStart(|docs|, i + 1)
    ensures ReportsSoFar(reports, docs, names, blockSize)
  {
    var n := |docs|;
    var cells: seq<Cell<S>> := [];
    reports := before;
    var fileInd := |before|;
    var j := 0;
    while j < n
      invariant 0 <= j <= n && |cells| == j
      invariant forall b :: 0 <= b < j ==> CellOf(cells[b], docs, score, i, b)
      invariant forall b :: 0 <= b < j && b != i ==> PairSucceeds(docs, names, blockSize, score, renders, i, b)
      invariant fileInd == |reports| == RowStart(n, i) + (if j <= i then j else j - 1)
      invariant ReportsSoFar(reports, docs, names, blockSize)
    {
      if i != j {
        assert fileInd == PairIndex(n, i, j);
        var s := score(docs[i], docs[j]);
        if s.None? {
          assert RowFailsAt(docs, names, blockSize, score, renders, i, j);
          assert |reports| == CallsUntil(docs, score, i, j);
          row := Err(StepRaised);
          return;
        }
        var rep := Report(fileInd, docs[i], docs[j], names[i], names[j], blockSize);
        NextReport(reports, docs, names, blockSize, i, j);
        reports := reports + [rep];
        if !renders(rep) {
          assert RowFailsAt(docs, names, blockSize, score, renders, i, j);
          assert |reports| == CallsUntil(docs, score, i, j);
          row := Err(StepRaised);
          return;
        }
        cells := cells + [Score(s.value)];
        fileInd := fileInd + 1;
      } else {
        cells := cells + [Sentinel];
      }
      j := j + 1;
    }
    row := Ok(cells);
  }

  /** The double loop over processed files: one row per document, in order, with
      the report calls numbered by the running counter. The first scorer or
      report writer exception ends the loop. */
  method BuildMatrix<S(==)>(docs: seq<Tokens>, names: seq<string>, blockSize: int,
                        score: (Tokens, Tokens) -> Option<S>, renders: Report -> bool)
    returns (matrix: Result<seq<seq<Cell<S>>>, CompareError>, reports: seq<Report>)
    requires |names| == |docs|
    ensures matrix.Ok? <==> AllPairsSucceed(docs, names, blockSize, score, renders)
    ensures matrix.Ok? ==> IsScoreMatrix(matrix.value, docs, score) && |reports| == PairCount(|docs|)
    ensures matrix.Err? ==> matrix.error == StepRaised
    ensures matrix.Err? ==> exists a, b :: FirstFailure(docs, names, blockSize, score, renders, a, b)
                                           && |reports| == CallsUntil(docs, score, a, b)
    ensures |reports| <= PairCount(|docs|)
    ensures ReportsSoFar(reports, docs, names, blockSize)
  {
    var n := |docs|;
    var rows: seq<seq<Cell<S>>> := [];
    reports := [];
    var i := 0;
    while i < n
      invariant 0 <= i <= n && |rows| == i
      invariant forall a :: 0 <= a < i ==> RowOf(rows[a], docs, score, a)
      invariant forall a, b :: 0 <= a < i && 0 <= b < n && a != b ==>
                  PairSucceeds(docs, names, blockSize, score, renders, a, b)
      invariant |reports| == RowStart(n, i)
      invariant ReportsSoFar(reports, docs, names, blockSize)
    {
      var row;
      row, reports := BuildRow(docs, names, blockSize, score, renders, i, reports);
      if row.Err? {
        RowStartMonotone(n, i + 1, n);
        var b :| RowFailsAt(docs, names, blockSize, score, renders, i, b) && |reports| == CallsUntil(docs, score, i, b);
        assert FirstFailure(docs, names, blockSize, score, renders, i, b);
        matrix := Err(StepRaised);
        return;
      }
      rows := rows + [row.value];
      i := i + 1;
    }
    matrix := Ok(rows);
  }

  /** What one full-mode run leaves behind: its result (the table handed to the
      summary writer, or the exception), the files handed to the extractor, and
      the pairwise-report calls in the order they were made. */
  datatype FullRun<S> = FullRun(outcome: Result<Table<S>, CompareError>, extracted: seq<string>, reports: seq<Report>)

  /** `compare`: directory check, suffix filter, minimum of two files, strict
      extraction, the score matrix and its report calls, then the summary, which
      fails the run when its file does not appear in time. */
  method Compare<S(==)>(inDirExists: bool, listing: seq<Entry>, extract: string -> Extracted,
                    score: (Tokens, Tokens) -> Option<S>, renders: Report -> bool,
                    blockSize: int, summaryAppears: bool)
    returns (run: FullRun<S>)
    ensures !inDirExists ==> run == FullRun(Err(PathNotFound), [], [])
    ensures inDirExists && |EligibleNames(listing)| < 2 ==> run == FullRun(Err(MinimumFiles), [], [])
    ensures run.extracted <= EligibleNames(listing)
    ensures run.outcome.Err? && (run.outcome.error == UnsupportedFile || run.outcome.error.ExtractionRaised?) ==>
              run.reports == []
    ensures run.reports != [] ==>
              run.extracted == EligibleNames(listing)
              && forall k :: 0 <= k < |run.extracted| ==> Truthy(extract(run.extracted[k]))
    ensures var files := EligibleNames(listing);
      run.outcome.Ok? <==>
        && inDirExists && |files| >= 2
        && (forall k :: 0 <= k < |files| ==> Truthy(extract(files[k])))
        && AllPairsSucceed(Texts(files, extract), Stems(files), blockSize, score, renders)
        && summaryAppears
    ensures var files := EligibleNames(listing);
      inDirExists && |files| >= 2 && !(forall k :: 0 <= k < |files| ==> Truthy(extract(files[k]))) ==>
        var ex := ExtractAll(files, extract);
        run == FullRun(Err(ex.outcome.error), files[..ex.calls], [])
    ensures var files := EligibleNames(listing);
      inDirExists && |files| >= 2 && (forall k :: 0 <= k < |files| ==> Truthy(extract(files[k]))) ==>
        && run.extracted == files
        && ReportsSoFar(run.reports, Texts(files, extract), Stems(files), blockSize)
        && (!AllPairsSucceed(Texts(files, extract), Stems(files), blockSize, score, renders) ==>
              && run.outcome == Err(StepRaised)
              && exists a, b :: FirstFailure(Texts(files, extract), Stems(files), blockSize, score, renders, a, b)
                                && |run.reports| == CallsUntil(Texts(files, extract), score, a, b))
        && (AllPairsSucceed(Texts(files, extract), Stems(files), blockSize, score, renders) ==>
              |run.reports| == PairCount(|files|))
        && (AllPairsSucceed(Texts(files, extract), Stems(files), blockSize, score, renders) && !summaryAppears ==>
              run.outcome == Err(ResultsNotCreated))
    ensures run.outcome.Ok? ==>
              var files := EligibleNames(listing);
              var docs := Texts(files, extract);
              && inDirExists && |files| >= 2 && summaryAppears
              && run.extracted == files
              && run.outcome.value.names == Stems(files)
              && IsScoreMatrix(run.outcome.value.matrix, docs, score)
              && |run.reports| == PairCount(|files|)
              && forall k :: 0 <= k < |run.reports| ==>
                   run.reports[k] == ReportAt(docs, run.outcome.value.names, blockSize, k)
  {
    if !inDirExists {
      return FullRun(Err(PathNotFound), [], []);
    }
    var files := EligibleNames(listing);
    if |files| < 2 {
      return FullRun(Err(MinimumFiles), [], []);
    }
    var ex := ExtractAll(files, extract);
    if ex.outcome.Err? {
      return FullRun(Err(ex.outcome.error), files[..ex.calls], []);
    }
    var docs := ex.outcome.value;
    var names := Stems(files);
    assert files[..ex.calls] == files;
    assert docs == Texts(files, extract);
    var matrix, reports := BuildMatrix(docs, names, blockSize, score, renders);
    if matrix.Err? {
      return FullRun(Err(matrix.error), files, reports);
    }
    if !summaryAppears {
      return FullRun(Err(ResultsNotCreated), files, reports);
    }
    run := FullRun(Ok(Table(matrix.value, names)), files, reports);
  }

  /** The k-th report call carries number k, and the pair it names is the
      pair whose counter value is k: numbering is consecutive and row-major. */
  lemma ReportNumbering(docs: seq<Tokens>, names: seq<string>, blockSize: int, k: nat)
    requires |names| == |docs| && k < PairCount(|docs|)
    ensures ReportAt(docs, names, blockSize, k).index == k
    ensures var p := PairAt(|docs|, k);
      var r := ReportAt(docs, names, blockSize, k);
      r.left == docs[p.0] && r.right == docs[p.1] && r.leftName == names[p.0] && r.rightName == names[p.1]
  {
    IndexPairAt(|docs|, k);
  }

  /** Every ordered pair of distinct documents gets its own report call, at the
      position its counter value names. */
  lemma EveryPairReported(docs: seq<Tokens>, names: seq<string>, blockSize: int, i: nat, j: nat)
    requires |names| == |docs| && i < |docs| && j < |docs| && i != j
    ensures PairIndex(|docs|, i, j) < PairCount(|docs|)
    ensures ReportAt(docs, names, blockSize, PairIndex(|docs|, i, j))
            == Report(PairIndex(|docs|, i, j), docs[i], docs[j], names[i], names[j], blockSize)
  {
    PairAtIndex(|docs|, i, j);
  }

  /** With two documents the run makes two report calls: 0 for (first, second)
      and 1 for (second, first). */
  lemma TwoDocumentRun(docs: seq<Tokens>, names: seq<string>, blockSize: int)
    requires |docs| == 2 && |names| == 2
    ensures PairCount(2) == 2
    ensures ReportAt(docs, names, blockSize, 0) == Report(0, docs[0], docs[1], names[0], names[1], blockSize)
    ensures ReportAt(docs, names, blockSize, 1) == Report(1, docs[1], docs[0], names[1], names[0], blockSize)
  {
    EveryPairReported(docs, names, blockSize, 0, 1);
    EveryPairReported(docs, names, blockSize, 1, 0);
  }

  /** The matrix is only as symmetric as the scorer: when the scorer gives the same
      value both ways round, so does the matrix. */
  lemma MatrixSymmetricIfScorerIs<S>(m: seq<seq<Cell<S>>>, docs: seq<Tokens>, score: (Tokens, Tokens) -> Option<S>)
    requires IsScoreMatrix(m, docs, score)
    requires forall a, b :: score(a, b) == score(b, a)
    ensures forall i, j :: 0 <= i < |m| && 0 <= j < |m| ==> m[i][j] == m[j][i]
  {
    forall i, j | 0 <= i < |m| && 0 <= j < |m|
      ensures m[i][j] == m[j][i]
    {
      assert CellOf(m[i][j], docs, score, i, j) && CellOf(m[j][i], docs, score, j, i);
    }
  }
}
