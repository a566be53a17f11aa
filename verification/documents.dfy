/** Vocabulary shared by the full-mode and targeted-mode comparison runs:
    directory entries, the extractor's verdicts, score-matrix cells, the
    pairwise-report calls, and the errors a run can raise. */
module Documents {
  import opened Common
  import opened Text

  /** One entry of the input directory listing, in the order the operating system
      lists it, with whether it is a regular file. */
  datatype Entry = Entry(name: string, isFile: bool)

  /** What the extractor returns for one file: a word sequence (possibly empty,
      which is falsy), a falsy non-list value, or an exception. */
  datatype Extracted = Words(tokens: Tokens) | NoText | Raised

  /** Python truthiness of the extractor's result. */
  predicate Truthy(e: Extracted) {
    e.Words? && |e.tokens| > 0
  }

  /** The words of a successful extraction (none otherwise). */
  function TextOf(e: Extracted): Tokens {
    if e.Words? then e.tokens else []
  }

  /** The words extracted from each of a run's files. */
  function Texts(files: seq<string>, extract: string -> Extracted): (r: seq<Tokens>)
    ensures |r| == |files|
  {
    seq(|files|, k requires 0 <= k < |files| => TextOf(extract(files[k])))
  }

  /** The display names of a run's files: `os.path.splitext(f)[0]` of each. */
  function Stems(files: seq<string>): (r: seq<string>)
    ensures |r| == |files|
    ensures forall k :: 0 <= k < |files| ==> r[k] + SplitExt(files[k]).1 == files[k]
  {
    seq(|files|, k requires 0 <= k < |files| => Stem(files[k]))
  }

  /** The suffix tuple both run modes test names against. */
  const Suffixes: seq<string> := ["txt", "pdf", "docx", "odt"]

  /** `name.endswith(("txt", "pdf", "docx", "odt"))`: case-sensitive and without a dot. */
  predicate HasListedSuffix(name: string) {
    EndsWithAny(name, Suffixes)
  }

  predicate Eligible(e: Entry) {
    e.isFile && HasListedSuffix(e.name)
  }

  /** The list comprehension selecting the regular files with a listed suffix,
      in listing order. */
  function EligibleNames(listing: seq<Entry>): (r: seq<string>)
    ensures |r| <= |listing|
    ensures forall x :: x in r <==> exists k :: 0 <= k < |listing| && listing[k].name == x && Eligible(listing[k])
    decreases |listing|
  {
    if listing == [] then []
    else
      var rest := EligibleNames(listing[1..]);
      assert forall k :: 1 <= k < |listing| ==> listing[k] == listing[1..][k - 1];
      assert forall k :: 0 <= k < |listing[1..]| ==> listing[1..][k] == listing[k + 1];
      (if Eligible(listing[0]) then [listing[0].name] else []) + rest
  }

  /** The filter keeps listing order: filtering a concatenation filters each part. */
  lemma {:induction false} EligibleNamesAppend(a: seq<Entry>, b: seq<Entry>)
    ensures EligibleNames(a + b) == EligibleNames(a) + EligibleNames(b)
    decreases |a|
  {
    if a == [] {
      assert a + b == b;
    } else {
      var head := if Eligible(a[0]) then [a[0].name] else [];
      calc {
        EligibleNames(a + b);
        { assert (a + b)[0] == a[0] && (a + b)[1..] == a[1..] + b; }
        head + EligibleNames(a[1..] + b);
        { EligibleNamesAppend(a[1..], b); }
        head + (EligibleNames(a[1..]) + EligibleNames(b));
        EligibleNames(a) + EligibleNames(b);
      }
    }
  }

  /** The suffix test needs no dot: a name merely ending in `txt` passes. */
  lemma SuffixTestNeedsNoDot()
    ensures HasListedSuffix("notestxt")
  {
    assert EndsWith("notestxt", Suffixes[0]) by { assert "notestxt"[5..] == "txt"; }
  }

  /** The suffix test is case-sensitive: an upper-case extension fails it. */
  lemma SuffixTestIsCaseSensitive()
    ensures !HasListedSuffix("A.TXT")
  {
    forall k | 0 <= k < |Suffixes| ensures !EndsWith("A.TXT", Suffixes[k]) {
      var t := Suffixes[k];
      if |t| <= 5 {
        assert "A.TXT"[5 - |t|..][|t| - 1] == 'T' != t[|t| - 1];
      }
    }
  }

  /** One cell of a score row: the `-1` placeholder, or a value the scorer returned. */
  datatype Cell<S> = Sentinel | Score(value: S)

  /** The arguments of one pairwise-report call: report number, the two texts
      (left first), their display names, and the block size. */
  datatype Report = Report(index: nat, left: Tokens, right: Tokens, leftName: string, rightName: string, blockSize: int)

  /** The exceptions a comparison run can end with. */
  datatype CompareError =
    | PathNotFound        // the input directory or input file is missing
    | MinimumFiles        // too few files pass the suffix filter
    | UnsupportedFile     // full mode: a file's extraction was falsy; targeted mode: the input has no listed suffix
    | ExtractionRaised(file: string)  // full mode: the extractor raised on this file
    | InputNotExtracted   // targeted mode: the input file's extraction was falsy or raised
    | NoFilesProcessed    // targeted mode: every candidate was excluded or skipped
    | StepRaised          // full mode: the scorer or the report writer raised
    | ResultsNotCreated   // the summary file did not appear in time

  /** The matrix and the row labels handed to the summary writer. */
  datatype Table<S> = Table(matrix: seq<seq<Cell<S>>>, names: seq<string>)
}
