# Plagiarism checker API — a Dafny model of its comparison core and file store

The service keeps uploaded documents in an `input_files` directory. It compares
them in two ways:

- **Full mode** (`compare`): every document against every other one. The result
  is a score matrix with `-1` on the diagonal, plus one pairwise report per
  ordered pair.
- **Targeted mode** (`specific_compare`): one input document against the rest.
  The result has one score row per candidate.

Four HTTP handlers manage the store:
- `get_file_list` lists the store;
- `delete_files` deletes by 1-based serial number;
- `store_files` accepts an upload whose extension is on a whitelist;
- `calculate` guards the targeted comparison with a two-file minimum.

The model treats these as pure functions over immutable data:

- The input directory is `Missing` or `Present(stored)`. A missing directory
  holds no names (`Dir.Files`). The comparison modes see the
  directory listing as a sequence of `Entry(name, isFile)` in whatever order the
  operating system lists it. The handlers see `sorted(os.listdir(...))`, which is
  `Ordering.SortedNames`: ascending by character code, as Python orders strings.
- Text extraction is a parameter `extract: string -> Extracted`. A result is a
  word sequence, a falsy value or an exception, and only a non-empty word
  sequence is truthy.
- The similarity scorer is a parameter `score: (Tokens, Tokens) -> Option<S>`.
  The score type `S` is abstract, and `None` means the scorer raised.
- The pairwise report writer is recorded as a sequence of `Report` calls. A
  predicate `renders` says whether a call raises.
- Matrix cells are `Cell<S>`: the `-1` placeholder `Sentinel`, or `Score(v)`.
- A run ends with `Ok` or with the exception it raises, as a `CompareError`.

Full mode is strict. The first file whose extraction is falsy ends the run with
`UnsupportedFile`. An extractor, scorer or report-writer exception propagates.
The report counter runs row-major over ordered pairs `(i, j)` with `i != j`, so
pair `(i, j)` gets number `i*(n-1) + (j < i ? j : j-1)`.

Targeted mode is lenient:
- It skips the input's own basename.
- It skips candidates whose extraction fails.
- A candidate whose text equals the input's gets an empty row.
- Otherwise the row is `[-1]` when scoring raised. It is `[score]` when the
  report was written, and `[score, -1]` when writing the report raised.

Some consequences of the code that a reader might not expect:

- `os.path.splitext` treats leading dots as part of the name. So `.txt` has no
  extension in the listing, though the upload whitelist accepts it
  (`Store.DotOnlyNameListedWithoutExtension`).
- Python's `bool` is an `int`. So a JSON `true` in `serial_numbers` passes
  validation and means serial number 1 (`Endpoints.TrueMeansFirstFile`).
- The score matrix is symmetric only when the scorer is. The code adds no
  symmetry of its own (`FullMode.MatrixSymmetricIfScorerIs`).
- The upload whitelist lower-cases the text after the last dot. The
  comparison's suffix test is case-sensitive and needs no dot. An upload named
  `A.TXT` is therefore saved. When another file is already stored, the
  comparison it triggers then raises, so the handler answers 500
  (`Store.UnlistedUploadIsStoredThenFails`). Into an empty store the same
  upload gets 200, because no comparison runs (`Store.FirstUploadSucceeds`).

## Model

| member | source | states |
|---|---|---|
| Documents.EligibleNames | scripts/file_comparison.py:65-70 | the comparison candidates are exactly the listed entries that are regular files with a listed suffix, at most as many as the listing |
| Documents.EligibleNamesAppend | scripts/file_comparison.py:65-70 | the filter keeps listing order: filtering a concatenation filters each part in turn |
| Documents.Stems | scripts/file_comparison.py:83 | one row label per file: its name without the extension |
| Documents.SuffixTestNeedsNoDot | scripts/file_comparison.py:69 | the suffix test needs no dot: `notestxt` passes it |
| Documents.SuffixTestIsCaseSensitive | scripts/file_comparison.py:69 | the suffix test is case-sensitive: `A.TXT` fails it |
| FullMode.ExtractAll | scripts/file_comparison.py:79-87 | extraction succeeds iff every file's extraction is truthy; it then calls the extractor once per file and yields the extracted words in file order; otherwise it stops at the first falsy file, raising `UnsupportedFile` or the extractor's own exception |
| FullMode.BuildMatrix | scripts/file_comparison.py:96-113 | the loop succeeds iff every ordered pair scores and renders; the matrix then has `-1` exactly on the diagonal and score(i, j) elsewhere; the report calls made are the first ones of the row-major pair sequence, all n*(n-1) of them on success; on failure the loop stops at the first failing pair in row-major order, having made one call per earlier pair plus that pair's own call when only its report writer raised |
| FullMode.BuildRow | scripts/file_comparison.py:99-113 | one matrix row succeeds iff every pair in it scores and renders; the row then has `-1` in its own column and the scores elsewhere, and the report calls continue the row-major sequence up to the end of the row; a failing row stops at its first failing column, with that column's call made only when the scorer returned |
| FullMode.NextReport | scripts/file_comparison.py:103-111 | writing the report for the pair the counter has reached extends the row-major report sequence by one |
| FullMode.FirstFailureUnique | scripts/file_comparison.py:99-111 | two first failing pairs of the same run coincide, so the number of report calls a failed run made is determined |
| FullMode.Compare | scripts/file_comparison.py:46-124 | a missing directory or fewer than two eligible files fail before any extraction; the run succeeds iff every extraction is truthy, every ordered pair scores and renders, and the summary appears; a falsy extraction ends it with the extraction's error and no report call; a failing pair ends it with the scorer or writer exception, after exactly the report calls up to the first failing pair in row-major order; when only the summary is missing, all n*(n-1) calls were made; a successful run covers every eligible file, labels rows by stem, and reports every ordered pair under its counter value |
| FullMode.ReportNumbering | scripts/file_comparison.py:97-111 | report call k carries number k and the texts and names of the pair the counter designates, row document on the left |
| FullMode.EveryPairReported | scripts/file_comparison.py:99-111 | every ordered pair of distinct documents gets a report call of its own |
| FullMode.TwoDocumentRun | scripts/file_comparison.py:99-111 | two documents give exactly two report calls, (first, second) numbered 0 and (second, first) numbered 1 |
| FullMode.MatrixSymmetricIfScorerIs | scripts/file_comparison.py:101-102 | the matrix is symmetric whenever the scorer is; the code gives no symmetry of its own |
| Pairs.PairIndex | scripts/file_comparison.py:97-111 | the counter value of pair (i, j) lies within row i's range and below the pair count |
| Pairs.PairCountIsProduct | scripts/file_comparison.py:99-111 | n documents make n*(n-1) report calls |
| Pairs.PairAtIndex | scripts/file_comparison.py:97-111 | reading the pair back from its counter value gives the pair |
| Pairs.IndexPairAt | scripts/file_comparison.py:97-111 | every counter value below the pair count is the value of some pair |
| Pairs.PairIndexInjective | scripts/file_comparison.py:97-111 | distinct pairs get distinct report numbers |
| TargetedMode.Survivors | scripts/file_comparison.py:170-183 | the processed candidates are exactly the eligible names other than the input's basename with truthy extraction |
| TargetedMode.SurvivorsCons | scripts/file_comparison.py:170-183 | the first listed candidate survives iff it is eligible, is not the input and its extraction is truthy, ahead of the survivors of the rest |
| TargetedMode.SurvivorsAppend | scripts/file_comparison.py:170-183 | skipping keeps listing order across concatenation |
| TargetedMode.BadCandidateSkipped | scripts/file_comparison.py:174-183 | an unreadable candidate anywhere in the listing is skipped, and the candidates around it survive as they would without it |
| TargetedMode.CandidateStep | scripts/file_comparison.py:200-209 | a row is empty iff the texts are equal; a report is written iff the texts differ and the scorer returns; the row is `[-1]` when scoring raised, and otherwise starts with the score and has length 1 or 2 as the report writer returns or raises, ending with `-1` exactly when it raised |
| TargetedMode.CompareAll | scripts/file_comparison.py:197-209 | one row per candidate, each the candidate's step, and the report calls in candidate order |
| TargetedMode.ReportsInOrderExtend | scripts/file_comparison.py:197-209 | adding one candidate's step keeps the report calls in candidate order |
| TargetedMode.SpecificCompare | scripts/file_comparison.py:127-228 | each check fails with its own error in source order (missing input, unlisted suffix, missing directory, no eligible file, input not extracted) and reports nothing; `NoFilesProcessed` iff every candidate is excluded or skipped; the run succeeds iff every check passes, some candidate survives and the summary appears; once candidates are compared, the report calls are theirs in candidate order, and on success the rows match the surviving candidates one by one |
| Text.SplitExt | main.py:45 | the split reassembles the name; a non-empty extension starts at the last dot of the basename and follows a non-dot character |
| Text.SplitExtAtExtension | main.py:45 | a last dot of the basename that follows a non-dot character is where `splitext` cuts |
| Text.Basename | scripts/file_comparison.py:172 | the basename is a suffix of the path with no `/`, preceded by a `/` when shorter than the path |
| Text.NatToString | main.py:133 | the decimal rendering of a count is a non-empty string of digits |
| Text.LastIndexBelow | main.py:81 | finds the last occurrence before a given position, and none exactly when no earlier character matches |
| Text.LastIndexOf | main.py:81 | finds the last occurrence, and none exactly when the character is absent |
| Text.LowerOfUpper | main.py:81 | lower-casing after upper-casing is lower-casing |
| Text.NatToStringRoundTrip | main.py:133 | the decimal rendering of a count reads back as that count |
| Ordering.BelowTotal | main.py:38 | Python's string order is total on distinct strings |
| Ordering.BelowTransitive | main.py:38 | Python's string order is transitive |
| Ordering.SortedNames | main.py:38 | `sorted(os.listdir(...))` is strictly ascending and holds exactly the stored names |
| Ordering.AscendingUnique | main.py:38 | two ascending sequences with the same members are equal, so the sorted listing is unique |
| Endpoints.ExtensionLabel | main.py:45 | a name whose last dot follows a non-dot character of its basename is labelled with the upper-cased text after that dot; a non-empty label is always such text; a name without a dot has an empty label |
| Endpoints.GetFileList | main.py:31-57 | the directory exists afterwards, empty if it was missing; an empty store gives 400 "Not enough files for comparison", otherwise 200 with entries numbered from 1 that list exactly the stored names in ascending order |
| Endpoints.ListingMatchesSnapshot | main.py:38-55 | entry k of any listing names position k of the sorted snapshot a delete indexes |
| Endpoints.AsInt | main.py:103 | `isinstance(x, int)` holds for JSON integers and booleans only |
| Endpoints.SerialNumbers | main.py:97-105 | validation passes iff the body has a `serial_numbers` list of integers, yielding them in order; a missing body or key gives 400 "No serial numbers provided", and anything else under the key gives 400 "Invalid serial numbers format" |
| Endpoints.DeleteStep | main.py:116-128 | one iteration either removes the designated file and counts it as deleted, or counts one not found and changes nothing else; exactly one of the two counters grows by one |
| Endpoints.DeleteLoop | main.py:115-128 | every serial number counts once, as deleted or not found; the store loses exactly the names the in-range numbers designate |
| Endpoints.DeletedCountIsDistinctInRange | main.py:115-128 | the deleted count is the number of distinct in-range serial numbers |
| Endpoints.SnapshotDeletes | main.py:115-128 | against the snapshot, the deleted count never exceeds the serials given, and deleted plus not found is the number of serials |
| Endpoints.DeleteFiles | main.py:95-140 | validation errors leave the store unchanged; a missing directory gives 400; otherwise the designated files go, and the message reports the distinct in-range numbers as deleted and the rest as not found |
| Endpoints.IntListAccepted | main.py:97-105 | a body holding a list of plain integers passes validation with exactly those numbers |
| Endpoints.ListedIdDesignatesName | main.py:117-122 | serial number k + 1 designates the file listed with id k + 1 |
| Endpoints.DeleteByListedId | main.py:95-140 | deleting by a listed id removes exactly that file and reports one deletion |
| Endpoints.RepeatedSerialCountsOnce | main.py:115-128 | a repeated serial number deletes once and is counted once as not found |
| Endpoints.TrueMeansFirstFile | main.py:102-104 | JSON `true` passes validation and deletes the first file of the sorted listing |
| Messages.DeletionMessage | main.py:130-140 | the message is empty iff nothing was counted; otherwise it has the deleted part, the not-found part, or both joined by ", " |
| Messages.CountPartRoundTrip | main.py:131-138 | a count part reads back as its count, leaving the text after it |
| Messages.FirstPartParses | main.py:133-140 | with both counts positive, the message reads back as the deleted count followed by the separator and the not-found part |
| Messages.SecondPartParses | main.py:135-140 | after the separator the not-found part reads back with nothing left over |
| Messages.Join | main.py:140 | joining no parts gives the empty string, one part gives that part, and two parts are separated by ", " |
| Messages.DeletionMessageRoundTrip | main.py:130-140 | the two counts can be read back from the message |
| Messages.DeletionMessageInjective | main.py:130-140 | different count pairs give different messages |
| Messages.SingleDeletedExample | main.py:130-140 | one deleted file is reported as "1 file successfully deleted" |
| Messages.PluralDeletedPart | main.py:131-133 | two deleted files are reported in the plural |
| Messages.SingleNotFoundPart | main.py:135-137 | one missing file is reported in the singular |
| Messages.MixedExample | main.py:130-140 | counts 2 and 1 render as "2 files successfully deleted, 1 file not found" |
| Store.UploadExtension | main.py:81 | no extension exactly when the name has no dot; otherwise the lower-cased text after the last dot |
| Store.AcceptedIffListedAfterLastDot | main.py:81-82 | the whitelist `UploadAccepted` takes a dotted name exactly when its lower-cased text after the last dot is one of pdf, txt, docx, odt |
| Store.Calculate | main.py:14-28 | a missing directory or fewer than two stored names gives 400; otherwise the comparison's exception propagates, or 200 "Calculation successful" |
| Store.StoreFile | main.py:60-92 | a missing part or an empty name gives 400 and leaves the store alone; the store gains the name exactly when the whitelist accepts it; a dotless name gives 500; an extension off the whitelist gives 400 "Unsupported file type"; an accepted upload whose comparison runs and raises gives 500; the answer is 200 iff the upload is accepted and the comparison either does not run or does not raise |
| Store.ComparisonRunsIffOtherFile | main.py:85-88 | the comparison after an upload runs exactly when another file is already stored |
| Store.FirstUploadSucceeds | main.py:60-89 | the first accepted upload into an empty store succeeds whatever the comparison would do |
| Store.UploadExtensionAt | main.py:81 | the extension an upload shows is the lower-cased text after its last dot |
| Store.UpperKeepsLastDot | main.py:81 | upper-casing a name leaves its last dot in place |
| Store.AcceptedNameLength | main.py:81-82 | an accepted name has at least four characters |
| Store.UploadCaseInsensitive | main.py:81-82 | the whitelist ignores case |
| Store.UnlistedUploadIsStoredThenFails | main.py:81-92 | when another file is already stored, an upload accepted only after lower-casing is stored, the comparison then raises `UnsupportedFile`, and the handler answers 500 |
| Store.UpperCaseExtensionDisagrees | main.py:81-82 | `A.TXT` passes the upload whitelist but not the comparison's suffix test |
| Store.DotlessSuffixDisagrees | main.py:81-82 | `notestxt` passes the suffix test but raises in the upload handler |
| Store.DotOnlyNameListedWithoutExtension | main.py:45 | `.txt` is accepted on upload but listed without an extension |

## Left out

- The similarity algorithm (`difflib_overlap`), text extraction per format, and
  HTML rendering. The model takes them as the parameters `score`, `extract` and
  `renders`.
- `wait_for_file` polling for the summary file is the boolean
  `summaryAppears`. Opening a browser, adding links, the progress bars, and
  printing are left out.
- The output directory and the timestamped results directory are left out. So
  is the `results` directory the upload handler creates.
- File sizes in the listing (`human_readable_size`) are left out.
- Absolute-path conversion of the input directory is left out: it does not
  change which names are read.
- Subdirectories of `input_files` are left out. The handlers see only files.
  The comparison modes do see the `isFile` flag of each entry.
- Upload names containing `/` or absolute paths are left out. A name is taken as
  a plain file name in `input_files`.
- Non-object JSON bodies for deletion are left out. The body is an optional map.
- Case mapping is ASCII only.
- Store.Calculate: whether the targeted comparison raises is the parameter
  `comparisonRaises`. `Store.UnlistedUploadIsStoredThenFails` connects it to
  `TargetedMode.SpecificCompare`.
- Flask cannot call `calculate` as a route, because its route has no
  `input_file` variable. Only its call from the upload handler is modelled.
- Store.StoreFile: the text of an exception raised by the comparison is the
  opaque `CaughtException`. Only the missing-dot `IndexError` has its text.
- Exceptions from the file system itself are left out, for example a failed
  save or delete.
