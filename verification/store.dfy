/** The upload handler and the comparison guard it calls: the extension
    whitelist an upload must pass, the two-file minimum in front of a targeted
    comparison, and how the upload whitelist and the comparison's own suffix
    filter disagree. */
module Store {
  import opened Common
  import opened Text
  import opened Ordering
  import opened Documents
  import opened TargetedMode
  import opened Endpoints

  /** The `file` part of a multipart upload: absent, or present with the name
      the client sent (the empty name is what an unselected file sends). */
  datatype Upload = NoFilePart | Upload(filename: string)

  /** The extensions an upload may carry, compared after lower-casing. */
  const AllowedExtensions: set<string> := {"pdf", "txt", "docx", "odt"}

  /** `filename.rsplit(".", 1)[1].lower()`: the lower-cased text after the last
      dot, or nothing when the name has no dot and the indexing raises. */
  function UploadExtension(filename: string): (r: Option<string>)
    ensures r.None? <==> '.' !in filename
    ensures r.Some? ==>
              exists k :: 0 <= k < |filename| && filename[k] == '.' && '.' !in filename[k + 1..]
                          && r.value == Lower(filename[k + 1..])
  {
    match LastIndexOf(filename, '.')
    case None => None
    case Some(k) =>
      assert filename[k] == '.' && '.' !in filename[k + 1..];
      Some(Lower(filename[k + 1..]))
  }

  /** A name the upload handler saves. */
  predicate UploadAccepted(filename: string) {
    filename != "" && UploadExtension(filename).Some? && UploadExtension(filename).value in AllowedExtensions
  }

  /** The whitelist decides on the text after the last dot alone. */
  lemma AcceptedIffListedAfterLastDot(filename: string, k: nat)
    requires k < |filename| && filename[k] == '.' && '.' !in filename[k + 1..]
    ensures UploadAccepted(filename) <==> Lower(filename[k + 1..]) in AllowedExtensions
  {
    var j := LastIndexOf(filename, '.').value;
    OnlyLastDotCounts(filename, j);
    UploadExtensionAt(filename, k);
  }

  /** The path the handler saves to and hands to the comparison. */
  function InputPath(filename: string): string {
    "input_files/" + filename
  }

  /** What a call of the comparison guard ends with: a response it returns, or
      the exception the targeted comparison raised, which propagates. */
  datatype Calculation = Responded(response: Response) | Threw

  /** `calculate`: the input directory must exist and its sorted listing must
      hold at least two names before the targeted comparison runs;
      `comparisonRaises` is whether that comparison raises. */
  function Calculate(d: Dir, comparisonRaises: bool): (c: Calculation)
    ensures !d.Present? ==> c == Responded(Response(400, Error("Input directory does not exist")))
    ensures c == Responded(Response(400, Error("Not enough files for comparison"))) <==> d.Present? && |d.Files()| < 2
    ensures c == Threw <==> d.Present? && |d.Files()| >= 2 && comparisonRaises
    ensures c == Responded(Response(200, Message("Calculation successful"))) <==>
              d.Present? && |d.Files()| >= 2 && !comparisonRaises
  {
    if !d.Present? then Responded(Response(400, Error("Input directory does not exist")))
    else
      var listing := SortedNames(d.Files());
      if |listing| < 2 then Responded(Response(400, Error("Not enough files for comparison")))
      else if comparisonRaises then Threw
      else Responded(Response(200, Message("Calculation successful")))
  }

  /** The success message of an upload. */
  function StoredMessage(filename: string): string {
    "File '" + filename + "' successfully stored ."
  }

  /** `store_files`: checks the upload, creates the directory, saves an accepted
      file and runs the comparison guard on it, whose own response is discarded;
      an exception anywhere after the checks becomes a 500 carrying its text. */
  function StoreFile(upload: Upload, d: Dir, comparisonRaises: bool): (r: (Dir, Response))
    ensures upload.NoFilePart? ==> r == (d, Response(400, Error("No file part")))
    ensures upload == Upload("") ==> r == (d, Response(400, Error("No selected file")))
    ensures upload.Upload? && upload.filename != "" ==> r.0.Present?
    ensures upload.Upload? && upload.filename != "" && '.' !in upload.filename ==>
              r.1 == Response(500, Error("list index out of range"))
    ensures r.0.Files() == if upload.Upload? && UploadAccepted(upload.filename) then d.Files() + {upload.filename} else d.Files()
    ensures r.1.status == 200 <==>
              upload.Upload? && UploadAccepted(upload.filename)
              && !(comparisonRaises && |d.Files() + {upload.filename}| >= 2)
    ensures r.1.status == 200 ==> r.1.body == Message(StoredMessage(upload.filename))
    ensures upload.Upload? && UploadExtension(upload.filename).Some?
            && UploadExtension(upload.filename).value !in AllowedExtensions ==>
              r.1 == Response(400, Error("Unsupported file type"))
    ensures upload.Upload? && UploadAccepted(upload.filename)
            && comparisonRaises && |d.Files() + {upload.filename}| >= 2 ==>
              r.1 == Response(500, CaughtException)
  {
    match upload
    case NoFilePart => (d, Response(400, Error("No file part")))
    case Upload(filename) =>
      if filename == "" then (d, Response(400, Error("No selected file")))
      else
        var created := Present(d.Files());
        match UploadExtension(filename)
        case None => (created, Response(500, Error("list index out of range")))
        case Some(ext) =>
          if ext !in AllowedExtensions then (created, Response(400, Error("Unsupported file type")))
          else
            var saved := Present(d.Files() + {filename});
            match Calculate(saved, comparisonRaises)
            case Threw => (saved, Response(500, CaughtException))
            case Responded(_) => (saved, Response(200, Message(StoredMessage(filename))))
  }

  /** Storing a name makes the guard let the comparison run exactly when some
      other file is already in the directory. */
  lemma ComparisonRunsIffOtherFile(files: set<string>, filename: string)
    ensures |files + {filename}| >= 2 <==> files - {filename} != {}
  {
    var all := files + {filename};
    assert all == (files - {filename}) + {filename};
    assert |all| == |files - {filename}| + 1;
    if files - {filename} != {} {
      var other :| other in files - {filename};
      assert {other, filename} <= all;
      assert |{other, filename}| == 2;
    }
  }

  /** The first upload into an empty directory never runs a comparison, so it
      succeeds whatever the comparison would do. */
  lemma FirstUploadSucceeds(d: Dir, filename: string, comparisonRaises: bool)
    requires d.Files() == {} && UploadAccepted(filename)
    ensures StoreFile(Upload(filename), d, comparisonRaises) ==
            (Present({filename}), Response(200, Message(StoredMessage(filename))))
  {
    assert d.Files() + {filename} == {filename};
  }

  /** Upper-casing keeps every dot where it was. */
  lemma UpperKeepsDots(s: string)
    ensures forall i :: 0 <= i < |s| ==> (Upper(s)[i] == '.' <==> s[i] == '.')
    ensures '.' in Upper(s) <==> '.' in s
  {
    if '.' in Upper(s) {
      var i :| 0 <= i < |s| && Upper(s)[i] == '.';
      assert s[i] == '.';
    }
    if '.' in s {
      var i :| 0 <= i < |s| && s[i] == '.';
      assert Upper(s)[i] == '.';
    }
  }

  /** Upper-casing keeps the last dot where it was. */
  lemma UpperKeepsLastDot(s: string)
    ensures LastIndexOf(Upper(s), '.') == LastIndexOf(s, '.')
  {
    var up := Upper(s);
    UpperKeepsDots(s);
    if '.' in s {
      var k := LastIndexOf(s, '.').value;
      var k' := LastIndexOf(up, '.').value;
      assert '.' !in s[k' + 1..] by {
        forall i | k' + 1 <= i < |s| ensures s[i] != '.' {
          assert up[k' + 1..][i - k' - 1] == up[i];
        }
      }
      OnlyLastDotCounts(s, k);
    }
  }

  /** The upload whitelist ignores the case of the whole name. */
  lemma UploadCaseInsensitive(filename: string)
    ensures UploadExtension(Upper(filename)) == UploadExtension(filename)
    ensures UploadAccepted(Upper(filename)) <==> UploadAccepted(filename)
  {
    UpperKeepsLastDot(filename);
    if '.' in filename {
      var k := LastIndexOf(filename, '.').value;
      calc {
        UploadExtension(Upper(filename));
        { UploadExtensionAt(Upper(filename), k); }
        Some(Lower(Upper(filename)[k + 1..]));
        { UpperOfSuffix(filename, k + 1); }
        Some(Lower(Upper(filename[k + 1..])));
        { LowerOfUpper(filename[k + 1..]); }
        Some(Lower(filename[k + 1..]));
        { UploadExtensionAt(filename, k); }
        UploadExtension(filename);
      }
    }
  }

  /** The extension an upload shows is what follows its last dot. */
  lemma UploadExtensionAt(s: string, k: nat)
    requires LastIndexOf(s, '.') == Some(k)
    ensures k < |s| && UploadExtension(s) == Some(Lower(s[k + 1..]))
  {
    match LastIndexOf(s, '.')
    case Some(j) =>
      calc {
        UploadExtension(s);
        Some(Lower(s[j + 1..]));
        { assert j == k; }
        Some(Lower(s[k + 1..]));
      }
  }

  /** Upper-casing commutes with taking a suffix. */
  lemma UpperOfSuffix(s: string, i: nat)
    requires i <= |s|
    ensures Upper(s)[i..] == Upper(s[i..])
  {
  }

  /** A listed suffix is decided by the last characters alone, so a directory
      prefix does not change it for names at least as long as every suffix. */
  lemma SuffixTestIgnoresDirectory(dir: string, filename: string)
    requires |filename| >= 4
    ensures HasListedSuffix(dir + filename) <==> HasListedSuffix(filename)
  {
    var p := dir + filename;
    forall k | 0 <= k < |Suffixes|
      ensures EndsWith(p, Suffixes[k]) <==> EndsWith(filename, Suffixes[k])
    {
      var t := Suffixes[k];
      assert |t| <= 4;
      assert p[|p| - |t|..] == filename[|filename| - |t|..];
    }
  }

  /** An accepted name is long enough for the suffix test to see only its own
      characters. */
  lemma AcceptedNameLength(filename: string)
    requires UploadAccepted(filename)
    ensures |filename| >= 4
  {
    var k := LastIndexOf(filename, '.').value;
    UploadExtensionAt(filename, k);
    var ext := UploadExtension(filename).value;
    assert |ext| >= 3 by {
      assert ext == "pdf" || ext == "txt" || ext == "docx" || ext == "odt";
    }
    assert |ext| == |filename| - k - 1;
  }

  /** An upload whose name passes the whitelist only after lower-casing is saved,
      and the comparison then refuses it as an input of unsupported type, so the
      handler answers 500 while the file stays stored. */
  lemma UnlistedUploadIsStoredThenFails<S>(d: Dir, filename: string, listing: seq<Entry>, inputText: Extracted,
                                            extract: string -> Extracted, score: (Tokens, Tokens) -> Option<S>,
                                            renders: Report -> bool, blockSize: int, summaryAppears: bool)
    requires UploadAccepted(filename) && !HasListedSuffix(filename) && d.Files() - {filename} != {}
    ensures var run := SpecificCompare(InputPath(filename), true, true, listing, inputText, extract, score,
                                       renders, blockSize, summaryAppears);
            && run == TargetedRun(Err(UnsupportedFile), [])
            && StoreFile(Upload(filename), d, run.outcome.Err?) ==
               (Present(d.Files() + {filename}), Response(500, CaughtException))
  {
    AcceptedNameLength(filename);
    SuffixTestIgnoresDirectory("input_files/", filename);
    ComparisonRunsIffOtherFile(d.Files(), filename);
  }

  /** An upper-case extension passes the upload whitelist but not the
      comparison's case-sensitive suffix test. */
  lemma UpperCaseExtensionDisagrees()
    ensures UploadAccepted("A.TXT") && !HasListedSuffix("A.TXT")
  {
    SuffixTestIsCaseSensitive();
    assert UploadExtension("A.TXT") == Some("txt") by {
      assert LastIndexOf("A.TXT", '.') == Some(1);
      assert "A.TXT"[2..] == "TXT";
      assert Lower("TXT") == "txt";
    }
  }

  /** A name that merely ends in a listed suffix passes the comparison's suffix
      test but has no dot for the upload handler. */
  lemma DotlessSuffixDisagrees()
    ensures !UploadAccepted("notestxt") && HasListedSuffix("notestxt")
  {
    SuffixTestNeedsNoDot();
    assert UploadExtension("notestxt").None? by {
      assert forall i :: 0 <= i < |"notestxt"| ==> "notestxt"[i] != '.';
    }
  }

  /** A name that is all dot prefix, such as `.txt`, passes the upload whitelist,
      yet the listing shows it without an extension, because `os.path.splitext`
      treats leading dots as part of the name. */
  lemma DotOnlyNameListedWithoutExtension()
    ensures UploadAccepted(".txt")
    ensures ExtensionLabel(".txt") == ""
  {
    assert LastIndexOf(".txt", '.') == Some(0);
    assert Lower("txt") == "txt";
    assert ".txt"[1..] == "txt";
    var parts := SplitExt(".txt");
    assert BaseStart(".txt") == 0 by {
      assert forall i :: 0 <= i < 4 ==> ".txt"[i] != '/';
    }
    assert forall i :: 1 <= i < 4 ==> ".txt"[i] != '.';
    assert !HasNonDot(".txt"[0..0]);
  }
}
