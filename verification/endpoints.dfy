/** The request handlers of the file-store service: listing the stored files,
    deleting them by serial number, accepting an upload, and the guard in front
    of a targeted comparison. The `input_files` directory is a set of names. */
module Endpoints {
  import opened Common
  import opened Text
  import opened Ordering
  import opened Messages

  /** The input directory: missing, or present with the names of the files in it. */
  datatype Dir = Missing | Present(stored: set<string>) {
    /** What `os.listdir` sees: a missing directory holds no names. */
    function Files(): set<string> {
      if Present? then stored else {}
    }
  }

  /** One row of the file listing (the size column is not modelled). */
  datatype FileEntry = FileEntry(id: nat, fileName: string, extension: string)

  /** A JSON response body: a message, an error text, the error text of an
      exception the handler caught, or the file listing. */
  datatype Body = Message(text: string) | Error(text: string) | CaughtException | Entries(entries: seq<FileEntry>)

  datatype Response = Response(status: nat, body: Body)

  /** `os.path.splitext(name)[1][1:].upper()`: the extension without its dot,
      upper-cased. */
  function ExtensionLabel(name: string): (ext: string)
    ensures ext != "" ==> exists k :: ExtensionDot(name, k) && ext == Upper(name[k + 1..])
    ensures '.' !in name ==> ext == ""
    ensures forall k :: ExtensionDot(name, k) ==> ext == Upper(name[k + 1..])
  {
    var parts := SplitExt(name);
    assert forall k :: ExtensionDot(name, k) ==> parts == (name[..k], name[k..]) by {
      forall k | ExtensionDot(name, k) ensures parts == (name[..k], name[k..]) {
        SplitExtAtExtension(name, k);
      }
    }
    if parts.1 == "" then ""
    else
      assert name[|parts.0|] == '.' && name[|parts.0| + 1..] == parts.1[1..];
      assert ExtensionDot(name, |parts.0|);
      Upper(parts.1[1..])
  }

  /** The names column of a listing. */
  function FileNames(entries: seq<FileEntry>): (r: seq<string>)
    ensures |r| == |entries| && forall k :: 0 <= k < |entries| ==> r[k] == entries[k].fileName
  {
    seq(|entries|, k requires 0 <= k < |entries| => entries[k].fileName)
  }

  /** `entries` is the listing of `files`: ids 1..n, names ascending and covering
      exactly the stored names, each with its extension label. */
  ghost predicate ListsStore(entries: seq<FileEntry>, files: set<string>) {
    && |entries| == |files|
    && (forall k :: 0 <= k < |entries| ==>
          entries[k].id == k + 1 && entries[k].extension == ExtensionLabel(entries[k].fileName))
    && StrictlyAscending(FileNames(entries))
    && (forall x :: x in files <==> x in FileNames(entries))
  }

  /** `get_file_list`: creates the directory if needed; an empty directory is an
      error, otherwise one entry per file over the sorted listing. */
  function GetFileList(d: Dir): (r: (Dir, Response))
    ensures r.0 == Present(d.Files())
    ensures d.Files() == {} <==> r.1 == Response(400, Error("Not enough files for comparison"))
    ensures d.Files() != {} ==> r.1.status == 200 && r.1.body.Entries? && ListsStore(r.1.body.entries, d.Files())
  {
    var listing := SortedNames(d.Files());
    if listing == [] then (Present(d.Files()), Response(400, Error("Not enough files for comparison")))
    else
      var entries := seq(|listing|, k requires 0 <= k < |listing| =>
                           FileEntry(k + 1, listing[k], ExtensionLabel(listing[k])));
      assert FileNames(entries) == listing;
      (Present(d.Files()), Response(200, Entries(entries)))
  }

  /** Entry k of a listing names the file at position k of the sorted snapshot
      that a delete request indexes, so id k + 1 means that file. */
  lemma ListingMatchesSnapshot(entries: seq<FileEntry>, files: set<string>)
    requires ListsStore(entries, files)
    ensures |SortedNames(files)| == |entries|
    ensures forall k :: 0 <= k < |entries| ==> SortedNames(files)[k] == entries[k].fileName
  {
    AscendingUnique(FileNames(entries), SortedNames(files));
  }

  /** A JSON value as the request parser produces it. */
  datatype Json = JNull | JBool(b: bool) | JInt(i: int) | JFloat | JString(s: string)
                | JArray(items: seq<Json>) | JObject(fields: map<string, Json>)

  /** `isinstance(j, int)`, under which Python booleans are the integers 1 and 0. */
  function AsInt(j: Json): (r: Option<int>)
    ensures r.Some? <==> j.JInt? || j.JBool?
  {
    match j
    case JInt(i) => Some(i)
    case JBool(b) => Some(if b then 1 else 0)
    case _ => None
  }

  /** Validation of the request body of a delete: the `serial_numbers` key must be
      present and hold a list of integers. */
  function SerialNumbers(body: Option<map<string, Json>>): (r: Result<seq<int>, Response>)
    ensures r.Err? ==> r.error.status == 400
    ensures r == Err(Response(400, Error("No serial numbers provided"))) <==>
              body.None? || "serial_numbers" !in body.value
    ensures r == Err(Response(400, Error("Invalid serial numbers format"))) <==>
              && body.Some? && "serial_numbers" in body.value
              && !(body.value["serial_numbers"].JArray?
                   && forall k :: 0 <= k < |body.value["serial_numbers"].items| ==>
                        AsInt(body.value["serial_numbers"].items[k]).Some?)
    ensures r.Ok? <==>
              body.Some? && "serial_numbers" in body.value && body.value["serial_numbers"].JArray?
              && forall k :: 0 <= k < |body.value["serial_numbers"].items| ==> AsInt(body.value["serial_numbers"].items[k]).Some?
    ensures r.Ok? ==>
              var items := body.value["serial_numbers"].items;
              |r.value| == |items| && forall k :: 0 <= k < |items| ==> AsInt(items[k]) == Some(r.value[k])
  {
    if body.None? || body.value == map[] || "serial_numbers" !in body.value then
      Err(Response(400, Error("No serial numbers provided")))
    else
      var v := body.value["serial_numbers"];
      if !v.JArray? || !(forall k :: 0 <= k < |v.items| ==> AsInt(v.items[k]).Some?) then
        Err(Response(400, Error("Invalid serial numbers format")))
      else
        Ok(seq(|v.items|, k requires 0 <= k < |v.items| => AsInt(v.items[k]).value))
  }

  /** The loop state of a delete: the files still present and the two counters. */
  datatype Tally = Tally(files: set<string>, deleted: nat, notFound: nat)

  /** One iteration: serial number s names position s - 1 of the snapshot; a
      position outside it, or a file already gone, counts as not found. */
  function DeleteStep(snapshot: seq<string>, t: Tally, serial: int): (r: Tally)
    ensures r.deleted == t.deleted + 1 || (r.deleted == t.deleted && r.notFound == t.notFound + 1)
    ensures r.deleted + r.notFound == t.deleted + t.notFound + 1
    ensures r.deleted == t.deleted + 1 <==> 1 <= serial <= |snapshot| && snapshot[serial - 1] in t.files
    ensures r.deleted == t.deleted + 1 ==> r.files == t.files - {snapshot[serial - 1]}
    ensures r.notFound == t.notFound + 1 ==> r.files == t.files
  {
    var index := serial - 1;
    if index < 0 || index >= |snapshot| then t.(notFound := t.notFound + 1)
    else if snapshot[index] in t.files then Tally(t.files - {snapshot[index]}, t.deleted + 1, t.notFound)
    else t.(notFound := t.notFound + 1)
  }

  /** The names the in-range serial numbers designate. */
  function Targets(snapshot: seq<string>, serials: seq<int>): set<string> {
    set s | s in serials && 1 <= s <= |snapshot| :: snapshot[s - 1]
  }

  /** The distinct serial numbers within 1..n. */
  function InRange(serials: seq<int>, n: nat): set<int> {
    set s | s in serials && 1 <= s <= n
  }

  /** The delete loop over the serial numbers, in request order. */
  function DeleteLoop(snapshot: seq<string>, files: set<string>, serials: seq<int>): (t: Tally)
    ensures t.deleted + t.notFound == |serials|
    ensures t.files == files - Targets(snapshot, serials)
    decreases |serials|
  {
    if serials == [] then Tally(files, 0, 0)
    else
      var prefix := serials[..|serials| - 1];
      var last := serials[|serials| - 1];
      TargetsSnoc(snapshot, prefix, last);
      assert serials == prefix + [last];
      DeleteStep(snapshot, DeleteLoop(snapshot, files, prefix), last)
  }

  lemma TargetsSnoc(snapshot: seq<string>, prefix: seq<int>, last: int)
    ensures Targets(snapshot, prefix + [last]) ==
            Targets(snapshot, prefix) + (if 1 <= last <= |snapshot| then {snapshot[last - 1]} else {})
  {
    var serials := prefix + [last];
    forall x | x in Targets(snapshot, serials)
      ensures x in Targets(snapshot, prefix) || (1 <= last <= |snapshot| && x == snapshot[last - 1])
    {
      var s :| s in serials && 1 <= s <= |snapshot| && snapshot[s - 1] == x;
      if s != last { assert s in prefix; }
    }
    forall x | x in Targets(snapshot, prefix) ensures x in Targets(snapshot, serials) {
      var s :| s in prefix && 1 <= s <= |snapshot| && snapshot[s - 1] == x;
      assert s in serials;
    }
    if 1 <= last <= |snapshot| {
      assert last in serials;
    }
  }

  lemma InRangeSnoc(prefix: seq<int>, last: int, n: nat)
    ensures InRange(prefix + [last], n) == InRange(prefix, n) + (if 1 <= last <= n then {last} else {})
  {
    var serials := prefix + [last];
    forall s | s in serials ensures s in prefix || s == last { }
    assert last in serials;
  }

  predicate Distinct(s: seq<string>) {
    forall i, j :: 0 <= i < |s| && 0 <= j < |s| && i != j ==> s[i] != s[j]
  }

  /** Over a snapshot of the store, each distinct in-range serial number deletes
      one file; repeats and out-of-range numbers count as not found. */
  lemma {:induction false} DeletedCountIsDistinctInRange(snapshot: seq<string>, files: set<string>, serials: seq<int>)
    requires Distinct(snapshot)
    requires forall x :: x in snapshot <==> x in files
    ensures DeleteLoop(snapshot, files, serials).deleted == |InRange(serials, |snapshot|)|
    decreases |serials|
  {
    if serials != [] {
      var prefix := serials[..|serials| - 1];
      var last := serials[|serials| - 1];
      assert serials == prefix + [last];
      DeletedCountIsDistinctInRange(snapshot, files, prefix);
      InRangeSnoc(prefix, last, |snapshot|);
      var t := DeleteLoop(snapshot, files, prefix);
      if 1 <= last <= |snapshot| {
        var name := snapshot[last - 1];
        if last in prefix {
          assert name in Targets(snapshot, prefix);
          assert name !in t.files;
          assert last in InRange(prefix, |snapshot|);
          assert InRange(serials, |snapshot|) == InRange(prefix, |snapshot|);
        } else {
          assert name !in Targets(snapshot, prefix);
          assert name in t.files;
          assert last !in InRange(prefix, |snapshot|);
        }
      }
    }
  }

  /** Over the sorted snapshot of the store, the loop deletes one file per
      distinct in-range serial number and counts the rest as not found. */
  lemma SnapshotDeletes(files: set<string>, serials: seq<int>)
    ensures var t := DeleteLoop(SortedNames(files), files, serials);
      && t.deleted == |InRange(serials, |files|)| <= |serials|
      && t.notFound == |serials| - t.deleted
  {
    var snapshot := SortedNames(files);
    AscendingDistinct(snapshot);
    DeletedCountIsDistinctInRange(snapshot, files, serials);
  }

  /** `delete_files`: validation, then the loop over the serial numbers against the
      sorted listing taken once beforehand, then the summary message. */
  function DeleteFiles(body: Option<map<string, Json>>, d: Dir): (r: (Dir, Response))
    ensures SerialNumbers(body).Err? ==> r == (d, SerialNumbers(body).error)
    ensures SerialNumbers(body).Ok? && !d.Present? ==> r == (d, Response(400, Error("Input directory does not exist")))
    ensures SerialNumbers(body).Ok? && d.Present? ==>
              var serials := SerialNumbers(body).value;
              var deleted := |InRange(serials, |d.Files()|)|;
              && r.0 == Present(d.Files() - Targets(SortedNames(d.Files()), serials))
              && deleted <= |serials|
              && r.1 == Response(200, Message(DeletionMessage(deleted, |serials| - deleted)))
  {
    match SerialNumbers(body)
    case Err(response) => (d, response)
    case Ok(serials) =>
      if !d.Present? then (d, Response(400, Error("Input directory does not exist")))
      else
        var t := DeleteLoop(SortedNames(d.Files()), d.Files(), serials);
        SnapshotDeletes(d.Files(), serials);
        (Present(t.files), Response(200, Message(DeletionMessage(t.deleted, t.notFound))))
  }

  /** A body carrying a list of plain integers passes validation with those numbers. */
  lemma IntListAccepted(serials: seq<int>)
    ensures SerialNumbers(Some(map["serial_numbers" := JArray(seq(|serials|, k requires 0 <= k < |serials| => JInt(serials[k])))]))
            == Ok(serials)
  {
    var items := seq(|serials|, k requires 0 <= k < |serials| => JInt(serials[k]));
    var body := map["serial_numbers" := JArray(items)];
    assert body["serial_numbers"] == JArray(items);
    assert forall k :: 0 <= k < |items| ==> AsInt(items[k]) == Some(serials[k]);
    var r := SerialNumbers(Some(body));
    assert r.Ok?;
    assert r.value == serials;
  }

  /** A request naming only serial number k + 1 designates position k. */
  lemma SingleSerialTargets(snapshot: seq<string>, k: nat)
    requires k < |snapshot|
    ensures Targets(snapshot, [k + 1]) == {snapshot[k]}
    ensures InRange([k + 1], |snapshot|) == {k + 1}
  {
    assert [] + [k + 1] == [k + 1];
    TargetsSnoc(snapshot, [], k + 1);
    assert Targets(snapshot, []) == {};
    InRangeSnoc([], k + 1, |snapshot|);
    assert InRange([], |snapshot|) == {};
  }

  /** Serial number k + 1 designates the name listed with id k + 1. */
  lemma ListedIdDesignatesName(entries: seq<FileEntry>, files: set<string>, k: nat)
    requires ListsStore(entries, files) && k < |entries|
    ensures entries[k].fileName in files
    ensures Targets(SortedNames(files), [entries[k].id]) == {entries[k].fileName}
    ensures InRange([entries[k].id], |files|) == {entries[k].id}
  {
    assert FileNames(entries)[k] == entries[k].fileName;
    assert entries[k].id == k + 1;
    ListingMatchesSnapshot(entries, files);
    SingleSerialTargets(SortedNames(files), k);
  }

  /** Deleting by the id the listing shows removes exactly that file and reports
      one deletion. */
  lemma DeleteByListedId(d: Dir, entries: seq<FileEntry>, k: nat)
    requires d.Present? && ListsStore(entries, d.Files()) && k < |entries|
    ensures var e := entries[k];
      var r := DeleteFiles(Some(map["serial_numbers" := JArray([JInt(e.id)])]), d);
      r.0.Files() == d.Files() - {e.fileName} && e.fileName in d.Files()
      && r.1 == Response(200, Message(DeletionMessage(1, 0)))
  {
    ListedIdDesignatesName(entries, d.Files(), k);
    SingleIdAccepted(entries[k].id);
  }

  /** A body naming one serial number passes validation with just that number. */
  lemma SingleIdAccepted(id: int)
    ensures SerialNumbers(Some(map["serial_numbers" := JArray([JInt(id)])])) == Ok([id])
  {
    IntListAccepted([id]);
    assert seq(1, i requires 0 <= i < 1 => JInt([id][i])) == [JInt(id)];
  }

  /** The same serial number twice deletes one file and reports the repeat as not found. */
  lemma RepeatedSerialCountsOnce(d: Dir, s: int)
    requires d.Present? && 1 <= s <= |d.Files()|
    ensures var r := DeleteFiles(Some(map["serial_numbers" := JArray([JInt(s), JInt(s)])]), d);
      r.1 == Response(200, Message(DeletionMessage(1, 1)))
  {
    IntListAccepted([s, s]);
    assert seq(2, i requires 0 <= i < 2 => JInt([s, s][i])) == [JInt(s), JInt(s)];
    assert InRange([s, s], |d.Files()|) == {s};
  }

  /** A JSON `true` passes validation as the serial number 1. */
  lemma TrueMeansFirstFile(d: Dir)
    requires d.Present? && d.Files() != {}
    ensures DeleteFiles(Some(map["serial_numbers" := JArray([JBool(true)])]), d).0.Files()
            == d.Files() - {SortedNames(d.Files())[0]}
  {
    var body := map["serial_numbers" := JArray([JBool(true)])];
    assert body["serial_numbers"] == JArray([JBool(true)]);
    assert AsInt(JBool(true)) == Some(1);
    var r := SerialNumbers(Some(body));
    assert r.Ok?;
    assert r.value == [1];
    var snapshot := SortedNames(d.Files());
    assert Targets(snapshot, [1]) == {snapshot[0]} by {
      TargetsSnoc(snapshot, [], 1);
      assert Targets(snapshot, []) == {};
      assert [] + [1] == [1];
    }
  }
}
