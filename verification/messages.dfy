/** The summary message of a delete request: "k file(s) successfully deleted"
    and "m file(s) not found", each present only when its count is positive,
    joined by ", ", with "file" in the singular exactly when the count is 1. */
module Messages {
  import opened Common
  import opened Text

  const DeletedPhrase: string := "successfully deleted"
  const NotFoundPhrase: string := "not found"

  /** `f"{n} file{'s' if n != 1 else ''} {what}"`. */
  function CountPart(n: nat, what: string): string {
    NatToString(n) + " file" + (if n != 1 then "s" else "") + " " + what
  }

  /** `sep.join(parts)`. */
  function Join(parts: seq<string>, sep: string): (r: string)
    ensures parts == [] ==> r == ""
    ensures |parts| == 1 ==> r == parts[0]
    ensures |parts| == 2 ==> r == parts[0] + sep + parts[1]
    decreases |parts|
  {
    if parts == [] then ""
    else if |parts| == 1 then parts[0]
    else parts[0] + sep + Join(parts[1..], sep)
  }

  /** The message of a delete request that deleted `deleted` files and did not
      find `notFound`. */
  function DeletionMessage(deleted: nat, notFound: nat): (msg: string)
    ensures msg == "" <==> deleted == 0 && notFound == 0
    ensures deleted > 0 && notFound == 0 ==> msg == CountPart(deleted, DeletedPhrase)
    ensures deleted == 0 && notFound > 0 ==> msg == CountPart(notFound, NotFoundPhrase)
    ensures deleted > 0 && notFound > 0 ==>
              msg == CountPart(deleted, DeletedPhrase) + ", " + CountPart(notFound, NotFoundPhrase)
  {
    var parts := (if deleted > 0 then [CountPart(deleted, DeletedPhrase)] else [])
                 + (if notFound > 0 then [CountPart(notFound, NotFoundPhrase)] else []);
    Join(parts, ", ")
  }

  /** Reads one count part off the front of `s`: the count and what follows the part. */
  function ParseCountPart(s: string, what: string): Option<(nat, string)> {
    var k := LeadingDigitCount(s);
    if k == 0 then None
    else
      var n := DigitsValue(s[..k]);
      var tail := " file" + (if n != 1 then "s" else "") + " " + what;
      var rest := s[k..];
      if |tail| <= |rest| && rest[..|tail|] == tail then Some((n, rest[|tail|..])) else None
  }

  /** Recovers both counts from a deletion message. */
  function ParseDeletionMessage(msg: string): Option<(nat, nat)> {
    if msg == "" then Some((0, 0))
    else
      match ParseCountPart(msg, DeletedPhrase)
      case Some(p) =>
        if p.1 == "" then Some((p.0, 0))
        else if |p.1| >= 2 && p.1[..2] == ", " then
          match ParseCountPart(p.1[2..], NotFoundPhrase)
          case Some(q) => if q.1 == "" then Some((p.0, q.0)) else None
          case None => None
        else None
      case None =>
        match ParseCountPart(msg, NotFoundPhrase)
        case Some(q) => if q.1 == "" then Some((0, q.0)) else None
        case None => None
  }

  /** A count part followed by anything reads back as its count and that remainder. */
  lemma CountPartRoundTrip(n: nat, what: string, t: string)
    ensures ParseCountPart(CountPart(n, what) + t, what) == Some((n, t))
  {
    var digits := NatToString(n);
    var tail := " file" + (if n != 1 then "s" else "") + " " + what;
    var s := CountPart(n, what) + t;
    assert s == digits + (tail + t);
    LeadingDigitsOfCount(n, tail + t);
    assert s[..|digits|] == digits;
    NatToStringRoundTrip(n);
    assert s[|digits|..] == tail + t;
    assert (tail + t)[..|tail|] == tail;
    assert (tail + t)[|tail|..] == t;
  }

  /** A not-found part is never read as a deleted part. */
  lemma NotFoundIsNotDeleted(m: nat)
    ensures ParseCountPart(CountPart(m, NotFoundPhrase), DeletedPhrase).None?
  {
    var digits := NatToString(m);
    var plural := if m != 1 then "s" else "";
    var s := CountPart(m, NotFoundPhrase);
    assert s == digits + (" file" + plural + " " + NotFoundPhrase);
    LeadingDigitsOfCount(m, " file" + plural + " " + NotFoundPhrase);
    assert s[..|digits|] == digits;
    NatToStringRoundTrip(m);
  }

  /** In a message with both parts, the deleted part reads back first, leaving
      the separator and the not-found part. */
  lemma FirstPartParses(deleted: nat, notFound: nat)
    requires deleted > 0 && notFound > 0
    ensures ParseCountPart(DeletionMessage(deleted, notFound), DeletedPhrase)
            == Some((deleted, ", " + CountPart(notFound, NotFoundPhrase)))
  {
    var rest := ", " + CountPart(notFound, NotFoundPhrase);
    assert DeletionMessage(deleted, notFound) == CountPart(deleted, DeletedPhrase) + rest;
    CountPartRoundTrip(deleted, DeletedPhrase, rest);
  }

  /** After the separator, the not-found part reads back with nothing left. */
  lemma SecondPartParses(notFound: nat)
    ensures var rest := ", " + CountPart(notFound, NotFoundPhrase);
      |rest| >= 2 && rest[..2] == ", " && ParseCountPart(rest[2..], NotFoundPhrase) == Some((notFound, ""))
  {
    var second := CountPart(notFound, NotFoundPhrase);
    assert (", " + second)[2..] == second + "";
    CountPartRoundTrip(notFound, NotFoundPhrase, "");
  }

  /** A message with both parts reads back as both counts. */
  lemma BothPartsRoundTrip(deleted: nat, notFound: nat)
    requires deleted > 0 && notFound > 0
    ensures ParseDeletionMessage(DeletionMessage(deleted, notFound)) == Some((deleted, notFound))
  {
    FirstPartParses(deleted, notFound);
    SecondPartParses(notFound);
  }

  /** The message determines both counts. */
  lemma DeletionMessageRoundTrip(deleted: nat, notFound: nat)
    ensures ParseDeletionMessage(DeletionMessage(deleted, notFound)) == Some((deleted, notFound))
  {
    if deleted > 0 && notFound == 0 {
      CountPartRoundTrip(deleted, DeletedPhrase, "");
      assert CountPart(deleted, DeletedPhrase) + "" == DeletionMessage(deleted, notFound);
    } else if deleted > 0 {
      BothPartsRoundTrip(deleted, notFound);
    } else if notFound > 0 {
      NotFoundIsNotDeleted(notFound);
      CountPartRoundTrip(notFound, NotFoundPhrase, "");
      assert CountPart(notFound, NotFoundPhrase) + "" == DeletionMessage(deleted, notFound);
    }
  }

  /** Different counts never produce the same message. */
  lemma DeletionMessageInjective(d: nat, m: nat, d': nat, m': nat)
    requires DeletionMessage(d, m) == DeletionMessage(d', m')
    ensures d == d' && m == m'
  {
    DeletionMessageRoundTrip(d, m);
    DeletionMessageRoundTrip(d', m');
  }

  /** One deleted file is reported in the singular. */
  lemma SingleDeletedExample()
    ensures DeletionMessage(1, 0) == "1 file successfully deleted"
  {
    calc {
      DeletionMessage(1, 0);
      CountPart(1, DeletedPhrase);
      { assert NatToString(1) == "1"; }
      "1" + " file" + "" + " " + DeletedPhrase;
      "1 file successfully deleted";
    }
  }

  /** Two deleted files are reported in the plural. */
  lemma PluralDeletedPart()
    ensures CountPart(2, DeletedPhrase) == "2 files successfully deleted"
  {
    calc {
      CountPart(2, DeletedPhrase);
      { assert NatToString(2) == "2"; }
      "2" + " file" + "s" + " " + DeletedPhrase;
      "2 files successfully deleted";
    }
  }

  /** One missing file is reported in the singular. */
  lemma SingleNotFoundPart()
    ensures CountPart(1, NotFoundPhrase) == "1 file not found"
  {
    calc {
      CountPart(1, NotFoundPhrase);
      { assert NatToString(1) == "1"; }
      "1" + " file" + "" + " " + NotFoundPhrase;
      "1 file not found";
    }
  }

  /** Both parts, plural and singular, joined by a comma. */
  lemma MixedExample()
    ensures DeletionMessage(2, 1) == "2 files successfully deleted, 1 file not found"
  {
    calc {
      DeletionMessage(2, 1);
      CountPart(2, DeletedPhrase) + ", " + CountPart(1, NotFoundPhrase);
      { PluralDeletedPart(); SingleNotFoundPart(); }
      "2 files successfully deleted" + ", " + "1 file not found";
      "2 files successfully deleted, 1 file not found";
    }
  }
}
