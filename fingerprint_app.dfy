/**
 * The desktop application's core: the capture worker and the verification worker that run
 * the executables off the UI thread, the registration page that holds the last captured
 * template until it is saved, and the records page that lists and filters the table.
 */
module FingerprintApp {
  import opened Wrappers
  import Text
  import Extraction
  import Utf8
  import Matching
  import Storage

  /** The signal a capture worker emits when it finishes. */
  datatype ScanSignal = Captured(template: string) | Failed

  /**
   * `ScanWorker.run`: run the capture executable and emit `captured(t)` when a template is
   * extracted; emit `failed` when none is or when the run raises.
   */
  function ScanWorkerRun(capture: Matching.Run): (signal: ScanSignal)
    ensures signal.Captured? <==> capture.Ran? && Extraction.ExtractTemplate(capture.stdout).Some?
    ensures signal.Captured? ==> Extraction.ExtractTemplate(capture.stdout) == Some(signal.template)
    ensures signal.Captured? ==> Extraction.IsTemplateText(signal.template)
  {
    match capture
    case Raised => Failed
    case Ran(out) =>
      var t := Extraction.ExtractTemplate(out);
      if t.None? then Failed
      else
        Extraction.ExtractedIsTemplate(out);
        if t.value != "" then Captured(t.value) else Failed
  }

  /**
   * `VerifyWorker.run`: the signal emitted (`matched(uid)`, `no_match` or `error`), whether
   * the table was read, and how many comparator runs were made. Unlike the command-line
   * verifier, a capture without a template is reported as `no_match`, before any
   * database access. Every exception the search raises, including an undecodable stored
   * template or a comparator that cannot be run, becomes `error`; an unreadable score only
   * skips its row.
   */
  method VerifyWorkerRun(capture: Matching.Run, listing: Matching.Listing, compare: Matching.Comparator)
    returns (signal: Matching.Outcome, queried: bool, calls: nat)
    ensures capture.Raised? ==> signal == Matching.Error(Matching.CaptureFailed) && !queried && calls == 0
    ensures capture.Ran? && Extraction.ExtractTemplate(capture.stdout).None? ==>
      signal == Matching.NoMatch && !queried && calls == 0
    ensures capture.Ran? && Extraction.ExtractTemplate(capture.stdout).Some? ==> queried
    ensures queried && listing.StorageFailed? ==>
      signal == Matching.Error(Matching.StorageUnreachable) && calls == 0
    ensures queried && listing.Listed? ==>
      signal == Matching.Identify(listing.rows, compare) && calls == Matching.Calls(listing.rows, compare)
  {
    queried, calls := false, 0;
    if capture.Raised? {
      return Matching.Error(Matching.CaptureFailed), queried, calls;
    }
    var scan := Extraction.ExtractTemplate(capture.stdout);
    if scan.Some? {
      Extraction.ExtractedIsTemplate(capture.stdout);
    }
    if scan.None? || scan.value == "" {
      return Matching.NoMatch, queried, calls;
    }
    queried := true;
    if listing.StorageFailed? {
      return Matching.Error(Matching.StorageUnreachable), queried, calls;
    }
    signal, calls := SearchRows(listing.rows, compare);
  }

  /**
   * The loop of `VerifyWorker.run`: for each row decode, compare, and `return` at once on
   * a score above 60; an unreadable score skips the row, and `no_match` follows the loop.
   * It computes exactly Identify, with exactly Calls comparator runs.
   */
  method SearchRows(rows: seq<Matching.Row>, compare: Matching.Comparator) returns (signal: Matching.Outcome, calls: nat)
    ensures signal == Matching.Identify(rows, compare)
    ensures calls == Matching.Calls(rows, compare)
  {
    calls := 0;
    ghost var steps := Matching.Steps(rows, compare);
    for i := 0 to |rows|
      invariant Matching.SearchFrom(steps, i) == Matching.Identify(rows, compare)
      invariant calls + Matching.CallsFrom(steps, i) == Matching.Calls(rows, compare)
    {
      assert steps[i] == Matching.StepAt(rows, compare, i);
      var dbB64 := Utf8.Decode(rows[i].template);
      if dbB64.None? {
        return Matching.Error(Matching.UndecodableTemplate), calls;
      }
      var cmp := compare(i);
      calls := calls + 1;
      if cmp.Raised? {
        return Matching.Error(Matching.ComparatorFailed), calls;
      }
      var score := Matching.Score(cmp.stdout);
      if score.Some? && Matching.IsMatch(score.value) {
        return Matching.Matched(rows[i].uid), calls;
      }
    }
    signal := Matching.NoMatch;
  }

  /** How `_save` ends: the two input checks, a database exception, or a stored record. */
  datatype SaveResult = BlankName | NoTemplate | StorageError | Saved(record: Storage.Record)

  /** The registration page: the template of the last successful capture and the name field. */
  class RegisterPage {
    var template: Option<string>
    var nameInput: string

    /** Whatever the page holds came out of a capture worker, so it is a template text. */
    ghost predicate Valid()
      reads this
    {
      template.Some? ==> Extraction.IsTemplateText(template.value)
    }

    constructor ()
      ensures Valid()
      ensures template == None && nameInput == ""
    {
      template, nameInput := None, "";
    }

    /** The user edits the name field. */
    method SetName(text: string)
      requires Valid()
      modifies this
      ensures Valid()
      ensures nameInput == text && template == old(template)
    {
      nameInput := text;
    }

    /**
     * The end of a capture started from this page: `_on_captured(t)` replaces the held
     * template; `_on_failed` leaves the one from an earlier capture in place.
     */
    method OnScanFinished(signal: ScanSignal)
      requires Valid()
      requires signal.Captured? ==> Extraction.IsTemplateText(signal.template)
      modifies this
      ensures Valid()
      ensures template == (if signal.Captured? then Some(signal.template) else old(template))
      ensures nameInput == old(nameInput)
    {
      if signal.Captured? {
        template := Some(signal.template);
      }
    }

    /** `_reset`: forget the template and clear the name field. */
    method Reset()
      modifies this
      ensures Valid()
      ensures template == None && nameInput == ""
    {
      template := None;
      nameInput := "";
    }

    /**
     * `_save`: the stripped name must be non-empty and a template must be held (checked in
     * that order); then `(name, template.encode(), len(template))` is inserted and
     * committed and the page is reset. `dbOk` says whether connecting, inserting and
     * committing succeed; when they do not, an error is shown and nothing changes.
     */
    method Save(dbOk: bool, repo: Storage.Repository) returns (result: SaveResult)
      requires Valid()
      modifies this, repo
      ensures Valid()
      ensures Text.Strip(old(nameInput)) == "" ==> result == BlankName
      ensures Text.Strip(old(nameInput)) != "" && (old(template).None? || old(template).value == "") ==>
        result == NoTemplate
      ensures Text.Strip(old(nameInput)) != "" && old(template).Some? && old(template).value != "" ==>
        result == if dbOk then Saved(Storage.MakeRecord(Text.Strip(old(nameInput)), old(template).value)) else StorageError
      ensures result.Saved? ==>
        && repo.records == old(repo.records) + [result.record]
        && |result.record.template| == result.record.templateSize
        && template == None && nameInput == ""
      ensures !result.Saved? ==>
        repo.records == old(repo.records) && template == old(template) && nameInput == old(nameInput)
    {
      var name := Text.Strip(nameInput);
      if name == "" {
        return BlankName;
      }
      if template.None? || template.value == "" {
        return NoTemplate;
      }
      if !dbOk {
        return StorageError;
      }
      var record := Storage.MakeRecord(name, template.value);
      Storage.TemplateSizeCountsBytes(name, template.value);
      repo.Insert(record);
      Reset();
      result := Saved(record);
    }
  }

  /** One row of `SELECT id, user_id, template_size, created_at FROM fingerprints ORDER BY id DESC`. */
  datatype RecordRow = RecordRow(id: int, userId: string, templateSize: int, createdAt: Option<string>)

  /** `text.lower() in str(r[1]).lower()`: the search text occurs in the user id, ignoring case. */
  predicate MatchesSearch(row: RecordRow, text: string) {
    Text.Contains(Text.Lower(row.userId), Text.Lower(text))
  }

  /**
   * The list comprehension of `_filter`: every row whose user id matches is kept as often
   * as it occurs, and no other row is.
   */
  function KeepMatching(rows: seq<RecordRow>, text: string): (kept: seq<RecordRow>)
    ensures forall r :: r in kept ==> r in rows && MatchesSearch(r, text)
    ensures forall r :: MatchesSearch(r, text) ==> multiset(kept)[r] == multiset(rows)[r]
  {
    if rows == [] then []
    else
      var rest := KeepMatching(rows[1..], text);
      assert rows == [rows[0]] + rows[1..];
      if MatchesSearch(rows[0], text) then [rows[0]] + rest else rest
  }

  /** a is b with some elements left out, the others kept in their order. */
  ghost predicate SubsequenceOf(a: seq<RecordRow>, b: seq<RecordRow>)
    decreases |b|
  {
    if a == [] then true
    else if b == [] then false
    else if a[0] == b[0] then SubsequenceOf(a[1..], b[1..])
    else SubsequenceOf(a, b[1..])
  }

  /** Filtering keeps the table's order (`ORDER BY id DESC`). */
  lemma {:induction false} KeepMatchingInOrder(rows: seq<RecordRow>, text: string)
    ensures SubsequenceOf(KeepMatching(rows, text), rows)
  {
    if rows != [] {
      var rest := KeepMatching(rows[1..], text);
      KeepMatchingInOrder(rows[1..], text);
      if MatchesSearch(rows[0], text) {
        assert ([rows[0]] + rest)[1..] == rest;
      } else if rest != [] {
        assert rest[0] in rest;
        assert rest[0] != rows[0];
      }
    }
  }

  /** The empty search text is in every user id, so the comprehension keeps every row. */
  lemma {:induction false} EmptySearchKeepsAll(rows: seq<RecordRow>)
    ensures KeepMatching(rows, "") == rows
  {
    if rows != [] {
      Text.EmptyContained(Text.Lower(rows[0].userId));
      assert Text.Lower("") == "";
      EmptySearchKeepsAll(rows[1..]);
    }
  }

  /** The records page: the rows last loaded, and those the table shows. */
  class RecordsPage {
    var allRows: seq<RecordRow>
    var shown: seq<RecordRow>

    /** `__init__`: start with no rows, then load. */
    constructor (listing: Option<seq<RecordRow>>)
      ensures allRows == (if listing.Some? then listing.value else [])
      ensures shown == allRows
    {
      allRows, shown := [], [];
      new;
      Load(listing);
    }

    /**
     * `_load`: on success the rows replace the list and the table shows all of them,
     * whatever the search box holds; on a database exception nothing changes.
     */
    method Load(listing: Option<seq<RecordRow>>)
      modifies this
      ensures listing.Some? ==> allRows == listing.value && shown == listing.value
      ensures listing.None? ==> allRows == old(allRows) && shown == old(shown)
    {
      if listing.Some? {
        allRows := listing.value;
        shown := allRows;
      }
    }

    /**
     * `_filter(text)`: an empty text shows every row; otherwise the rows whose user id
     * contains the text, ignoring case. Either way the table shows the comprehension's rows.
     */
    method Filter(text: string)
      modifies this
      ensures shown == KeepMatching(allRows, text)
      ensures allRows == old(allRows)
    {
      if text == "" {
        EmptySearchKeepsAll(allRows);
        shown := allRows;
        return;
      }
      shown := KeepMatching(allRows, text);
    }
  }
}
