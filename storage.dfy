/**
 * The `fingerprints` table as the core sees it: the enrolment paths insert one record
 * `(user_id, template, template_size)` (the database fills in `id` and `created_at`), and
 * the verification paths read `(user_id, template)` rows back.
 */
module Storage {
  import opened Wrappers
  import Utf8
  import Extraction
  import Matching

  /** The columns an enrolment path writes. */
  datatype Record = Record(userId: string, template: seq<Utf8.byte>, templateSize: int)

  /** The tuple every enrolment path inserts: `(name, template.encode(), len(template))`. */
  function MakeRecord(name: string, template: string): (r: Record)
    ensures r.userId == name
    ensures Utf8.Decode(r.template) == Some(template)
    ensures r.templateSize == |template|
  {
    Utf8.DecodeEncode(template);
    Record(name, Utf8.Encode(template), |template|)
  }

  /** What `SELECT user_id, template` reads back of a record. */
  function AsRow(r: Record): Matching.Row {
    Matching.Row(r.userId, r.template)
  }

  /**
   * For an extracted template (base64, so ASCII) the stored size is also the number of
   * stored bytes, and verification decodes exactly the enrolled text back.
   */
  lemma TemplateSizeCountsBytes(name: string, template: string)
    requires Extraction.IsTemplateText(template)
    ensures |MakeRecord(name, template).template| == MakeRecord(name, template).templateSize
    ensures Utf8.Decode(AsRow(MakeRecord(name, template)).template) == Some(template)
  {
    forall k | 0 <= k < |template| ensures template[k] as int < 0x80 {
      assert Extraction.IsBase64Char(template[k]);
    }
    Utf8.EncodeAscii(template);
  }

  /**
   * Rows read back from enrolled records always decode, so a search over them never
   * fails with UndecodableTemplate.
   */
  lemma {:induction false} EnrolledRowsDecode(names: seq<string>, templates: seq<string>, compare: Matching.Comparator)
    requires |names| == |templates|
    ensures var rows := seq(|names|, i requires 0 <= i < |names| => AsRow(MakeRecord(names[i], templates[i])));
      Matching.Identify(rows, compare) != Matching.Error(Matching.UndecodableTemplate)
  {
    var rows := seq(|names|, i requires 0 <= i < |names| => AsRow(MakeRecord(names[i], templates[i])));
    var steps := Matching.Steps(rows, compare);
    Matching.SearchEndsAtFirstStop(steps, 0);
    var k := Matching.FirstStop(steps, 0);
    if k < |rows| {
      assert Utf8.Decode(rows[k].template) == Some(templates[k]);
      assert steps[k] == Matching.StepAt(rows, compare, k);
    }
  }

  /** The table: records in insertion order. */
  class Repository {
    var records: seq<Record>

    constructor (initial: seq<Record>)
      ensures records == initial
    {
      records := initial;
    }

    /** `INSERT INTO fingerprints ... VALUES (...)` followed by a successful commit. */
    method Insert(r: Record)
      modifies this
      ensures records == old(records) + [r]
    {
      records := records + [r];
    }
  }

  /** How a command-line enrolment script ends. */
  datatype SaveEnd =
    | NoTemplateFound         // "No valid fingerprint template found", then exit()
    | Saved(record: Record)   // "Saved to DB"
    | Crashed(failure: Matching.Failure)  // an uncaught exception ended the script

  /**
   * The body shared by the two enrolment scripts: run the capture executable, scan its
   * lines backwards for the template, exit when there is none, otherwise connect and insert
   * `(name, template.encode(), len(template))`. `dbOk` says whether connecting, inserting
   * and committing succeed; when they do not, the uncaught exception ends the script and
   * nothing is stored.
   */
  method EnrollFromCapture(capture: Matching.Run, name: string, dbOk: bool, repo: Repository)
    returns (end: SaveEnd)
    modifies repo
    ensures capture.Raised? ==> end == Crashed(Matching.CaptureFailed)
    ensures capture.Ran? && Extraction.ExtractTemplate(capture.stdout).None? ==> end == NoTemplateFound
    ensures capture.Ran? && Extraction.ExtractTemplate(capture.stdout).Some? ==>
      end == if dbOk then Saved(MakeRecord(name, Extraction.ExtractTemplate(capture.stdout).value))
             else Crashed(Matching.StorageUnreachable)
    ensures repo.records == if end.Saved? then old(repo.records) + [end.record] else old(repo.records)
  {
    if capture.Raised? {
      return Crashed(Matching.CaptureFailed);
    }
    var template := Extraction.ScanForTemplate(capture.stdout);
    if template.None? || template.value == "" {
      return NoTemplateFound;
    }
    if !dbOk {
      return Crashed(Matching.StorageUnreachable);
    }
    var record := MakeRecord(name, template.value);
    repo.Insert(record);
    end := Saved(record);
  }
}
