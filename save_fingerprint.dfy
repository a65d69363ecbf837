/** The first enrolment script: it stores every capture under the fixed user id "Bill". */
module SaveFingerprint {
  import Matching
  import Extraction
  import Storage

  const UserId: string := "Bill"

  method Run(capture: Matching.Run, dbOk: bool, repo: Storage.Repository) returns (end: Storage.SaveEnd)
    modifies repo
    ensures capture.Raised? ==> end == Storage.Crashed(Matching.CaptureFailed)
    ensures capture.Ran? && Extraction.ExtractTemplate(capture.stdout).None? ==> end == Storage.NoTemplateFound
    ensures capture.Ran? && Extraction.ExtractTemplate(capture.stdout).Some? ==>
      end == if dbOk then Storage.Saved(Storage.MakeRecord(UserId, Extraction.ExtractTemplate(capture.stdout).value))
             else Storage.Crashed(Matching.StorageUnreachable)
    ensures repo.records == if end.Saved? then old(repo.records) + [end.record] else old(repo.records)
  {
    end := Storage.EnrollFromCapture(capture, UserId, dbOk, repo);
  }
}
