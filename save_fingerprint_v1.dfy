/** The second enrolment script: it stores every capture under `template_Name = 'Bill6'`. */
module SaveFingerprintV1 {
  import Matching
  import Extraction
  import Storage

  const TemplateName: string := "Bill6"

  method Run(capture: Matching.Run, dbOk: bool, repo: Storage.Repository) returns (end: Storage.SaveEnd)
    modifies repo
    ensures capture.Raised? ==> end == Storage.Crashed(Matching.CaptureFailed)
    ensures capture.Ran? && Extraction.ExtractTemplate(capture.stdout).None? ==> end == Storage.NoTemplateFound
    ensures capture.Ran? && Extraction.ExtractTemplate(capture.stdout).Some? ==>
      end == if dbOk then Storage.Saved(Storage.MakeRecord(TemplateName, Extraction.ExtractTemplate(capture.stdout).value))
             else Storage.Crashed(Matching.StorageUnreachable)
    ensures repo.records == if end.Saved? then old(repo.records) + [end.record] else old(repo.records)
  {
    end := Storage.EnrollFromCapture(capture, TemplateName, dbOk, repo);
  }
}
