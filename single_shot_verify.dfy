/**
 * The single-shot command-line verifier: run the capture executable once, extract the
 * probe template, exit with "Scan failed" when there is none, otherwise read every stored
 * row and run the first-match search over them. No exception is caught, so a capture,
 * database, decode or comparator exception ends the script.
 */
module SingleShotVerify {
  import opened Wrappers
  import Extraction
  import Matching

  /**
   * The script's outcome, whether it read the table, and how many comparator runs it made.
   * A missing probe stops it before the database is touched.
   */
  method Run(capture: Matching.Run, listing: Matching.Listing, compare: Matching.Comparator)
    returns (outcome: Matching.Outcome, queried: bool, calls: nat)
    ensures capture.Raised? ==> outcome == Matching.Error(Matching.CaptureFailed) && !queried && calls == 0
    ensures capture.Ran? && Extraction.ExtractTemplate(capture.stdout).None? ==>
      outcome == Matching.Error(Matching.NoTemplateFound) && !queried && calls == 0
    ensures capture.Ran? && Extraction.ExtractTemplate(capture.stdout).Some? ==> queried
    ensures queried && listing.StorageFailed? ==>
      outcome == Matching.Error(Matching.StorageUnreachable) && calls == 0
    ensures queried && listing.Listed? ==>
      outcome == Matching.Identify(listing.rows, compare) && calls == Matching.Calls(listing.rows, compare)
  {
    queried, calls := false, 0;
    if capture.Raised? {
      return Matching.Error(Matching.CaptureFailed), queried, calls;
    }
    var scan := Extraction.ExtractTemplate(capture.stdout);
    if scan.Some? {
      Extraction.ExtractedIsTemplate(capture.stdout);
    }
    if scan.None? || scan.value == "" {
      return Matching.Error(Matching.NoTemplateFound), queried, calls;
    }
    queried := true;
    if listing.StorageFailed? {
      return Matching.Error(Matching.StorageUnreachable), queried, calls;
    }
    var matched;
    matched, outcome, calls := Matching.MatchRows(listing.rows, compare);
  }
}
