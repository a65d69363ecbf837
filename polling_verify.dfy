/**
 * The polling verifier: it captures again and again until interrupted. A cycle whose
 * capture holds no template, or whose template equals the one last let through, is
 * skipped; otherwise the template is remembered first and the table is read (a database
 * error skips to the next cycle, still remembering it) and searched. Capture, decode and
 * comparator exceptions are not caught and end the program.
 *
 * The captures the loop makes before the interrupt are given as a sequence; the database
 * answer and the comparator are given per cycle.
 */
module PollingVerify {
  import opened Wrappers
  import Extraction
  import Matching

  /** A cycle's capture as the loop sees it: what `extract_template` found, or an exception. */
  datatype Capture = Probe(template: Option<string>) | CaptureRaised

  function CaptureOf(r: Matching.Run): Capture {
    match r
    case Ran(out) => Probe(Extraction.ExtractTemplate(out))
    case Raised => CaptureRaised
  }

  /** The captures of a whole run, cycle by cycle. */
  function Captures(scans: seq<Matching.Run>): (caps: seq<Capture>)
    ensures |caps| == |scans|
    ensures forall k :: 0 <= k < |scans| ==> caps[k] == CaptureOf(scans[k])
  {
    if scans == [] then [] else [CaptureOf(scans[0])] + Captures(scans[1..])
  }

  /** What one pass of the loop does. */
  datatype Cycle =
    | NoScan                 // no template in the capture output
    | Repeat                 // the same template as the one last let through
    | StorageError           // "DB Error": the table could not be read
    | Searched(outcome: Matching.Outcome, calls: nat)  // MATCH USER / NO MATCH, or an exception
    | CaptureCrashed         // the capture executable raised

  /** The comparator as seen by the search of cycle k. */
  function CompareAt(compare: (nat, nat) -> Matching.Run, k: nat): Matching.Comparator {
    (i: nat) => compare(k, i)
  }

  /** `not scan_template` lets nothing through; neither does `scan_template == last_template`. */
  predicate Admits(last: Option<string>, probe: Option<string>) {
    probe.Some? && probe.value != "" && probe != last
  }

  /**
   * The guard around `last_template`: it lets a probe through when the probe is present
   * and differs from the last one let through, and only then remembers it.
   */
  class ScanDeduplicator {
    var lastTemplate: Option<string>

    constructor ()
      ensures lastTemplate == None
    {
      lastTemplate := None;
    }

    method Accept(probe: Option<string>) returns (proceed: bool)
      modifies this
      ensures proceed == Admits(old(lastTemplate), probe)
      ensures lastTemplate == if proceed then probe else old(lastTemplate)
    {
      if probe.None? || probe.value == "" {
        return false;
      }
      if probe == lastTemplate {
        return false;
      }
      lastTemplate := probe;
      return true;
    }
  }

  /** The pass made for one capture, when `last` is the template last let through. */
  function CycleAt(c: Capture, listing: Matching.Listing, compare: Matching.Comparator, last: Option<string>): (cycle: Cycle)
    ensures cycle.StorageError? || cycle.Searched? <==> c.Probe? && Admits(last, c.template)
  {
    match c
    case CaptureRaised => CaptureCrashed
    case Probe(t) =>
      if t.None? || t.value == "" then NoScan
      else if t == last then Repeat
      else match listing
        case StorageFailed => StorageError
        case Listed(rows) => Searched(Matching.Identify(rows, compare), Matching.Calls(rows, compare))
  }

  /** `last_template` after a pass: the probe, if it was let through. */
  function LastAfter(c: Capture, last: Option<string>): Option<string> {
    if c.Probe? && Admits(last, c.template) then c.template else last
  }

  /** Whether a pass ends the program. */
  predicate Ends(c: Cycle) {
    c.CaptureCrashed? || (c.Searched? && c.outcome.Error?)
  }

  /** The passes from cycle k on; after one that ends the program there are no more. */
  function Poll(caps: seq<Capture>, db: nat -> Matching.Listing, compare: (nat, nat) -> Matching.Run,
                k: nat, last: Option<string>): seq<Cycle>
    requires k <= |caps|
    decreases |caps| - k
  {
    if k == |caps| then []
    else
      var cycle := CycleAt(caps[k], db(k), CompareAt(compare, k), last);
      [cycle] + (if Ends(cycle) then [] else Poll(caps, db, compare, k + 1, LastAfter(caps[k], last)))
  }

  /** One pass of the loop extends the passes made so far by the pass Poll prescribes. */
  lemma Advance(done: seq<Cycle>, caps: seq<Capture>, db: nat -> Matching.Listing, compare: (nat, nat) -> Matching.Run,
                k: nat, last: Option<string>, cycle: Cycle, next: Option<string>, all: seq<Cycle>)
    requires k < |caps|
    requires done + Poll(caps, db, compare, k, last) == all
    requires cycle == CycleAt(caps[k], db(k), CompareAt(compare, k), last)
    requires next == LastAfter(caps[k], last)
    ensures Ends(cycle) ==> done + [cycle] == all
    ensures !Ends(cycle) ==> (done + [cycle]) + Poll(caps, db, compare, k + 1, next) == all
  {
    assert (done + [cycle]) + Poll(caps, db, compare, k + 1, next)
        == done + ([cycle] + Poll(caps, db, compare, k + 1, next));
  }

  /** The whole run: nothing has been let through when the loop starts. */
  function Cycles(scans: seq<Matching.Run>, db: nat -> Matching.Listing, compare: (nat, nat) -> Matching.Run): seq<Cycle> {
    Poll(Captures(scans), db, compare, 0, None)
  }

  /**
   * The loop itself, keeping `last_template` in a ScanDeduplicator: it produces exactly
   * the passes of Cycles.
   */
  method PollingLoop(scans: seq<Matching.Run>, db: nat -> Matching.Listing, compare: (nat, nat) -> Matching.Run)
    returns (cycles: seq<Cycle>)
    ensures cycles == Cycles(scans, db, compare)
  {
    ghost var caps := Captures(scans);
    var dedup := new ScanDeduplicator();
    cycles := [];
    var k := 0;
    while k < |scans|
      invariant 0 <= k <= |scans|
      invariant cycles + Poll(caps, db, compare, k, dedup.lastTemplate) == Cycles(scans, db, compare)
    {
      ghost var before := dedup.lastTemplate;
      var cycle: Cycle;
      var result := scans[k];
      if result.Raised? {
        cycle := CaptureCrashed;
      } else {
        var scanTemplate := Extraction.ExtractTemplate(result.stdout);
        var proceed := dedup.Accept(scanTemplate);
        if !proceed {
          cycle := if scanTemplate.None? || scanTemplate.value == "" then NoScan else Repeat;
        } else {
          var listing := db(k);
          if listing.StorageFailed? {
            cycle := StorageError;
          } else {
            var matched, outcome, calls := Matching.MatchRows(listing.rows, CompareAt(compare, k));
            cycle := Searched(outcome, calls);
          }
        }
      }
      assert cycle == CycleAt(caps[k], db(k), CompareAt(compare, k), before);
      assert dedup.lastTemplate == LastAfter(caps[k], before);
      Advance(cycles, caps, db, compare, k, before, cycle, dedup.lastTemplate, Cycles(scans, db, compare));
      cycles := cycles + [cycle];
      if Ends(cycle) {
        return;
      }
      k := k + 1;
    }
  }

  /** Number of passes that read the table. */
  function Reads(cycles: seq<Cycle>): nat {
    if cycles == [] then 0
    else (if cycles[0].StorageError? || cycles[0].Searched? then 1 else 0) + Reads(cycles[1..])
  }

  /** The templates of the captures from cycle k on, in order, skipping empty captures. */
  function Probes(caps: seq<Capture>, k: nat): seq<string>
    requires k <= |caps|
    decreases |caps| - k
  {
    if k == |caps| then []
    else (if caps[k].Probe? && caps[k].template.Some? && caps[k].template.value != "" then [caps[k].template.value] else [])
         + Probes(caps, k + 1)
  }

  /**
   * The number of maximal runs of equal consecutive templates in probes, not counting a
   * first run equal to `last`.
   */
  function Changes(probes: seq<string>, last: Option<string>): nat {
    if probes == [] then 0
    else (if Some(probes[0]) != last then 1 else 0) + Changes(probes[1..], Some(probes[0]))
  }

  /** No pass the loop makes from cycle k on ends the program. */
  ghost predicate Unbroken(caps: seq<Capture>, db: nat -> Matching.Listing, compare: (nat, nat) -> Matching.Run,
                           k: nat, last: Option<string>)
    requires k <= |caps|
  {
    forall c :: c in Poll(caps, db, compare, k, last) ==> !Ends(c)
  }

  /** An unbroken run of passes stays unbroken after its first pass. */
  lemma UnbrokenStep(caps: seq<Capture>, db: nat -> Matching.Listing, compare: (nat, nat) -> Matching.Run,
                     k: nat, last: Option<string>)
    requires k < |caps| && Unbroken(caps, db, compare, k, last)
    ensures !Ends(CycleAt(caps[k], db(k), CompareAt(compare, k), last))
    ensures Unbroken(caps, db, compare, k + 1, LastAfter(caps[k], last))
  {
    var cycle := CycleAt(caps[k], db(k), CompareAt(compare, k), last);
    var next := LastAfter(caps[k], last);
    var all := Poll(caps, db, compare, k, last);
    assert all[0] == cycle;
    assert !Ends(cycle);
    assert all == [cycle] + Poll(caps, db, compare, k + 1, next);
    assert forall c :: c in Poll(caps, db, compare, k + 1, next) ==> c in all;
  }

  lemma ReadsOfCons(c: Cycle, rest: seq<Cycle>)
    ensures Reads([c] + rest) == (if c.StorageError? || c.Searched? then 1 else 0) + Reads(rest)
  {
    assert ([c] + rest)[1..] == rest;
  }

  /**
   * Deduplication reads the table once per change of template: while nothing ends the
   * program, the number of database reads is the number of runs of equal consecutive
   * templates among the captures. So a finger left on the sensor is searched once however
   * many captures repeat it, and a template that met a database error is not retried until
   * a different one has been let through.
   */
  lemma {:induction false} ReadsCountChanges(caps: seq<Capture>, db: nat -> Matching.Listing,
                                             compare: (nat, nat) -> Matching.Run, k: nat, last: Option<string>)
    requires k <= |caps|
    requires Unbroken(caps, db, compare, k, last)
    ensures Reads(Poll(caps, db, compare, k, last)) == Changes(Probes(caps, k), last)
    decreases |caps| - k
  {
    if k < |caps| {
      var cycle := CycleAt(caps[k], db(k), CompareAt(compare, k), last);
      var next := LastAfter(caps[k], last);
      var rest := Probes(caps, k + 1);
      UnbrokenStep(caps, db, compare, k, last);
      ReadsCountChanges(caps, db, compare, k + 1, next);
      ReadsOfCons(cycle, Poll(caps, db, compare, k + 1, next));
      var t := caps[k].template;
      if t.Some? && t.value != "" {
        assert Probes(caps, k) == [t.value] + rest;
        assert ([t.value] + rest)[1..] == rest;
      } else {
        assert Probes(caps, k) == rest;
      }
    }
  }

  /**
   * The same template captured over and over is searched once, whatever that search leads
   * to: if it ends the program there are no more passes, and otherwise every later capture
   * is a repeat.
   */
  lemma HeldFingerSearchedOnce(caps: seq<Capture>, db: nat -> Matching.Listing,
                               compare: (nat, nat) -> Matching.Run, x: string)
    requires x != ""
    requires forall j :: 0 <= j < |caps| ==> caps[j] == Probe(Some(x))
    ensures Reads(Poll(caps, db, compare, 0, None)) == (if caps == [] then 0 else 1)
  {
    if caps != [] {
      var first := CycleAt(caps[0], db(0), CompareAt(compare, 0), None);
      assert first.StorageError? || first.Searched?;
      if Ends(first) {
        assert Poll(caps, db, compare, 0, None) == [first] + [];
        ReadsOfCons(first, []);
      } else {
        var rest := Poll(caps, db, compare, 1, Some(x));
        assert Poll(caps, db, compare, 0, None) == [first] + rest;
        ReadsOfCons(first, rest);
        RepeatsReadNothing(caps, db, compare, x, 1);
      }
    }
  }

  /** Once x has been let through, further captures of x are all repeats and read nothing. */
  lemma {:induction false} RepeatsReadNothing(caps: seq<Capture>, db: nat -> Matching.Listing,
                                              compare: (nat, nat) -> Matching.Run, x: string, k: nat)
    requires x != "" && k <= |caps|
    requires forall j :: k <= j < |caps| ==> caps[j] == Probe(Some(x))
    ensures Reads(Poll(caps, db, compare, k, Some(x))) == 0
    decreases |caps| - k
  {
    if k < |caps| {
      var cycle := CycleAt(caps[k], db(k), CompareAt(compare, k), Some(x));
      assert cycle == Repeat;
      var rest := Poll(caps, db, compare, k + 1, Some(x));
      assert Poll(caps, db, compare, k, Some(x)) == [cycle] + rest;
      RepeatsReadNothing(caps, db, compare, x, k + 1);
      ReadsOfCons(cycle, rest);
    }
  }

  /** The search the loop makes in cycle k, when it gets that far. */
  function SearchAt(db: nat -> Matching.Listing, compare: (nat, nat) -> Matching.Run, k: nat): Cycle
    requires db(k).Listed?
  {
    var c := CompareAt(compare, k);
    Searched(Matching.Identify(db(k).rows, c), Matching.Calls(db(k).rows, c))
  }

  /** Captures X, X, Y: X is searched, the repeat is skipped, and Y is searched. */
  lemma RepeatThenNewFinger(db: nat -> Matching.Listing, compare: (nat, nat) -> Matching.Run, x: string, y: string)
    requires x != "" && y != "" && x != y
    requires db(0).Listed? && db(2).Listed?
    requires !SearchAt(db, compare, 0).outcome.Error?
    requires !SearchAt(db, compare, 2).outcome.Error?
    ensures Poll([Probe(Some(x)), Probe(Some(x)), Probe(Some(y))], db, compare, 0, None)
         == [SearchAt(db, compare, 0), Repeat, SearchAt(db, compare, 2)]
  {
    var caps := [Probe(Some(x)), Probe(Some(x)), Probe(Some(y))];
    assert Poll(caps, db, compare, 2, Some(x)) == [SearchAt(db, compare, 2)];
    assert Poll(caps, db, compare, 1, Some(x)) == [Repeat, SearchAt(db, compare, 2)];
  }

  /** Captures X, nothing, X: an empty capture does not forget X, so the second X is skipped. */
  lemma EmptyCaptureKeepsLast(db: nat -> Matching.Listing, compare: (nat, nat) -> Matching.Run, x: string)
    requires x != ""
    requires db(0).Listed? && !SearchAt(db, compare, 0).outcome.Error?
    ensures Poll([Probe(Some(x)), Probe(None), Probe(Some(x))], db, compare, 0, None)
         == [SearchAt(db, compare, 0), NoScan, Repeat]
  {
    var caps := [Probe(Some(x)), Probe(None), Probe(Some(x))];
    assert Poll(caps, db, compare, 2, Some(x)) == [Repeat];
    assert Poll(caps, db, compare, 1, Some(x)) == [NoScan, Repeat];
  }

  /** Captures X, X with the database down the first time: X is remembered and not retried. */
  lemma StorageErrorNotRetried(db: nat -> Matching.Listing, compare: (nat, nat) -> Matching.Run, x: string)
    requires x != ""
    requires db(0).StorageFailed?
    ensures Poll([Probe(Some(x)), Probe(Some(x))], db, compare, 0, None) == [StorageError, Repeat]
  {
    var caps := [Probe(Some(x)), Probe(Some(x))];
    assert Poll(caps, db, compare, 1, Some(x)) == [Repeat];
  }

  /** A crash ends the loop: nothing is captured after a capture exception. */
  lemma CrashEndsLoop(caps: seq<Capture>, db: nat -> Matching.Listing, compare: (nat, nat) -> Matching.Run,
                      k: nat, last: Option<string>)
    requires k < |caps| && caps[k] == CaptureRaised
    ensures Poll(caps, db, compare, k, last) == [CaptureCrashed]
  {
  }
}
