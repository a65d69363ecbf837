/**
 * The 1:N identification loop shared by the three verification programs: the rows of
 * `SELECT user_id, template FROM fingerprints` are visited in the order received; each
 * stored template is decoded back to text, handed with the probe to the comparator
 * executable, and the comparator's output is read with `int(...)`. An unreadable output
 * skips that row only; the first score strictly above 60 wins and ends the search.
 */
module Matching {
  import opened Wrappers
  import Text
  import PyInt
  import Utf8

  /** What one `subprocess.run` call gives back: the text the process printed, or an exception. */
  datatype Run = Ran(stdout: string) | Raised

  /** One row of `SELECT user_id, template FROM fingerprints`. */
  datatype Row = Row(uid: string, template: seq<Utf8.byte>)

  /**
   * The comparator oracle: `compare(i)` is what `compare.exe <probe> <candidate>` does when
   * called for row i of the current search.
   */
  type Comparator = nat -> Run

  /** Why an identification attempt ends without a verdict. */
  datatype Failure =
    | CaptureFailed        // the capture executable raised (missing, timed out)
    | StorageUnreachable   // connecting to or querying the database raised
    | UndecodableTemplate  // `bytes(dbt).decode()` raised UnicodeDecodeError
    | ComparatorFailed     // the comparator executable raised
    | NoTemplateFound      // the capture output held no template ("Scan failed", then exit())

  /** What `SELECT user_id, template FROM fingerprints` gives: the rows, or an exception. */
  datatype Listing = Listed(rows: seq<Row>) | StorageFailed

  /** The single terminal outcome of an identification attempt. */
  datatype Outcome = Matched(uid: string) | NoMatch | Error(failure: Failure)

  /** `int(cmp.stdout.strip())`: the score read from a comparator output, None on ValueError. */
  function Score(stdout: string): Option<int> {
    PyInt.Parse(Text.Strip(stdout))
  }

  /** The decision threshold: a score matches only when strictly greater than 60. */
  predicate IsMatch(score: int) {
    score > 60
  }

  /** What the loop does at one row: go on to the next row, or stop with an outcome. */
  datatype Step = Next | Stop(outcome: Outcome)

  function StepAt(rows: seq<Row>, compare: Comparator, i: nat): Step
    requires i < |rows|
  {
    match Utf8.Decode(rows[i].template)
    case None => Stop(Error(UndecodableTemplate))
    case Some(_) =>
      match compare(i)
      case Raised => Stop(Error(ComparatorFailed))
      case Ran(out) =>
        match Score(out)
        case None => Next
        case Some(s) => if IsMatch(s) then Stop(Matched(rows[i].uid)) else Next
  }

  /** The step of every row, in row order. */
  function Steps(rows: seq<Row>, compare: Comparator): (steps: seq<Step>)
    ensures |steps| == |rows|
    ensures forall i :: 0 <= i < |rows| ==> steps[i] == StepAt(rows, compare, i)
  {
    seq(|rows|, i requires 0 <= i < |rows| => StepAt(rows, compare, i))
  }

  /** Comparator runs made by a stopping step: all but an undecodable row ran it. */
  function StopCalls(o: Outcome): nat {
    if o == Error(UndecodableTemplate) then 0 else 1
  }

  /** The search over steps[i..]. */
  function SearchFrom(steps: seq<Step>, i: nat): Outcome
    requires i <= |steps|
    decreases |steps| - i
  {
    if i == |steps| then NoMatch
    else match steps[i]
      case Next => SearchFrom(steps, i + 1)
      case Stop(o) => o
  }

  /** Number of comparator runs made while searching steps[i..]. */
  function CallsFrom(steps: seq<Step>, i: nat): nat
    requires i <= |steps|
    decreases |steps| - i
  {
    if i == |steps| then 0
    else match steps[i]
      case Next => 1 + CallsFrom(steps, i + 1)
      case Stop(o) => StopCalls(o)
  }

  /** The outcome of searching all rows. */
  function Identify(rows: seq<Row>, compare: Comparator): Outcome {
    SearchFrom(Steps(rows, compare), 0)
  }

  /** Number of comparator runs made by the whole search. */
  function Calls(rows: seq<Row>, compare: Comparator): nat {
    CallsFrom(Steps(rows, compare), 0)
  }

  /** The first step at or after i that stops, or |steps| when none does. */
  function FirstStop(steps: seq<Step>, i: nat): (k: nat)
    requires i <= |steps|
    ensures i <= k <= |steps|
    ensures forall j :: i <= j < k ==> steps[j] == Next
    ensures k < |steps| ==> steps[k].Stop?
    decreases |steps| - i
  {
    if i == |steps| || steps[i].Stop? then i else FirstStop(steps, i + 1)
  }

  /** The search ends where it first stops, and makes one comparator run per row it passes. */
  lemma {:induction false} SearchEndsAtFirstStop(steps: seq<Step>, i: nat)
    requires i <= |steps|
    ensures var k := FirstStop(steps, i);
      && SearchFrom(steps, i) == (if k == |steps| then NoMatch else steps[k].outcome)
      && CallsFrom(steps, i) == (k - i) + (if k < |steps| then StopCalls(steps[k].outcome) else 0)
    decreases |steps| - i
  {
    if i < |steps| && steps[i].Next? {
      SearchEndsAtFirstStop(steps, i + 1);
    }
  }

  /** A stop reached without running the comparator is a row that would not decode. */
  lemma StopWithoutCall(rows: seq<Row>, compare: Comparator, k: nat)
    requires k < |rows| && StepAt(rows, compare, k).Stop?
    ensures StopCalls(StepAt(rows, compare, k).outcome) == 0 <==> Utf8.Decode(rows[k].template).None?
  {
  }

  /**
   * First match wins: the search says Matched(u) exactly when some row k has a readable
   * score above 60 and user id u, and every row before k was passed over; then the
   * comparator ran k + 1 times, so no later row was compared.
   */
  lemma FirstMatchWins(rows: seq<Row>, compare: Comparator, u: string)
    ensures Identify(rows, compare) == Matched(u) <==>
      exists k :: 0 <= k < |rows| && StepAt(rows, compare, k) == Stop(Matched(u))
        && forall j :: 0 <= j < k ==> StepAt(rows, compare, j) == Next
    ensures Identify(rows, compare) == Matched(u) ==>
      exists k :: 0 <= k < |rows| && rows[k].uid == u && Calls(rows, compare) == k + 1
        && compare(k).Ran? && Score(compare(k).stdout).Some? && IsMatch(Score(compare(k).stdout).value)
  {
    var steps := Steps(rows, compare);
    SearchEndsAtFirstStop(steps, 0);
    var k := FirstStop(steps, 0);
    forall k' | 0 <= k' < |rows| && StepAt(rows, compare, k') == Stop(Matched(u))
        && (forall j :: 0 <= j < k' ==> StepAt(rows, compare, j) == Next)
      ensures k' == k
    {
    }
  }

  /**
   * Exhaustion: NoMatch exactly when every row decoded, the comparator ran for every row,
   * and none of its outputs was a readable score above 60; every row was then compared.
   */
  lemma NoMatchIsExhaustion(rows: seq<Row>, compare: Comparator)
    ensures Identify(rows, compare) == NoMatch <==>
      forall j :: 0 <= j < |rows| ==> StepAt(rows, compare, j) == Next
    ensures Identify(rows, compare) == NoMatch ==> Calls(rows, compare) == |rows|
  {
    var steps := Steps(rows, compare);
    SearchEndsAtFirstStop(steps, 0);
    var k := FirstStop(steps, 0);
    if k < |rows| {
      assert steps[k].Stop?;
    }
  }

  /** A row passes over exactly when its comparator output is unreadable or at most 60. */
  lemma NextMeansNoQualifyingScore(rows: seq<Row>, compare: Comparator, i: nat)
    requires i < |rows|
    ensures StepAt(rows, compare, i) == Next <==>
      && Utf8.Decode(rows[i].template).Some?
      && compare(i).Ran?
      && (Score(compare(i).stdout).None? || !IsMatch(Score(compare(i).stdout).value))
  {
  }

  /** The boundary is exclusive: 60 does not match, 61 does. */
  lemma ThresholdBoundary()
    ensures !IsMatch(60) && IsMatch(61) && !IsMatch(0)
    ensures Score("60") == Some(60) && Score("61") == Some(61)
  {
    assert PyInt.Show(60) == "60" && PyInt.Show(61) == "61";
    PyInt.ParseShow(60);
    PyInt.ParseShow(61);
    Text.StripOfStripped("60");
    Text.StripOfStripped("61");
  }

  /** Candidates A scoring 70 then B scoring 90: the outcome is A, and B is never compared. */
  lemma FirstOfTwoMatchesWins(a: Row, b: Row, compare: Comparator)
    requires Utf8.Decode(a.template).Some? && Utf8.Decode(b.template).Some?
    requires compare(0) == Ran("70") && compare(1) == Ran("90")
    ensures Identify([a, b], compare) == Matched(a.uid)
    ensures Calls([a, b], compare) == 1
  {
    assert PyInt.Show(70) == "70";
    StepOfScore([a, b], compare, 0, 70);
    assert Steps([a, b], compare)[0] == Stop(Matched(a.uid));
  }

  /** Candidate A answering "abc" is skipped, and B scoring 75 is then the match. */
  lemma UnreadableScoreIsSkipped(a: Row, b: Row, compare: Comparator)
    requires Utf8.Decode(a.template).Some? && Utf8.Decode(b.template).Some?
    requires compare(0) == Ran("abc") && compare(1) == Ran("75")
    ensures Identify([a, b], compare) == Matched(b.uid)
    ensures Calls([a, b], compare) == 2
  {
    var rows := [a, b];
    NotAScore();
    assert PyInt.Show(75) == "75";
    StepOfScore(rows, compare, 1, 75);
    var steps := Steps(rows, compare);
    assert steps[0] == Next;
    assert steps[1] == Stop(Matched(b.uid));
    assert SearchFrom(steps, 1) == Matched(b.uid) && CallsFrom(steps, 1) == 1;
  }

  /** A row whose template decodes and whose comparator prints the score n stops exactly when n is above 60. */
  lemma StepOfScore(rows: seq<Row>, compare: Comparator, i: nat, n: nat)
    requires i < |rows| && Utf8.Decode(rows[i].template).Some?
    requires compare(i) == Ran(PyInt.Show(n)) && |PyInt.ShowNat(n)| <= PyInt.MaxStrDigits
    ensures StepAt(rows, compare, i) == if IsMatch(n) then Stop(Matched(rows[i].uid)) else Next
  {
    ReadScore(n);
  }

  /**
   * A score printed with more than 4300 digits is past `int()`'s digit limit, so the row is
   * skipped however large the score is.
   */
  lemma OverlongScoreIsSkipped(rows: seq<Row>, compare: Comparator, i: nat, n: nat)
    requires i < |rows| && Utf8.Decode(rows[i].template).Some?
    requires compare(i) == Ran(PyInt.Show(n)) && |PyInt.ShowNat(n)| > PyInt.MaxStrDigits
    ensures StepAt(rows, compare, i) == Next
  {
    var s := PyInt.Show(n);
    assert s[0] in s && s[|s| - 1] in s;
    Text.StripOfStripped(s);
    PyInt.ParseRefusesLong(n);
  }

  /** "abc" is not an integer: `int("abc")` raises ValueError. */
  lemma NotAScore()
    ensures Score("abc") == None
  {
    Text.StripOfStripped("abc");
    var t := Text.Strip("abc");
    assert t == "abc";
    assert !PyInt.IsDigit(t[0]);
  }

  /** A printed score reads back as itself. */
  lemma ReadScore(n: nat)
    requires |PyInt.ShowNat(n)| <= PyInt.MaxStrDigits
    ensures Score(PyInt.Show(n)) == Some(n)
  {
    var s := PyInt.Show(n);
    assert s[0] in s && s[|s| - 1] in s;
    Text.StripOfStripped(s);
    PyInt.ParseShow(n);
  }

  /**
   * The loop of the two command-line verifiers: `matched = False`, then for each row decode,
   * compare, `continue` on an unreadable score, and `matched = True; break` on a score above
   * 60. A decode or comparator exception ends the program, reported here as Error. It
   * computes exactly Identify, with exactly Calls comparator runs.
   */
  method MatchRows(rows: seq<Row>, compare: Comparator) returns (matched: bool, outcome: Outcome, calls: nat)
    ensures outcome == Identify(rows, compare)
    ensures calls == Calls(rows, compare)
    ensures matched <==> outcome.Matched?
  {
    matched := false;
    outcome := NoMatch;
    calls := 0;
    ghost var steps := Steps(rows, compare);
    var i := 0;
    while i < |rows|
      invariant 0 <= i <= |rows|
      invariant !matched
      invariant outcome == NoMatch
      invariant SearchFrom(steps, i) == Identify(rows, compare)
      invariant calls + CallsFrom(steps, i) == Calls(rows, compare)
    {
      assert steps[i] == StepAt(rows, compare, i);
      var text := Utf8.Decode(rows[i].template);
      if text.None? {
        outcome := Error(UndecodableTemplate);
        return;
      }
      var run := compare(i);
      calls := calls + 1;
      if run.Raised? {
        outcome := Error(ComparatorFailed);
        return;
      }
      var score := Score(run.stdout);
      if score.None? {
        i := i + 1;
        continue;
      }
      if IsMatch(score.value) {
        matched := true;
        outcome := Matched(rows[i].uid);
        break;
      }
      i := i + 1;
    }
  }
}
