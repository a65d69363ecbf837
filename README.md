# Fingerprint enrolment and 1:N identification, modelled in Dafny

The repository drives a ZK9500 fingerprint reader through two external executables and a PostgreSQL table:
- a capture program, which prints log lines and then the captured template as one base64 line;
- a comparator, which prints a similarity score for two templates;
- a PostgreSQL table `fingerprints(id, user_id, template, template_size, created_at)`.

The same short pipeline is copied into five Python programs:
- extract the template from the capture output;
- enrol it, or search the table for it;
- in the polling verifier, skip a capture that repeats the last template let through, even when empty captures came in between.

This project models that pipeline and proves what the code promises about it.

Modules, one per file:

- `Text` (`text.dfy`): `str.strip()`, `str.splitlines()`, `str.lower()` and substring `in`, on ASCII.
  - Strip is proved against a reference characterisation: a slice whose two margins are all whitespace and whose ends are not.
  - Split is proved inverse to joining with `'\n'`, for lines that contain no `'\n'` and whose last line is not empty.
- `PyInt` (`pyint.dfy`): `int(text)` on ASCII: whitespace, an optional sign, digits, and single `_` separators. It returns None where Python raises ValueError, including for a literal of more than 4300 digits, the default limit of Python 3.11 and later. Printing a number of at most 4300 digits and parsing it back gives the number; a longer one is refused.
- `Utf8` (`utf8.dfy`): `str.encode()` and strict `bytes.decode()`. Decoding rejects overlong forms, surrogates and truncated sequences. Both directions of the round trip are proved.
- `Extraction` (`extraction.dfy`):
  - `is_base64` (the alphabet of RFC 4648 section 4, with `=` anywhere; only the character set is checked);
  - `extract_template` as a search over lines;
  - the reverse scanning loop of the scripts as a method proved equal to that search.
- `Matching` (`matching.dfy`): the 1:N loop.
  - Each row is decoded and compared.
  - An unreadable score skips the row.
  - The first score strictly above 60 wins.
  - Running out of rows is NoMatch.
  - Exceptions are reported as `Error`.
- `Storage` (`storage.dfy`):
  - the inserted tuple `(name, template.encode(), len(template))`;
  - the table as a class whose records the inserts append to;
  - the enrolment script body shared by both save scripts.
- `SaveFingerprint` and `SaveFingerprintV1`: the two enrolment scripts, storing under `"Bill"` and `"Bill6"`.
- `SingleShotVerify`: the one-shot command-line verifier.
- `PollingVerify`: the Version1 verifier loop.
  - Its `last_template` guard is the class `ScanDeduplicator`.
  - The loop is specified by a function over the cycle captures.
  - The number of database reads is proved equal to the number of changes of template.
- `FingerprintApp`: the Version2 desktop application.
  - The capture and verification workers.
  - The registration page: a class holding the captured template and the name field.
  - The records page: a class holding the loaded rows and the rows shown.

External inputs:
- Process runs are values, `Ran(stdout)` or `Raised`.
- The comparator is an oracle indexed by row number, and in the polling loop by cycle number.
- Database answers are `Listed(rows)` or `StorageFailed`, or a `dbOk` flag for inserts.
- The captures of the polling loop before it is interrupted are a finite sequence.

The programs differ in how they handle the same failures, and the model keeps each program's own behaviour:
- A capture without a template is reported differently.
  - The Version2 verification worker emits `no_match` (Python/Version2/fingerprint_app.py:109-112; `FingerprintApp.VerifyWorkerRun`).
  - The single-shot verifier prints "Scan failed" and exits (Python/verify_fingerprint.py:30-33). The model reports this as `Error(NoTemplateFound)` (`SingleShotVerify.Run`).
- In the single-shot verifier and the two save scripts, a database error is not caught and ends the program. So is a failure to decode a stored template, or to run the comparator, in either command-line verifier. The model reports these as `Error(...)` outcomes, or `Crashed(...)` for the save scripts.
- The polling verifier is different for database errors: it catches a failed connection or query, prints "DB Error" and goes on to the next capture (Python/Version1/verify_fingerprint.py:54-64). In the model that cycle is `StorageError` and the loop continues (`PollingVerify.StorageErrorNotRetried`). An undecodable stored template or a comparator that cannot be run is uncaught there too and ends the loop.
- In the Version2 verification worker, an undecodable stored template or a failing comparator run aborts the whole search with `error`. Only an unreadable score skips a row.

## Model

| member | source | states |
|---|---|---|
| Text.StripMeaning | Python/Version2/fingerprint_app.py:74-75 | `strip()` removes exactly the leading and trailing whitespace: the result is a slice of the input with blank margins and non-blank ends |
| Text.StrippedOfUnique | Python/Version2/fingerprint_app.py:74-75 | any such slice is the stripped text, so the characterisation determines `strip()` |
| Text.StripIdempotent | Python/Version2/fingerprint_app.py:74-75 | stripping an already stripped line changes nothing |
| Text.SplitLines | Python/Version2/fingerprint_app.py:74 | `splitlines()` yields lines without `'\n'` that joined by `'\n'` give back the text (plus the final newline if there was one) |
| Text.SplitLinesOfJoin | Python/Version2/fingerprint_app.py:74 | splitting joined lines gives the same lines back, when no line contains `'\n'` and the last line is not empty |
| Text.Lower | Python/Version2/fingerprint_app.py:1071 | `lower()` keeps the length and maps each ASCII capital to its small letter, 32 code points up, leaving every other character |
| Text.LowerCharSameLetter | Python/Version2/fingerprint_app.py:1071 | two characters compare equal after `lower()` exactly when they are equal or the same ASCII letter in the two cases |
| Text.EmptyContained | Python/Version2/fingerprint_app.py:1068-1071 | the empty text occurs in every text |
| PyInt.ParseShow | Python/Version2/fingerprint_app.py:125 | `int(str(n)) == n` for every integer n of at most 4300 digits |
| PyInt.ParseRefusesLong | Python/Version2/fingerprint_app.py:125 | a printed integer of more than 4300 digits makes `int()` raise ValueError |
| Utf8.DecodeEncode | Python/Version2/fingerprint_app.py:696 | `t.encode().decode() == t` for every text |
| Utf8.EncodeDecode | Python/Version2/fingerprint_app.py:120 | bytes that decode are exactly the encoding of their text |
| Utf8.EncodeAscii | Python/Version2/fingerprint_app.py:696 | ASCII text encodes to one byte per character, each its code |
| Extraction.Base64CharIsAlphabet | Python/Version2/fingerprint_app.py:70-71 | a character passes `is_base64` exactly when it is one of the 64 characters of the RFC 4648 section 4 alphabet or is `=` |
| Extraction.FindLast | Python/Version2/fingerprint_app.py:74-77 | the last qualifying line below n, with none qualifying after it; None exactly when no line below n qualifies |
| Extraction.ExtractFromLines | Python/Version2/fingerprint_app.py:73-78 | None exactly when no line qualifies; otherwise the stripped form of the last line that does |
| Extraction.ExtractedIsTemplate | Python/Version2/fingerprint_app.py:76-77 | an extracted template is base64 only, at least 101 characters long and already stripped |
| Extraction.ShortLineNeverQualifies | Python/Version1/verify_fingerprint.py:17 | a line of at most 100 characters never qualifies |
| Extraction.LastWinsOverLongest | Python/Version1/save_fingerprint.py:22-26 | of two qualifying lines the later one is extracted even when the earlier is longer |
| Extraction.TemplateAfterLogLines | Python/Version1/verify_fingerprint.py:12-20 | the lines "junk", "SDK_LOG: ready", x give x when x is template text |
| Extraction.TemplateAfterLogText | Python/verify_fingerprint.py:10-18 | the same capture output as printed text gives x |
| Extraction.ExtractOfTemplate | Python/verify_fingerprint.py:10-18 | a template text on its own is extracted as itself |
| Extraction.ExtractIdempotent | Python/verify_fingerprint.py:10-18 | extracting from an extracted template gives it again |
| Extraction.ScanForTemplate | Python/save_fingerprint.py:16-25 | the reversed `for` loop with `break` (also Python/Version1/save_fingerprint.py:18-26) computes exactly `extract_template` |
| Matching.FirstStop | Python/verify_fingerprint.py:58-87 | the first row that ends the search: every earlier row passes on, and that row stops |
| Matching.SearchEndsAtFirstStop | Python/verify_fingerprint.py:58-87 | the search result is that row's outcome, or NoMatch if no row stops; one comparator run is made per row passed, and one at the stopping row unless it failed to decode |
| Matching.StopWithoutCall | Python/Version2/fingerprint_app.py:120-123 | a search stops without running the comparator exactly when the row's template does not decode |
| Matching.FirstMatchWins | Python/verify_fingerprint.py:58-87 | Matched(u) exactly when some row k with id u stops with a match and every earlier row passed on; then k + 1 comparator runs were made and row k's output read as a score above 60 |
| Matching.NoMatchIsExhaustion | Python/verify_fingerprint.py:56-90 | NoMatch exactly when every row passed on (no readable score above 60, no exception), and then every row was compared |
| Matching.NextMeansNoQualifyingScore | Python/verify_fingerprint.py:76-87 | a row passes on exactly when it decodes, the comparator ran, and its output is unreadable or at most 60 |
| Matching.ThresholdBoundary | Python/verify_fingerprint.py:84 | 60 does not match, 61 does, 0 does not; "60" and "61" read as those scores |
| Matching.FirstOfTwoMatchesWins | Python/Version2/fingerprint_app.py:119-127 | candidates scoring 70 then 90 give the first, after one comparator run |
| Matching.UnreadableScoreIsSkipped | Python/Version2/fingerprint_app.py:124-129 | a candidate answering "abc" is skipped and the next, scoring 75, matches after two runs |
| Matching.NotAScore | Python/Version1/verify_fingerprint.py:83-87 | "abc" does not read as a score |
| Matching.ReadScore | Python/Version1/verify_fingerprint.py:81-84 | a printed score of at most 4300 digits reads back as itself |
| Matching.StepOfScore | Python/verify_fingerprint.py:76-87 | a decodable row whose comparator prints a score n of at most 4300 digits stops with a match exactly when n is above 60, and otherwise passes on |
| Matching.OverlongScoreIsSkipped | Python/Version2/fingerprint_app.py:124-129 | a score printed with more than 4300 digits is unreadable, so its row is skipped however large the score |
| Matching.MatchRows | Python/Version1/verify_fingerprint.py:69-97 | the `matched` flag loop with `continue` and `break` computes exactly the search outcome and its comparator-run count, and `matched` holds exactly on a match |
| Storage.MakeRecord | Python/save_fingerprint.py:44-51 | the inserted record keeps the name, its bytes decode back to the template, and its size is the template's length |
| Storage.TemplateSizeCountsBytes | Python/Version2/fingerprint_app.py:694-697 | for an extracted template, `template_size` also counts the stored bytes, and decoding the row gives the template back |
| Storage.EnrolledRowsDecode | Python/Version2/fingerprint_app.py:119-120 | a search over rows made by enrolment never fails on an undecodable template |
| Storage.Repository.Insert | Python/save_fingerprint.py:44-53 | an insert appends exactly one record and changes nothing else |
| Storage.EnrollFromCapture | Python/save_fingerprint.py:10-55 | a capture exception or a failed database step ends the script; no template exits with nothing stored; otherwise exactly the record of the extracted template is appended |
| SaveFingerprint.Run | Python/save_fingerprint.py:10-57 | a capture exception ends the first enrolment script; no template exits; otherwise the record of the extracted template under "Bill" is appended when the database steps succeed, and nothing is stored when they fail |
| SaveFingerprintV1.Run | Python/Version1/save_fingerprint.py:5-51 | the same for the second enrolment script, under "Bill6" |
| SingleShotVerify.Run | Python/verify_fingerprint.py:22-90 | no template exits before any database access or comparator run; a database error ends the script with no comparator runs; otherwise the outcome and run count are those of the search |
| PollingVerify.Captures | Python/Version1/verify_fingerprint.py:31-37 | one capture per cycle, each holding what `extract_template` found in that cycle's output |
| PollingVerify.ScanDeduplicator.constructor | Python/Version1/verify_fingerprint.py:25 | nothing has been let through when the loop starts |
| PollingVerify.ScanDeduplicator.Accept | Python/Version1/verify_fingerprint.py:39-48 | a probe is let through exactly when it is present and differs from the last one let through; only then is it remembered |
| PollingVerify.CycleAt | Python/Version1/verify_fingerprint.py:37-97 | a cycle reads the table exactly when its probe is let through |
| PollingVerify.PollingLoop | Python/Version1/verify_fingerprint.py:25-99 | the loop produces exactly the cycles of the specification, stopping after a cycle that raises |
| PollingVerify.ReadsCountChanges | Python/Version1/verify_fingerprint.py:39-64 | while no pass of the loop raises, the number of database reads equals the number of changes of template among the non-empty captures |
| PollingVerify.HeldFingerSearchedOnce | Python/Version1/verify_fingerprint.py:44-46 | the same template captured over and over reads the table once, even when that first pass ends the program |
| PollingVerify.RepeatsReadNothing | Python/Version1/verify_fingerprint.py:44-46 | once a template has been let through, further captures of it are skipped and read nothing |
| PollingVerify.RepeatThenNewFinger | Python/Version1/verify_fingerprint.py:37-48 | captures X, X, Y give a search, a skipped repeat, and a search |
| PollingVerify.EmptyCaptureKeepsLast | Python/Version1/verify_fingerprint.py:37-48 | captures X, none, X give a search, an empty cycle and a skipped repeat |
| PollingVerify.StorageErrorNotRetried | Python/Version1/verify_fingerprint.py:48-64 | after a database error on X, a second X is skipped |
| PollingVerify.CrashEndsLoop | Python/Version1/verify_fingerprint.py:27-35 | a capture exception is the last cycle |
| FingerprintApp.ScanWorkerRun | Python/Version2/fingerprint_app.py:88-97 | `captured(t)` exactly when the run succeeded and a template t was extracted, t being template text; otherwise `failed` |
| FingerprintApp.VerifyWorkerRun | Python/Version2/fingerprint_app.py:106-132 | no template gives `no_match` with no database access and no comparator run; a capture or database exception gives `error`; otherwise the signal and run count are those of the search |
| FingerprintApp.SearchRows | Python/Version2/fingerprint_app.py:119-130 | the `for` loop with early `return` computes exactly the search outcome and its comparator-run count |
| FingerprintApp.RegisterPage.constructor | Python/Version2/fingerprint_app.py:512-514 | a new page holds no template |
| FingerprintApp.RegisterPage.SetName | Python/Version2/fingerprint_app.py:585-586 | typing replaces the name field, leaves the template, and keeps the page holding only template text |
| FingerprintApp.RegisterPage.OnScanFinished | Python/Version2/fingerprint_app.py:660-681 | `captured(t)` replaces the held template by t; `failed` keeps the earlier one |
| FingerprintApp.RegisterPage.Reset | Python/Version2/fingerprint_app.py:707-713 | the template is dropped and the name field cleared |
| FingerprintApp.RegisterPage.Save | Python/Version2/fingerprint_app.py:683-702 | a blank name, then a missing template, is rejected with nothing stored; a database failure stores nothing and keeps the page; otherwise the stripped name's record of the held template is appended, its size counts its bytes, and the page is reset |
| FingerprintApp.KeepMatching | Python/Version2/fingerprint_app.py:1071 | every kept row's user id contains the search text ignoring case, and each such row is kept as often as it occurs |
| FingerprintApp.KeepMatchingInOrder | Python/Version2/fingerprint_app.py:1071 | the kept rows are a subsequence of the rows |
| FingerprintApp.EmptySearchKeepsAll | Python/Version2/fingerprint_app.py:1067-1070 | with an empty search text every row is kept, so the early return shows the same rows as the comprehension |
| FingerprintApp.RecordsPage.constructor | Python/Version2/fingerprint_app.py:983-984 | a new page starts empty and loads |
| FingerprintApp.RecordsPage.Load | Python/Version2/fingerprint_app.py:1034-1045 | a successful query replaces the rows and shows all of them; a database error changes nothing |
| FingerprintApp.RecordsPage.Filter | Python/Version2/fingerprint_app.py:1067-1071 | the table shows exactly the rows matching the search text, the loaded rows unchanged |

## Left out

- The PyQt interface is not modelled: widgets, styling, layout, clocks, animations, the `resizeEvent` size clamps, the verification page's log and the main window. Python/Version2/custom_dialog.py is not modelled either. None of it affects which record is stored or which user is identified.
- Running the executables is outside the model. Each run is an input, `Ran(stdout)` or `Raised`; a timeout or a missing program is `Raised`. Exception texts and printed messages are not modelled.
- The comparator is an oracle indexed by row (and by cycle in the polling loop). That it depends on the two templates it is given is not modelled.
- psycopg2 is outside the model, and so are connection parameters and SQL text. A query result is an input; an insert, its commit and the closing of the connection are one step that succeeds or fails as a whole. The database fills in `id` and `created_at`, and these are not modelled. The `ORDER BY id DESC` of the records page is the database's ordering, so the loaded rows are an input.
- QThread and `pyqtSignal` run asynchronously; here each worker run is one call returning one signal. The `progress` signal's text is not modelled, and neither is re-enabling the buttons when a worker finishes.
- `time.sleep` is not modelled. The `KeyboardInterrupt` that stops the polling loop is the end of the capture sequence.
- PyInt.Parse: the digit limit is the default 4300. A limit changed with `sys.set_int_max_str_digits` or `PYTHONINTMAXSTRDIGITS` is not modelled, and neither are Python versions without the limit, where every literal converts.
- Python's `strip`, `splitlines`, `lower` and `int` work on all of Unicode; here they are restricted to ASCII.
  - `splitlines` breaks only at `'\n'`, so `'\r'`, `'\r\n'` and the other Unicode line boundaries are not line ends here.
  - `int` accepts only ASCII digits.
- `FingerprintApp.RecordsPage.Load`: a database exception raised after `fetchall` has already replaced the rows, but before rendering, is modelled as leaving the rows unchanged.
- `_render` formatting is not modelled: sizes with thousands separators, timestamps cut to 19 characters, and the record-count badge. `Filter` states which rows are shown, not how.
- `str(uid)` is the identity here, because `user_id` is text.
