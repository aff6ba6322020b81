# Autograder model

A Dafny model of `autograder.py`, a Python 2 script that grades student
submissions, one directory per student. For each directory it does four things:

- It stages the implementation files and decides whether the submission is
  already graded.
- It builds the submission and runs a test script under a time limit.
- It compares the delimiter-separated output with a reference output.
- It writes a report and, when the submission was regraded, records the
  rounded percentage in a tab-separated scores file.

At the end the scores file is rewritten with its keys in sorted order.

The modules follow the script's structure:

- `Text` holds the string operations the script relies on:
  - `str.split(delim)`, with its inverse `Join`;
  - universal-newline reading;
  - `str()` of a natural number, with its inverse.
- `Comparator` is `compare`:
  - a functional specification `CompareSpec`;
  - the imperative `Compare`, which pads the candidate's units with a loop and
    builds the report by appending one entry per test, proved equal to the
    specification;
  - lemmas for what the report and the counts mean.
- `Scoring` is `int(round(float(nRight)/nTotal*100))` in exact arithmetic:
  the nearest percentage, with halves rounding up.
- `Pipeline` is the `try`/`except UserWarning` body of the directory loop as a
  phase machine: Staging, Building, Executing, Comparing, Reporting. It has the
  staging loop as a method, the outcome `Final` as the first check that stops
  the run, and a proof that the machine visits exactly the phases of that
  outcome.
- `Ledger` is the scores file:
  - parsing with `dict(map(str.split, f.readlines()))`, where a malformed line
    is an error;
  - writing one `key\tvalue\n` line per key in sorted order;
  - the round trip between the two, and uniqueness of the sorted order.
- `Grading` is `main`. The class `Grader` holds its mutable state: the
  `scores` dictionary, the global `forceRegrade`, and the `nRight`/`nTotal`
  values that live on from one directory to the next. Its methods are:
  - `Process`, for one directory;
  - `Walk`, for the directory loop;
  - `GradeAll`, for the loop followed by writing the scores file.

  Each method is proved against the functions `Advance` and `AdvanceAll`.
  A tally (`Counts`) and a comparison (`ValidComparison`) carry their bounds in their
  types: at least one test, and no more passes than tests; a comparison's
  report is never empty.
- `Scenarios` proves the outcome of two comparisons on small inputs:
  - `A@B@C` against `A@X@C` gives 2 of 3, 67%;
  - `A@B` against `A` gives 1 of 2, 50%.

Behaviour kept as the source has it:

- **An up-to-date directory is still reported.** The skip is a `continue`
  inside the `try`, so the `finally` block still runs. The report is written
  with the previous directory's `nRight`/`nTotal`, and the ledger is left
  unchanged.
- **The first directory can crash.** When the first directory is up to date
  and no regrade is forced, `nRight` does not exist yet, and the run stops. The model gives `None`
  (see `Grading.SkipReusesLastTally`).
- **Some missing files keep the old score.** A required file missing before
  any newer file was seen leaves `up2date` true. Without `--force`, the old
  ledger entry stays.
- **Padding cannot fake a pass.** The delimiter sentinel can never match a
  reference unit: the reference split contains no unit with the delimiter
  inside (`Comparator.PaddingNeverPasses`, `Text.SplitPartsAvoidDelimiter`).
  The comment at autograder.py:246 says this should never be a right answer,
  and the model proves it.
- **Ledger values are text.** Values read from the file are strings, and a
  regraded entry is the decimal text of the new score, which is what
  `str(score)` writes.

The outside world enters as parameters:

- modification times: each file is `Absent` or `Present(newer)`;
- the exit code of the build;
- whether the test script timed out;
- the two output files: `None` when one cannot be opened;
- the walked directories: a sequence of names with their inputs;
- the scores file's text: `None` when it does not exist.

## Model

| member | source | states |
|---|---|---|
| Text.Split | autograder.py:233-236 | `split(delim)` always yields at least one part |
| Text.SplitJoin | autograder.py:233-236 | joining the parts of `split(delim)` with the delimiter gives back the text |
| Text.SplitPartsAvoidDelimiter | autograder.py:233-236 | no part produced by `split(delim)` contains the delimiter |
| Text.SplitFirstIsPrefix | autograder.py:233-236 | the first part of a split is a prefix of the text |
| Text.SplitCutsAtLeftmost | autograder.py:233-236 | the first cut is at the leftmost occurrence of the delimiter; with a single part the text holds no occurrence at all |
| Text.SplitRest | autograder.py:233-236 | after the first cut, the remaining parts are the split of the text after the first part and its delimiter, so every cut is leftmost |
| Text.Universal | autograder.py:231-236 | reading in universal-newline mode leaves no carriage return in the text |
| Text.UniversalKeepsPlainText | autograder.py:231-236 | text without carriage returns is read unchanged |
| Text.UniversalPlain | autograder.py:231-236 | a character other than a carriage return is read as itself |
| Text.UniversalCRLF | autograder.py:231-236 | "\r\n" is read as one "\n" |
| Text.UniversalLoneCR | autograder.py:231-236 | a "\r" not followed by "\n" is read as "\n" |
| Text.UniversalAppend | autograder.py:231-236 | text that does not end in a carriage return is translated independently of what follows it |
| Text.NatToString | autograder.py:260-267 | `str(n)` is a non-empty digit string with no leading zero |
| Text.ParseNatToString | autograder.py:205-207 | the decimal text of a number reads back as that number |
| Comparator.Verdicts | autograder.py:247 | one verdict per reference unit, true exactly when the candidate's unit at that index is equal |
| Comparator.Count | autograder.py:255-268 | `counter.count(b)` is at most the number of tests |
| Comparator.Pad | autograder.py:244-246 | the padded units keep the candidate's units, are extended with the delimiter to the reference length, and equal `Padded` |
| Comparator.PaddingNeverPasses | autograder.py:245-246 | a padded position never passes, because reference units never contain the delimiter |
| Comparator.ReportText | autograder.py:249-267 | the report is "Summary: All tests passed." exactly when every test passed |
| Comparator.AppendEntries | autograder.py:262-267 | the loop appends the per-test entries in test order |
| Comparator.BuildReport | autograder.py:249-267 | the report text built by the loop equals `ReportText` |
| Comparator.CompareUnits | autograder.py:244-268 | `total` is the number of reference units and `passed` is at most `total` |
| Comparator.CompareSpec | autograder.py:220-268 | `compare` always counts at least one test and never more passes than tests |
| Comparator.Compare | autograder.py:220-268 | the result equals `CompareSpec`; `1 <= total` and `passed <= total`; an unreadable file gives "Program failed to produce output", 0, 1; otherwise `total` is the number of reference units |
| Comparator.CountSplits | autograder.py:254-268 | `count(True) + count(False)` is the number of tests |
| Comparator.CountAllTrue | autograder.py:251 | `all(counter)` holds exactly when every test is counted as passed |
| Comparator.PassedBound | autograder.py:244-268 | `total` is the reference length; passes are at most `total` and at most the candidate's own unit count |
| Comparator.AllPassIff | autograder.py:244-252 | every test passes exactly when the reference units are a prefix of the candidate's units |
| Comparator.ReportSummaryIff | autograder.py:249-252 | the report is "Summary: All tests passed." exactly when `passed == total` |
| Comparator.FailureSummary | autograder.py:253-261 | with a failure, the report starts with the summary line that counts failures and tests, saying " failure " for exactly one and " failures " otherwise |
| Comparator.ReportEntriesInOrder | autograder.py:262-267 | with a failure, the report holds test i's entry right after the entries of the tests before it: " succeeded." or the candidate's and the reference's units |
| Comparator.IdenticalPasses | autograder.py:244-252 | comparing units with themselves passes every test with the all-passed report |
| Comparator.CompareSpecProperties | autograder.py:233-242 | an unreadable file gives the failure triple; otherwise `total` is the number of reference units whatever the candidate holds; always `1 <= total`, `passed <= total`, and the all-passed summary exactly when `passed == total` |
| Comparator.SameTextPasses | autograder.py:220-268 | identical output files give "Summary: All tests passed." and full marks |
| Scoring.Score | autograder.py:183 | the percentage is within half a point of `100*nRight/nTotal`, halves up; it is 0 for no passes, 100 for all passes, at most 100 |
| Scoring.ScoreIsTheNearestPercent | autograder.py:183 | any percentage within that half-point window is the computed score |
| Pipeline.Stage | autograder.py:119-135 | a missing file is reported only when all files are required and there is a file to miss |
| Pipeline.StageMissingIff | autograder.py:119-135 | staging reports "not turned in" exactly when all files are required and one is absent |
| Pipeline.StageUpToDateIff | autograder.py:119-135 | `up2date` stays true exactly when no file reached by the loop is newer than the last report |
| Pipeline.StageFiles | autograder.py:119-135 | the staging loop with its early exit computes `Stage` |
| Pipeline.Step | autograder.py:113-173 | every transition moves strictly closer to the report |
| Pipeline.Trace | autograder.py:113-181 | the phases from a given phase on start at that phase and end in a report |
| Pipeline.TraceProgresses | autograder.py:113-181 | no phase before the last is a report, and each step moves strictly closer to the report |
| Pipeline.FinalConditions | autograder.py:130-173 | about `Final`, the outcome of the `try` body: "not turned in" needs all files required, the skip needs no forced regrade, and the test script only runs after a build that did not fail |
| Pipeline.RunFollowsPath | autograder.py:113-177 | the run visits exactly the phases its outcome needs: a missing file or the up-to-date skip stop after staging, a failed build after building, a timeout after executing, and only a completed run is compared |
| Pipeline.MissingSkipsBuildAndRun | autograder.py:130-133 | a missing required file goes straight to the report; build and test never run |
| Pipeline.ComparingFollowsCompletedRun | autograder.py:143-173 | comparison happens only right after a run that built and did not time out |
| Ledger.LinesJoin | autograder.py:88 | `Lines`, which is `readlines()`, loses nothing: its lines put back together are the text |
| Ledger.LinesShape | autograder.py:88 | every line is non-empty with no newline before its end, and every line but the last ends with a newline |
| Ledger.LineEndIsFirstNewline | autograder.py:88 | the first line ends at the first newline, or at the end of the text |
| Ledger.Fields | autograder.py:88 | `str.split()` yields only non-empty whitespace-free fields |
| Ledger.Collect | autograder.py:88 | `dict` of the rows succeeds exactly when every row is a pair, and keeps every key it started from |
| Ledger.Parse | autograder.py:86-88 | every ledger that loads has word keys and word values |
| Ledger.Render | autograder.py:205-207 | the written text is empty exactly when there are no keys, and otherwise ends with a newline |
| Ledger.BeforeIrreflexive | autograder.py:206 | `Before`, the string order `sorted()` uses, never puts a key before itself |
| Ledger.BeforeTransitive | autograder.py:206 | `Before` is transitive |
| Ledger.BeforeTotal | autograder.py:206 | `Before` orders any two distinct keys one way or the other, so `Sorted` lists are strictly increasing in a total order |
| Ledger.Persist | autograder.py:205-207 | each key is written once, in sorted order; the text is one `key\tvalue\n` line per key |
| Ledger.SortedIsUnique | autograder.py:206 | there is only one sorted order of a set of keys |
| Ledger.RenderAppend | autograder.py:206-207 | writing one key more appends its line |
| Ledger.FieldsOfEntry | autograder.py:88 | `str.split()` of a written line gives back its key and value |
| Ledger.LinesOfEntry | autograder.py:88 | `readlines()` sees each written line as one line |
| Ledger.RowsOfRender | autograder.py:88 | reading the written file gives one key-value pair per written key, in order |
| Ledger.CollectPairs | autograder.py:88 | building the dictionary from those pairs gives the written map |
| Ledger.ParseRender | autograder.py:88 | a file written from a map of words parses back to that map |
| Ledger.PersistRoundTrip | autograder.py:205-207 | the persisted file parses back to the ledger, and the key order is the only sorted one |
| Ledger.CollectWellFormed | autograder.py:88 | the dictionary built from such fields has word keys and values |
| Grading.Load | autograder.py:85-91 | loading fails exactly when the file exists and does not parse; otherwise no tally is set, the ledger has word keys and values, and the regrade is forced exactly when asked for or when the file is missing |
| Grading.MissingLedgerForcesRegrade | autograder.py:85-91 | a missing scores file gives an empty ledger and forces a regrade; a file that parses keeps the given flag and starts from its contents |
| Grading.LoadWritten | autograder.py:86-88 | a run started from the scores file an earlier run wrote starts from that run's final ledger |
| Grading.Observe | autograder.py:113-185 | a directory's observation records its name; it is regraded exactly when not up to date or forced, and never when skipped as up to date |
| Grading.TallyAfter | autograder.py:137-177 | the tally is missing exactly on the skip of a first directory; the skip keeps the previous tally; a completed run takes `compare`'s passed and total unchanged; the three aborts give 0 out of 1 |
| Grading.Message | autograder.py:94-173 | a completed run's message is `compare`'s report unchanged; only a completed run can leave the all-passed or the failed-output message; the message is empty exactly on the skip |
| Grading.Attempt | autograder.py:113-177 | the `try` body with its `except UserWarning`: it regrades exactly when not up to date or forced; the tally is the comparison's, 0 of 1 on an early exit, or the previous one on the skip, and comes with the matching message |
| Grading.AdvanceBounds | autograder.py:181-185 | `Advance`, the `finally` block, crashes exactly on the skip of a first directory; otherwise it keeps the force flag, the tally becomes the reported one, and the score is its rounded percentage, at most 100 |
| Grading.ComparedReportsComparison | autograder.py:173-185 | a completed run reports `compare`'s report, passed and total unchanged, with their rounded percentage, which becomes the directory's ledger entry |
| Grading.AbortsScoreZero | autograder.py:174-177 | not turned in, failed to build and ran too long score 0 out of 1, 0% |
| Grading.LedgerUpdate | autograder.py:184-185 | only directory d's entry can change; it changes exactly when not up to date or forced, and then holds the decimal text of the new score, which reads back as that score |
| Grading.SkipReusesLastTally | autograder.py:137-140 | the up-to-date skip crashes exactly when no directory came before; otherwise it reports the previous tally with an empty message and leaves the ledger alone |
| Grading.ForcedRegradeRewritesEntry | autograder.py:138-185 | under a forced regrade no directory is skipped and each entry is rewritten with the decimal text of the new score |
| Grading.AdvanceKeepsWellFormed | autograder.py:184-185 | a regraded entry keeps the ledger readable when the directory name is a word |
| Grading.AdvanceAllKeeps | autograder.py:92-204 | `AdvanceAll`, the directory walk, never changes the force flag, gives one report per directory up to a crash, finishes exactly when no directory crashed, and keeps every score in [0, 100] |
| Grading.AdvanceAllKeepsLedger | autograder.py:92-185 | the walk keeps the ledger readable when every directory name is a word |
| Grading.ResumeStep | autograder.py:92-204 | the rest of the walk at one directory is that directory's report followed by the rest of the walk at the next |
| Grading.Grader.constructor | autograder.py:85-91 | the loop starts from the loaded ledger, or from an empty one with a forced regrade |
| Grading.Grader.Process | autograder.py:93-204 | one directory, imperatively: the new state and report are those of `Advance`, and a crash changes nothing |
| Grading.Grader.Walk | autograder.py:92-204 | the directory loop computes `AdvanceAll`: it stops at a crash and otherwise processes every directory in order |
| Grading.Grader.GradeAll | autograder.py:80-209 | the walk followed by the scores file; the file is written exactly when the walk finished, lists every key once in sorted order as `Render` of those keys, and reads back as the final ledger |
| Scenarios.OneMismatch | autograder.py:220-268 | "A@B@C" against "A@X@C" passes 2 of 3 tests, 67% |
| Scenarios.ShortCandidate | autograder.py:244-247 | "A@B" against "A" pads the candidate to ["A", "@"], gives the verdicts [true, false], passes 1 of 2, 50% |

## Left out

- File system work is left out; only its results enter as inputs. That covers `os.chdir`, and clearing the log and output files. It also covers `make clean`, copying and removing the implementation files, and reading modification times.
- The build subprocess and its log redirection are left out; only the exit code enters, as `buildExit`.
- The thread, the `tooLong` join and `terminate` are left out; only whether the test script timed out enters, as `timedOut`. Concurrency is not modelled.
- `os.walk`'s recursion into nested directories is left out; the walk is a flat sequence of directory names in visiting order.
- Most of the report file is left out. The model keeps its message and score, but not the exact text. That text adds the compiler log, the "Score: … out of … = …%" line and the dump of the submitted source.
- Console output (`print`) is left out.
- Command-line parsing is left out. The model takes the delimiter, the all-required flag, whether a make command is set and the force flag as inputs.
- The whitespace-splitting mode is left out. An empty `-k` makes `delim` `None` (autograder.py:48). Then `split(None)` splits on runs of whitespace (autograder.py:233 and 236), and the padding appends `None` (autograder.py:246). The model takes the delimiter as a non-empty string, so `Comparator.Compare`, `Grading.Observe`, `Grading.Attempt` and the members built on them require a non-empty delimiter.
- Scoring.Score: it uses exact rational arithmetic instead of the floating-point division and `round`, so it does not model float rounding error.
- Ledger.Parse: a malformed scores line, which raises `ValueError` in the source, is modelled as `None`, not as an exception; `Grading.Load` passes that `None` on as the end of the run.
- Grading.Grader.constructor: it requires a scores file that loads; the `ValueError` crash of one that does not is `Grading.Load` returning `None`.
- Python 2 strings are bytes; the model uses `string` and treats only ASCII whitespace as separators, as byte-string `str.split()` does.
- Exceptions other than `UserWarning` are left out: failures of file operations inside the `try`, and failures while writing the report.
- `declare_path` is a placeholder that returns an empty string, so it is left out. `threadWrap` is the subprocess call, which is left out above.
