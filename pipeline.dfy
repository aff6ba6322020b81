/** One submission's path through the body of `main` in autograder.py:
    staging the implementation files, the up-to-date check, the build, the
    bounded run of the test script and the comparison, with every early exit
    going straight to the report. File, process and clock effects are inputs. */
module Pipeline {
  import opened Wrappers

  /** What the staging loop finds for one implementation file: absent from the
      submission directory, or present and newer (or not) than the last result. */
  datatype FileStatus = Absent | Present(newer: bool)

  /** The command-line settings the body of `main` reads. */
  datatype Config = Config(delim: string, allRequired: bool, makeConfigured: bool)

  /** What the environment does for one submission: the files, the exit code of
      the build, whether the test script outlived the deadline, and the two
      output files (None when a file cannot be opened). */
  datatype Submission = Submission(
    files: seq<FileStatus>,
    buildExit: int,
    timedOut: bool,
    reference: Option<string>,
    candidate: Option<string>)

  /** `up2date` and whether a required file was missing. */
  datatype Staged = Staged(up2date: bool, missing: bool)

  predicate Newer(f: FileStatus) { f.Present? && f.newer }

  /** The staging loop over the implementation files: a newer file clears
      up2date; a missing file stops the loop when all files are required. */
  function Stage(files: seq<FileStatus>, allRequired: bool): (s: Staged)
    ensures s.missing ==> allRequired && files != []
  {
    if files == [] then Staged(true, false)
    else if files[0].Absent? && allRequired then Staged(true, true)
    else
      var rest := Stage(files[1..], allRequired);
      Staged(rest.up2date && !Newer(files[0]), rest.missing)
  }

  /** File i is reached by the staging loop: no earlier required file is missing. */
  predicate Reached(files: seq<FileStatus>, allRequired: bool, i: nat)
    requires i <= |files|
  {
    forall j :: 0 <= j < i ==> !(allRequired && files[j].Absent?)
  }

  /** The staging loop reports a missing file exactly when all files are
      required and one of them is absent. */
  lemma {:induction false} StageMissingIff(files: seq<FileStatus>, allRequired: bool)
    ensures Stage(files, allRequired).missing <==>
      allRequired && exists i :: 0 <= i < |files| && files[i].Absent?
  {
    if files != [] && !(files[0].Absent? && allRequired) {
      StageMissingIff(files[1..], allRequired);
      if allRequired && exists i :: 0 <= i < |files| && files[i].Absent? {
        var i :| 0 <= i < |files| && files[i].Absent?;
        assert i > 0 && files[1..][i - 1].Absent?;
      }
      if exists i :: 0 <= i < |files[1..]| && files[1..][i].Absent? {
        var i :| 0 <= i < |files[1..]| && files[1..][i].Absent?;
        assert files[i + 1].Absent?;
      }
    }
  }

  /** The submission counts as up to date exactly when no file that the loop
      reached is newer than the last result. */
  lemma {:induction false} StageUpToDateIff(files: seq<FileStatus>, allRequired: bool)
    ensures Stage(files, allRequired).up2date <==>
      forall i :: 0 <= i < |files| && Reached(files, allRequired, i) ==> !Newer(files[i])
  {
    if files == [] {
    } else if files[0].Absent? && allRequired {
      forall i | 0 < i < |files| ensures !Reached(files, allRequired, i) {
        assert allRequired && files[0].Absent?;
      }
    } else {
      var tail := files[1..];
      StageUpToDateIff(tail, allRequired);
      forall i | 0 <= i < |tail|
        ensures Reached(tail, allRequired, i) <==> Reached(files, allRequired, i + 1)
      {
        if Reached(tail, allRequired, i) {
          forall j | 0 <= j < i + 1 ensures !(allRequired && files[j].Absent?) {
            if j > 0 { assert files[j] == tail[j - 1]; }
          }
        }
        if Reached(files, allRequired, i + 1) {
          forall j | 0 <= j < i ensures !(allRequired && tail[j].Absent?) {
            assert tail[j] == files[j + 1];
          }
        }
      }
      assert Reached(files, allRequired, 0);
      if Stage(files, allRequired).up2date {
        forall i | 0 <= i < |files| && Reached(files, allRequired, i) ensures !Newer(files[i]) {
          if i > 0 { assert files[i] == tail[i - 1]; }
        }
      }
      if forall i :: 0 <= i < |files| && Reached(files, allRequired, i) ==> !Newer(files[i]) {
        forall i | 0 <= i < |tail| && Reached(tail, allRequired, i) ensures !Newer(tail[i]) {
          assert tail[i] == files[i + 1];
        }
      }
    }
  }

  /** The staging loop of the source, leaving on the first missing required file
      (where the source raises) and clearing `up2date` on a newer file. */
  method StageFiles(files: seq<FileStatus>, allRequired: bool) returns (up2date: bool, missing: bool)
    ensures Staged(up2date, missing) == Stage(files, allRequired)
  {
    up2date, missing := true, false;
    var i := 0;
    while i < |files|
      invariant 0 <= i <= |files|
      invariant Stage(files, allRequired) ==
        var rest := Stage(files[i..], allRequired); Staged(up2date && rest.up2date, rest.missing)
    {
      assert files[i..][1..] == files[i + 1..];
      if files[i].Present? {
        if files[i].newer {
          up2date := false;
        }
      } else if allRequired {
        missing := true;
        return;
      }
      i := i + 1;
    }
  }

  /** How one submission's pipeline ended. */
  datatype Outcome =
    | NotTurnedIn
    | UpToDate
    | BuildFailed
    | RanTooLong
    | Compared

  /** The stages of one submission. Reporting always runs. */
  datatype Phase = Staging | Building | Executing | Comparing | Reporting(outcome: Outcome)

  /** How far a phase is from the report. */
  function Remaining(p: Phase): nat
  {
    match p
    case Staging => 4
    case Building => 3
    case Executing => 2
    case Comparing => 1
    case Reporting(_) => 0
  }

  /** One transition; "not turned in", "failed to build" and "ran too long"
      jump straight to Reporting, and so does the up-to-date skip. */
  function Step(p: Phase, cfg: Config, sub: Submission, force: bool): (q: Phase)
    requires !p.Reporting?
    ensures Remaining(q) < Remaining(p)
  {
    match p
    case Staging =>
      var s := Stage(sub.files, cfg.allRequired);
      if s.missing then Reporting(NotTurnedIn)
      else if s.up2date && !force then Reporting(UpToDate)
      else Building
    case Building =>
      if cfg.makeConfigured && sub.buildExit != 0 then Reporting(BuildFailed) else Executing
    case Executing =>
      if sub.timedOut then Reporting(RanTooLong) else Comparing
    case Comparing =>
      Reporting(Compared)
  }

  /** The phases visited from p on, ending at the report. */
  function Trace(p: Phase, cfg: Config, sub: Submission, force: bool): (t: seq<Phase>)
    ensures |t| >= 1 && t[0] == p && t[|t| - 1].Reporting?
    decreases Remaining(p)
  {
    if p.Reporting? then [p]
    else [p] + Trace(Step(p, cfg, sub, force), cfg, sub, force)
  }

  /** Every phase of a trace before the last is not a report, and each
      step moves strictly closer to the report. */
  lemma {:induction false} TraceProgresses(p: Phase, cfg: Config, sub: Submission, force: bool)
    ensures var t := Trace(p, cfg, sub, force);
      && (forall i :: 0 <= i < |t| - 1 ==> !t[i].Reporting?)
      && (forall i :: 0 <= i < |t| - 1 ==> Remaining(t[i + 1]) < Remaining(t[i]))
    decreases Remaining(p)
  {
    if !p.Reporting? {
      var q := Step(p, cfg, sub, force);
      TraceProgresses(q, cfg, sub, force);
      var t := Trace(p, cfg, sub, force);
      var u := Trace(q, cfg, sub, force);
      assert t == [p] + u;
      forall i | 1 <= i < |t| ensures t[i] == u[i - 1] { }
    }
  }

  /** How a submission's pipeline ends. */
  function Run(cfg: Config, sub: Submission, force: bool): (t: seq<Phase>)
  {
    Trace(Staging, cfg, sub, force)
  }

  /** How a submission's pipeline ends: the first of the checks in phase
      order that stops it, or the comparison. */
  function Final(cfg: Config, sub: Submission, force: bool): Outcome
  {
    var s := Stage(sub.files, cfg.allRequired);
    if s.missing then NotTurnedIn
    else if s.up2date && !force then UpToDate
    else if cfg.makeConfigured && sub.buildExit != 0 then BuildFailed
    else if sub.timedOut then RanTooLong
    else Compared
  }

  /** What each outcome of Final implies about the submission: "not turned
      in" needs all files required, the skip needs no forced regrade, and the
      test script only runs after a build that did not fail. */
  lemma {:induction false} FinalConditions(cfg: Config, sub: Submission, force: bool)
    ensures var o := Final(cfg, sub, force);
      && (o == NotTurnedIn ==> cfg.allRequired)
      && (o == UpToDate ==> !force)
      && (o == RanTooLong || o == Compared ==> !(cfg.makeConfigured && sub.buildExit != 0))
  {
  }

  /** The phases a run with outcome o visits. */
  function Path(o: Outcome): seq<Phase>
  {
    match o
    case NotTurnedIn => [Staging, Reporting(o)]
    case UpToDate => [Staging, Reporting(o)]
    case BuildFailed => [Staging, Building, Reporting(o)]
    case RanTooLong => [Staging, Building, Executing, Reporting(o)]
    case Compared => [Staging, Building, Executing, Comparing, Reporting(o)]
  }

  lemma {:induction false} TraceFromExecuting(cfg: Config, sub: Submission, force: bool)
    ensures Trace(Executing, cfg, sub, force) ==
      if sub.timedOut then [Executing, Reporting(RanTooLong)]
      else [Executing, Comparing, Reporting(Compared)]
  {
    assert Trace(Comparing, cfg, sub, force) == [Comparing, Reporting(Compared)];
  }

  lemma {:induction false} TraceFromBuilding(cfg: Config, sub: Submission, force: bool)
    ensures Trace(Building, cfg, sub, force) ==
      if cfg.makeConfigured && sub.buildExit != 0 then [Building, Reporting(BuildFailed)]
      else [Building] + Trace(Executing, cfg, sub, force)
  {
  }

  /** The phase machine visits exactly the phases its outcome needs and
      reports the outcome `Final` gives. */
  lemma {:induction false} RunFollowsPath(cfg: Config, sub: Submission, force: bool)
    ensures Run(cfg, sub, force) == Path(Final(cfg, sub, force))
  {
    var s := Stage(sub.files, cfg.allRequired);
    if !s.missing && !(s.up2date && !force) {
      TraceFromBuilding(cfg, sub, force);
      TraceFromExecuting(cfg, sub, force);
      assert Run(cfg, sub, force) == [Staging] + Trace(Building, cfg, sub, force);
    }
  }

  /** A missing required file goes straight from staging to the report: the
      build and the test script never run. */
  lemma {:induction false} MissingSkipsBuildAndRun(cfg: Config, sub: Submission, force: bool)
    requires Stage(sub.files, cfg.allRequired).missing
    ensures Run(cfg, sub, force) == [Staging, Reporting(NotTurnedIn)]
  {
    RunFollowsPath(cfg, sub, force);
  }

  /** Comparing happens only after Executing has finished without a timeout,
      which in turn needs a build that did not fail. */
  lemma {:induction false} ComparingFollowsCompletedRun(cfg: Config, sub: Submission, force: bool, i: nat)
    requires i < |Run(cfg, sub, force)| && Run(cfg, sub, force)[i] == Comparing
    ensures i >= 1 && Run(cfg, sub, force)[i - 1] == Executing
    ensures !sub.timedOut && !(cfg.makeConfigured && sub.buildExit != 0)
    ensures Final(cfg, sub, force) == Compared
  {
    RunFollowsPath(cfg, sub, force);
  }
}
