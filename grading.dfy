/** The loop of `main` in autograder.py: the scores ledger, the global force
    flag and the tally (nRight, nTotal) that survives from one directory to the
    next, updated once per submission directory, and the ledger written at the end. */
module Grading {
  import opened Wrappers
  import opened Text
  import Scoring
  import Ledger
  import Pipeline
  import Comparator

  /** nRight and nTotal. */
  datatype Tally = Tally(right: nat, total: nat)

  /** A tally as the script assigns it: at least one test, no more passes than tests. */
  type Counts = t: Tally | 1 <= t.total && t.right <= t.total witness Tally(0, 1)

  /** What `compare` returns: a non-empty report, at least one test and no
      more passes than tests. */
  type ValidComparison = c: Comparator.Comparison | 1 <= c.total && c.passed <= c.total && c.report != []
    witness Comparator.Comparison(Comparator.FailedOutput, 0, 1)

  /** What the report file of one submission states: its message, the tally
      and the percentage. */
  datatype Reported = Reported(message: string, tally: Counts, score: nat)

  /** The state `main` carries across directories; `last` is None until some
      directory has assigned nRight and nTotal. */
  datatype GraderState = GraderState(scores: map<string, string>, force: bool, last: Option<Counts>)

  /** The start of `main`. A missing scores file (None) gives an empty ledger
      and forces a regrade; an existing one is read with
      `dict(map(str.split, f.readlines()))`, and the result None is the
      ValueError of a line without exactly two fields, which ends the run. */
  function Load(file: Option<string>, force: bool): (st: Option<GraderState>)
    ensures st.None? <==> file.Some? && Ledger.Parse(file.value).None?
    ensures st.Some? ==> st.value.last.None? && Ledger.WellFormed(st.value.scores)
    ensures st.Some? ==> (st.value.force <==> force || file.None?)
  {
    match file
    case None => Some(GraderState(map[], true, None))
    case Some(text) =>
      match Ledger.Parse(text)
      case None => None
      case Some(m) => Some(GraderState(m, force, None))
  }

  /** A missing scores file starts an empty ledger with the force flag set;
      a file that loads keeps the given flag and starts from its contents. */
  lemma {:induction false} MissingLedgerForcesRegrade(force: bool)
    ensures Load(None, force) == Some(GraderState(map[], true, None))
    ensures forall text :: Ledger.Parse(text).Some? ==>
      Load(Some(text), force) == Some(GraderState(Ledger.Parse(text).value, force, None))
  {
  }

  /** A run that starts from the scores file an earlier run wrote starts from
      that run's final ledger. */
  lemma {:induction false} LoadWritten(m: map<string, string>, keys: seq<string>, force: bool)
    requires Ledger.WellFormed(m)
    requires Ledger.Sorted(keys) && (forall k :: k in m <==> k in keys)
    ensures Load(Some(Ledger.Render(keys, m)), force) == Some(GraderState(m, force, None))
  {
    Ledger.ParseRender(keys, m);
  }

  /** What the `try` block of one directory leaves for the `finally` block:
      the directory name, whether its ledger entry is to be rewritten
      (`not up2date or forceRegrade`), the pipeline outcome, and what
      `compare` returns, which counts only when the outcome is Compared. */
  datatype Event = Event(dir: string, regraded: bool, outcome: Pipeline.Outcome, comparison: ValidComparison)

  /** The `try` block for directory d under the force flag. */
  function Observe(cfg: Pipeline.Config, d: string, sub: Pipeline.Submission, force: bool): (e: Event)
    requires cfg.delim != []
    ensures e.dir == d
    ensures e.regraded <==> !Pipeline.Stage(sub.files, cfg.allRequired).up2date || force
    ensures e.outcome == Pipeline.UpToDate ==> !e.regraded
  {
    Event(d, !Pipeline.Stage(sub.files, cfg.allRequired).up2date || force, Pipeline.Final(cfg, sub, force),
          Comparator.CompareSpec(sub.reference, sub.candidate, cfg.delim))
  }

  /** (nRight, nTotal) after the pipeline: the comparison's counts, 0 out of 1
      for the three aborts, and the previous directory's values for the
      up-to-date skip, whose `continue` still runs the `finally` block. */
  function TallyAfter(o: Pipeline.Outcome, c: ValidComparison, last: Option<Counts>): (t: Option<Counts>)
    ensures t.None? <==> o == Pipeline.UpToDate && last.None?
    ensures o == Pipeline.UpToDate ==> t == last
    ensures o == Pipeline.Compared ==> t == Some(Tally(c.passed, c.total))
    ensures o in {Pipeline.NotTurnedIn, Pipeline.BuildFailed, Pipeline.RanTooLong} ==> t == Some(Tally(0, 1))
  {
    match o
    case Compared => Some(Tally(c.passed, c.total))
    case UpToDate => last
    case _ => Some(Tally(0, 1))
  }

  /** resultMsg: the message written at the head of the report file. */
  function Message(o: Pipeline.Outcome, c: ValidComparison): (m: string)
    ensures o == Pipeline.Compared ==> m == c.report
    ensures o != Pipeline.Compared ==> m != Comparator.AllPassed && m != Comparator.FailedOutput
    ensures m == [] <==> o == Pipeline.UpToDate
  {
    match o
    case NotTurnedIn => "Assignment not turned in."
    case UpToDate => ""
    case BuildFailed => "Failed to build x_x"
    case RanTooLong => "Program ran too long. Infinite loop?\n"
    case Compared => c.report
  }

  /** The `finally` block for one directory. None is its crash on reading
      nRight before any directory assigned it. */
  function Advance(st: GraderState, e: Event): Option<(GraderState, Reported)>
  {
    var t := TallyAfter(e.outcome, e.comparison, st.last);
    if t.None? then None
    else
      var score := Scoring.Score(t.value.right, t.value.total);
      var scores := if e.regraded then st.scores[e.dir := NatToString(score)] else st.scores;
      Some((GraderState(scores, st.force, t), Reported(Message(e.outcome, e.comparison), t.value, score)))
  }

  /** The block crashes exactly on the skip of a first directory. Otherwise
      the force flag is kept, the tally becomes the one reported, and the
      percentage is the rounded ratio of that tally, in [0, 100]. */
  lemma {:induction false} AdvanceBounds(st: GraderState, e: Event)
    ensures Advance(st, e).None? <==> e.outcome == Pipeline.UpToDate && st.last.None?
    ensures match Advance(st, e)
      case None => true
      case Some((st', r)) =>
        && st'.force == st.force && st'.last == Some(r.tally)
        && r.score <= 100 && r.score == Scoring.Score(r.tally.right, r.tally.total)
  {
  }

  /** "Not turned in", "failed to build" and "ran too long" score 0 out of 1. */
  lemma {:induction false} AbortsScoreZero(st: GraderState, cfg: Pipeline.Config, d: string, sub: Pipeline.Submission)
    requires cfg.delim != []
    requires Pipeline.Final(cfg, sub, st.force) in {Pipeline.NotTurnedIn, Pipeline.BuildFailed, Pipeline.RanTooLong}
    ensures Advance(st, Observe(cfg, d, sub, st.force)).Some?
    ensures var r := Advance(st, Observe(cfg, d, sub, st.force)).value.1; r.tally == Tally(0, 1) && r.score == 0
  {
  }

  /** A completed run reports what `compare` returned, unchanged: its text as
      the message, its counts as the tally, and their rounded percentage,
      which becomes d's ledger entry. */
  lemma {:induction false} ComparedReportsComparison(st: GraderState, cfg: Pipeline.Config, d: string, sub: Pipeline.Submission)
    requires cfg.delim != []
    requires Pipeline.Final(cfg, sub, st.force) == Pipeline.Compared
    ensures var c := Comparator.CompareSpec(sub.reference, sub.candidate, cfg.delim);
      var score := Scoring.Score(c.passed, c.total);
      && Advance(st, Observe(cfg, d, sub, st.force)).Some?
      && Advance(st, Observe(cfg, d, sub, st.force)).value.1 == Reported(c.report, Tally(c.passed, c.total), score)
      && Advance(st, Observe(cfg, d, sub, st.force)).value.0.last == Some(Tally(c.passed, c.total))
      && Advance(st, Observe(cfg, d, sub, st.force)).value.0.scores == st.scores[d := NatToString(score)]
  {
    var e := Observe(cfg, d, sub, st.force);
    var c := Comparator.CompareSpec(sub.reference, sub.candidate, cfg.delim);
    assert e.comparison == c && e.outcome == Pipeline.Compared;
    assert e.regraded;
    assert TallyAfter(e.outcome, e.comparison, st.last) == Some(Tally(c.passed, c.total));
  }

  /** Only the entry for d can change; it changes exactly when the submission
      is not up to date or a regrade is forced, and then it holds the decimal
      text of the new score, which reads back as that score. */
  lemma {:induction false} LedgerUpdate(st: GraderState, cfg: Pipeline.Config, d: string, sub: Pipeline.Submission)
    requires cfg.delim != []
    requires Advance(st, Observe(cfg, d, sub, st.force)).Some?
    ensures var (st', r) := Advance(st, Observe(cfg, d, sub, st.force)).value;
      var regraded := !Pipeline.Stage(sub.files, cfg.allRequired).up2date || st.force;
      && (forall k :: k != d ==> (k in st'.scores <==> k in st.scores))
      && (forall k :: k != d && k in st.scores ==> st'.scores[k] == st.scores[k])
      && (regraded ==> d in st'.scores && st'.scores[d] == NatToString(r.score) && ParseNat(st'.scores[d]) == r.score)
      && (!regraded ==> st'.scores == st.scores)
      && st'.force == st.force
  {
    var (st', r) := Advance(st, Observe(cfg, d, sub, st.force)).value;
    ParseNatToString(r.score);
  }

  /** The up-to-date skip leaves the ledger alone and reports the previous
      directory's tally; with no previous directory it crashes. */
  lemma {:induction false} SkipReusesLastTally(st: GraderState, cfg: Pipeline.Config, d: string, sub: Pipeline.Submission)
    requires cfg.delim != []
    requires Pipeline.Final(cfg, sub, st.force) == Pipeline.UpToDate
    ensures Advance(st, Observe(cfg, d, sub, st.force)).None? <==> st.last.None?
    ensures st.last.Some? ==>
      (Advance(st, Observe(cfg, d, sub, st.force)).value.0.scores == st.scores &&
       Advance(st, Observe(cfg, d, sub, st.force)).value.1 ==
         Reported("", st.last.value, Scoring.Score(st.last.value.right, st.last.value.total)))
  {
  }

  /** Under a forced regrade (given, or because the scores file was missing)
      no directory is skipped, nothing crashes, and every directory's entry is
      rewritten with the decimal text of its new score. */
  lemma {:induction false} ForcedRegradeRewritesEntry(st: GraderState, cfg: Pipeline.Config, d: string, sub: Pipeline.Submission)
    requires cfg.delim != [] && st.force
    ensures Pipeline.Final(cfg, sub, st.force) != Pipeline.UpToDate
    ensures Advance(st, Observe(cfg, d, sub, st.force)).Some?
    ensures var (st', r) := Advance(st, Observe(cfg, d, sub, st.force)).value;
      d in st'.scores && st'.scores[d] == NatToString(r.score) && ParseNat(st'.scores[d]) == r.score
  {
    var (st', r) := Advance(st, Observe(cfg, d, sub, st.force)).value;
    ParseNatToString(r.score);
  }

  /** A digit string is a word, so a regraded entry keeps the ledger
      readable as long as the directory name is a word too. */
  lemma {:induction false} AdvanceKeepsWellFormed(st: GraderState, e: Event)
    requires Ledger.WellFormed(st.scores) && Ledger.Word(e.dir)
    ensures Advance(st, e).Some? ==> Ledger.WellFormed(Advance(st, e).value.0.scores)
  {
    if Advance(st, e).Some? {
      var (st', r) := Advance(st, e).value;
      DigitsAreAWord(NatToString(r.score));
    }
  }

  lemma {:induction false} DigitsAreAWord(s: string)
    requires |s| >= 1 && forall i :: 0 <= i < |s| ==> IsDigit(s[i])
    ensures Ledger.Word(s)
  {
    forall i | 0 <= i < |s| ensures !Ledger.IsSpace(s[i]) { assert IsDigit(s[i]); }
  }

  /** The `try` blocks of the walked directories, in order. The force flag
      never changes during the walk. */
  function Events(cfg: Pipeline.Config, dirs: seq<(string, Pipeline.Submission)>, force: bool): (es: seq<Event>)
    requires cfg.delim != []
    ensures |es| == |dirs|
    ensures forall i :: 0 <= i < |es| ==> es[i] == Observe(cfg, dirs[i].0, dirs[i].1, force)
  {
    seq(|dirs|, i requires 0 <= i < |dirs| => Observe(cfg, dirs[i].0, dirs[i].1, force))
  }

  /** The result of the walk: the state and the reports so far, and whether
      the walk got to the end. */
  datatype RunResult = RunResult(state: GraderState, reports: seq<Reported>, finished: bool)

  /** The `finally` blocks of the walk, one per event, stopping at a crash. */
  function AdvanceAll(st: GraderState, es: seq<Event>): RunResult
    decreases |es|
  {
    if es == [] then RunResult(st, [], true)
    else
      match Advance(st, es[0])
      case None => RunResult(st, [], false)
      case Some((st', r)) =>
        var rest := AdvanceAll(st', es[1..]);
        RunResult(rest.state, [r] + rest.reports, rest.finished)
  }

  /** The walk keeps the force flag and gives one report per directory up to
      a crash, every report with a score in [0, 100]; it finishes exactly when
      no directory crashed. */
  lemma {:induction false} AdvanceAllKeeps(st: GraderState, es: seq<Event>)
    ensures var r := AdvanceAll(st, es);
      && r.state.force == st.force && |r.reports| <= |es|
      && (r.finished <==> |r.reports| == |es|)
      && (forall i :: 0 <= i < |r.reports| ==> r.reports[i].score <= 100)
    decreases |es|
  {
    if es != [] {
      AdvanceBounds(st, es[0]);
      match Advance(st, es[0])
      case None =>
      case Some((st', r)) =>
        AdvanceAllKeeps(st', es[1..]);
        var rest := AdvanceAll(st', es[1..]);
        var reports := [r] + rest.reports;
        assert AdvanceAll(st, es) == RunResult(rest.state, reports, rest.finished);
        forall i | 0 <= i < |reports| ensures reports[i].score <= 100 {
          if i > 0 { assert reports[i] == rest.reports[i - 1]; }
        }
    }
  }

  /** The walk keeps the ledger readable when every directory name is a word. */
  lemma {:induction false} AdvanceAllKeepsLedger(st: GraderState, es: seq<Event>)
    requires Ledger.WellFormed(st.scores)
    requires forall i :: 0 <= i < |es| ==> Ledger.Word(es[i].dir)
    ensures Ledger.WellFormed(AdvanceAll(st, es).state.scores)
    decreases |es|
  {
    if es != [] && Advance(st, es[0]).Some? {
      var (st', r) := Advance(st, es[0]).value;
      AdvanceKeepsWellFormed(st, es[0]);
      assert forall i :: 0 <= i < |es[1..]| ==> es[1..][i] == es[i + 1];
      AdvanceAllKeepsLedger(st', es[1..]);
    }
  }

  /** The walk from st over es, after reports were already written. */
  function Resume(st: GraderState, es: seq<Event>, reports: seq<Reported>): RunResult
  {
    var rest := AdvanceAll(st, es);
    RunResult(rest.state, reports + rest.reports, rest.finished)
  }

  /** Resuming at directory i is resuming at i + 1 with one report more. */
  lemma {:induction false} ResumeStep(st: GraderState, es: seq<Event>, i: nat, st': GraderState, r: Reported, reports: seq<Reported>)
    requires i < |es| && Advance(st, es[i]) == Some((st', r))
    ensures Resume(st, es[i..], reports) == Resume(st', es[i + 1..], reports + [r])
  {
    assert es[i..][0] == es[i];
    assert es[i..][1..] == es[i + 1..];
    var rest := AdvanceAll(st', es[i + 1..]);
    assert reports + ([r] + rest.reports) == (reports + [r]) + rest.reports;
  }

  /** Resuming at a crash ends the walk with the reports so far. */
  lemma {:induction false} ResumeCrash(st: GraderState, es: seq<Event>, i: nat, reports: seq<Reported>)
    requires i < |es| && Advance(st, es[i]).None?
    ensures Resume(st, es[i..], reports) == RunResult(st, reports, false)
  {
    assert es[i..][0] == es[i];
    assert reports + [] == reports;
  }

  /** Resuming past the last directory is the end of the walk. */
  lemma {:induction false} ResumeEnd(st: GraderState, es: seq<Event>, reports: seq<Reported>)
    ensures Resume(st, es[|es|..], reports) == RunResult(st, reports, true)
  {
    assert es[|es|..] == [];
    assert reports + [] == reports;
  }

  /** The `try` block of the directory loop with its `except UserWarning`,
      run imperatively: staging, the skip, the build, the run, the
      comparison. The tally is None for the skip of a first directory. */
  method Attempt(cfg: Pipeline.Config, sub: Pipeline.Submission, force: bool, last: Option<Counts>)
    returns (message: string, t: Option<Counts>, regraded: bool)
    requires cfg.delim != []
    ensures regraded <==> !Pipeline.Stage(sub.files, cfg.allRequired).up2date || force
    ensures var c := Comparator.CompareSpec(sub.reference, sub.candidate, cfg.delim);
      && t == TallyAfter(Pipeline.Final(cfg, sub, force), c, last)
      && (t.Some? ==> message == Message(Pipeline.Final(cfg, sub, force), c))
  {
    var up2date, missing := Pipeline.StageFiles(sub.files, cfg.allRequired);
    regraded := !up2date || force;
    if missing {
      message, t := "Assignment not turned in.", Some(Tally(0, 1));
    } else if up2date && !force {
      // `continue` inside `try`: the `finally` block still runs, with the
      // previous directory's nRight and nTotal.
      message, t := "", last;
    } else if cfg.makeConfigured && sub.buildExit != 0 {
      message, t := "Failed to build x_x", Some(Tally(0, 1));
    } else if sub.timedOut {
      message, t := "Program ran too long. Infinite loop?\n", Some(Tally(0, 1));
    } else {
      var passed, total;
      message, passed, total := Comparator.Compare(sub.reference, sub.candidate, cfg.delim);
      t := Some(Tally(passed, total));
    }
  }

  /** The mutable state of `main`: the scores dictionary, the global
      forceRegrade and the locals nRight/nTotal that outlive each iteration. */
  class Grader {
    var scores: map<string, string>
    var forceRegrade: bool
    var last: Option<Counts>

    function State(): GraderState
      reads this
    {
      GraderState(scores, forceRegrade, last)
    }

    /** Loading the scores file (None when it does not exist); a file that
        does not load is the crash Load reports as None. */
    constructor(file: Option<string>, force: bool)
      requires Load(file, force).Some?
      ensures State() == Load(file, force).value
    {
      last := None;
      if file.None? {
        scores, forceRegrade := map[], true;
      } else {
        scores, forceRegrade := Ledger.Parse(file.value).value, force;
      }
    }

    /** The body of the directory loop for directory d: the `try` block,
        then the `finally` block that computes the score and updates the
        ledger. None is the crash of that block. */
    method Process(cfg: Pipeline.Config, d: string, sub: Pipeline.Submission) returns (r: Option<Reported>)
      requires cfg.delim != []
      modifies this
      ensures forceRegrade == old(forceRegrade)
      ensures var e := Observe(cfg, d, sub, old(forceRegrade));
        && (r.None? ==> Advance(old(State()), e).None? && State() == old(State()))
        && (r.Some? ==> Advance(old(State()), e) == Some((State(), r.value)))
    {
      var message, t, regraded := Attempt(cfg, sub, forceRegrade, last);
      if t.None? {
        return None;
      }
      var score := Scoring.Score(t.value.right, t.value.total);
      if regraded {
        scores := scores[d := NatToString(score)];
      }
      last := t;
      r := Some(Reported(message, t.value, score));
    }

    /** The directory walk: Process for each directory in order, stopping
        at the first crash. */
    method Walk(cfg: Pipeline.Config, dirs: seq<(string, Pipeline.Submission)>)
      returns (reports: seq<Reported>, finished: bool)
      requires cfg.delim != []
      modifies this
      ensures forceRegrade == old(forceRegrade)
      ensures AdvanceAll(old(State()), Events(cfg, dirs, old(forceRegrade))) == RunResult(State(), reports, finished)
    {
      ghost var es := Events(cfg, dirs, forceRegrade);
      reports := [];
      var i := 0;
      assert es[0..] == es;
      while i < |dirs|
        invariant 0 <= i <= |dirs| && forceRegrade == old(forceRegrade)
        invariant AdvanceAll(old(State()), es) == Resume(State(), es[i..], reports)
      {
        ghost var pre := State();
        var r := Process(cfg, dirs[i].0, dirs[i].1);
        assert es[i] == Observe(cfg, dirs[i].0, dirs[i].1, forceRegrade);
        if r.None? {
          ResumeCrash(pre, es, i, reports);
          return reports, false;
        }
        ResumeStep(pre, es, i, State(), r.value, reports);
        reports := reports + [r.value];
        i := i + 1;
      }
      ResumeEnd(State(), es, reports);
      finished := true;
    }

    /** The directory walk, then writing the scores file. The ledger text is
        None when a directory crashed the run; a written ledger lists every
        key once in sorted order and reads back as the final scores. */
    method GradeAll(cfg: Pipeline.Config, dirs: seq<(string, Pipeline.Submission)>)
      returns (reports: seq<Reported>, keys: seq<string>, ledger: Option<string>)
      requires cfg.delim != []
      modifies this
      ensures var run := AdvanceAll(old(State()), Events(cfg, dirs, old(forceRegrade)));
        State() == run.state && reports == run.reports && (ledger.Some? <==> run.finished)
      ensures ledger.Some? ==>
        && Ledger.Sorted(keys) && (forall k :: k in scores <==> k in keys)
        && ledger.value == Ledger.Render(keys, scores)
      ensures ledger.Some? && Ledger.WellFormed(scores) ==> Ledger.Parse(ledger.value) == Some(scores)
    {
      var finished;
      reports, finished := Walk(cfg, dirs);
      if !finished {
        return reports, [], None;
      }
      var text;
      keys, text := Ledger.Persist(scores);
      if Ledger.WellFormed(scores) {
        Ledger.PersistRoundTrip(scores, keys, text);
      }
      ledger := Some(text);
    }
  }
}
