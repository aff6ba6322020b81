/** `compare` from autograder.py: split the reference output ("soutput") and
    the candidate output ("output") on the delimiter, pad the candidate with the
    delimiter, compare unit by unit up to the reference's length, and build the
    report text. */
module Comparator {
  import opened Wrappers
  import opened Text

  const FailedOutput: string := "Program failed to produce output"
  const AllPassed: string := "Summary: All tests passed."

  /** What `compare` returns: (report, passed, total). */
  datatype Comparison = Comparison(report: string, passed: nat, total: nat)

  /** The candidate units after the padding loop. */
  function Padded(stu: seq<string>, n: nat, d: string): seq<string>
  {
    if |stu| < n then stu + seq(n - |stu|, _ => d) else stu
  }

  /** The list comprehension `[off[i] == stu[i] for i in xrange(len(off))]`. */
  function Verdicts(off: seq<string>, stu: seq<string>): (v: seq<bool>)
    requires |off| <= |stu|
    ensures |v| == |off|
    ensures forall i :: 0 <= i < |v| ==> (v[i] <==> off[i] == stu[i])
  {
    seq(|off|, i requires 0 <= i < |off| => off[i] == stu[i])
  }

  /** `v.count(b)`. */
  function Count(v: seq<bool>, b: bool): (n: nat)
    ensures n <= |v|
  {
    if v == [] then 0 else (if v[0] == b then 1 else 0) + Count(v[1..], b)
  }

  predicate AllTrue(v: seq<bool>) { forall i :: 0 <= i < |v| ==> v[i] }

  const Failure: string := " failure "
  const Failures: string := " failures "
  const SummaryOpen: string := "\nSummary: Student output has "
  const SummaryIn: string := "in "
  const SummaryClose: string := " tests.\n\nDetailed report:\n\n"
  const TestOpen: string := " Test "
  const Succeeded: string := " succeeded."
  const FailedHad: string := " failed:\n   Student had:\n\t"
  const ShouldHave: string := "\n   Should have:\n\t"

  function Plural(failures: nat): string
  {
    if failures == 1 then Failure else Failures
  }

  /** The summary line that opens a report with at least one failure. */
  function Header(failures: nat, tests: nat): string
  {
    SummaryOpen + NatToString(failures) + Plural(failures) + SummaryIn + NatToString(tests) + SummaryClose
  }

  /** The report line for test i. */
  function Entry(i: nat, ok: bool, had: string, should: string): string
  {
    if ok then TestOpen + NatToString(i) + Succeeded
    else TestOpen + NatToString(i) + FailedHad + had + ShouldHave + should
  }

  /** The report lines of all tests, in order. */
  function Entries(v: seq<bool>, stu: seq<string>, off: seq<string>): (es: seq<string>)
    requires |v| <= |stu| && |v| <= |off|
    ensures |es| == |v|
  {
    seq(|v|, i requires 0 <= i < |v| => Entry(i, v[i], stu[i], off[i]))
  }

  function Concat(ss: seq<string>): string
  {
    if ss == [] then [] else Concat(ss[..|ss| - 1]) + ss[|ss| - 1]
  }

  /** The report: the one-line summary when every test passed, otherwise
      the failure summary followed by one entry per test. A report with
      failures starts with a newline, so it is never the one-line summary. */
  function ReportText(v: seq<bool>, stu: seq<string>, off: seq<string>): (r: string)
    requires |v| <= |stu| && |v| <= |off|
    ensures r == AllPassed <==> AllTrue(v)
    ensures r != []
  {
    if AllTrue(v) then AllPassed
    else
      var r := Header(Count(v, false), |v|) + Concat(Entries(v, stu, off));
      assert r[0] == '\n' && AllPassed[0] == 'S';
      r
  }

  /** Comparing split reference units `off` with split candidate units `stu`:
      one test per reference unit, and no more passes than tests. */
  function CompareUnits(off: seq<string>, stu: seq<string>, d: string): (c: Comparison)
    ensures c.total == |off| && c.passed <= c.total && c.report != []
  {
    var padded := Padded(stu, |off|, d);
    var v := Verdicts(off, padded);
    Comparison(ReportText(v, padded, off), Count(v, true), |off|)
  }

  /** `compare` on the two artifacts; None is a file that cannot be opened.
      There is always at least one test, and never more passes than tests. */
  function CompareSpec(reference: Option<string>, candidate: Option<string>, d: string): (c: Comparison)
    requires d != []
    ensures 1 <= c.total && c.passed <= c.total && c.report != []
  {
    if reference.None? || candidate.None? then Comparison(FailedOutput, 0, 1)
    else CompareUnits(Split(Universal(reference.value), d), Split(Universal(candidate.value), d), d)
  }

  /** The padding loop `for i in xrange(len(off) - len(stu)): stu.append(d)`. */
  method Pad(stu: seq<string>, n: nat, d: string) returns (padded: seq<string>)
    ensures |padded| == if |stu| < n then n else |stu|
    ensures padded[..|stu|] == stu
    ensures forall i :: |stu| <= i < |padded| ==> padded[i] == d
    ensures padded == Padded(stu, n, d)
  {
    padded := stu;
    var i := 0;
    while i < n - |stu|
      invariant 0 <= i && (i <= n - |stu| || i == 0)
      invariant |padded| == |stu| + i
      invariant padded[..|stu|] == stu
      invariant forall j :: |stu| <= j < |padded| ==> padded[j] == d
    {
      padded := padded + [d];
      i := i + 1;
    }
    assert padded == Padded(stu, n, d);
  }

  /** The report: the one-line summary, or the summary of failures that the
      entries are then appended to. */
  method BuildReport(counter: seq<bool>, stu: seq<string>, off: seq<string>) returns (report: string)
    requires |counter| <= |stu| && |counter| <= |off|
    ensures report == ReportText(counter, stu, off)
  {
    if AllTrue(counter) {
      report := AllPassed;
    } else {
      report := AppendEntries(Header(Count(counter, false), |counter|), counter, stu, off);
    }
  }

  /** The loop `for i in xrange(len(counter)): resultstr += ...`. */
  method AppendEntries(head: string, counter: seq<bool>, stu: seq<string>, off: seq<string>)
    returns (report: string)
    requires |counter| <= |stu| && |counter| <= |off|
    ensures report == head + Concat(Entries(counter, stu, off))
  {
    ghost var es := Entries(counter, stu, off);
    report := head;
    var i := 0;
    while i < |counter|
      invariant 0 <= i <= |counter|
      invariant report == head + Concat(es[..i])
    {
      AppendStep(head, es, i);
      report := report + Entry(i, counter[i], stu[i], off[i]);
      i := i + 1;
    }
    assert es[..i] == es;
  }

  lemma {:induction false} AppendStep(head: string, es: seq<string>, i: nat)
    requires i < |es|
    ensures head + Concat(es[..i]) + es[i] == head + Concat(es[..i + 1])
  {
    assert es[..i + 1][..i] == es[..i];
  }

  /** `compare`, as the source computes it: split, pad, compare, report. */
  method Compare(reference: Option<string>, candidate: Option<string>, d: string)
    returns (report: string, passed: nat, total: nat)
    requires d != []
    ensures Comparison(report, passed, total) == CompareSpec(reference, candidate, d)
    ensures 1 <= total && passed <= total
    ensures reference.None? || candidate.None? ==> report == FailedOutput && passed == 0 && total == 1
    ensures reference.Some? && candidate.Some? ==> total == |Split(Universal(reference.value), d)|
  {
    if reference.None? || candidate.None? {
      return FailedOutput, 0, 1;
    }
    var off := Split(Universal(reference.value), d);
    var stu := Split(Universal(candidate.value), d);
    stu := Pad(stu, |off|, d);
    var counter := Verdicts(off, stu);
    report := BuildReport(counter, stu, off);
    passed, total := Count(counter, true), |off|;
  }

  // ----- properties of the specification -----

  /** Every test is either a pass or a failure. */
  lemma {:induction false} CountSplits(v: seq<bool>)
    ensures Count(v, true) + Count(v, false) == |v|
  {
    if v != [] { CountSplits(v[1..]); }
  }

  /** Everything passed exactly when the pass count is the length. */
  lemma {:induction false} CountAllTrue(v: seq<bool>)
    ensures Count(v, true) == |v| <==> AllTrue(v)
  {
    if v != [] {
      CountAllTrue(v[1..]);
      assert AllTrue(v) <==> v[0] && AllTrue(v[1..]) by {
        if v[0] && AllTrue(v[1..]) {
          forall i | 0 <= i < |v| ensures v[i] { if i > 0 { assert v[i] == v[1..][i - 1]; } }
        }
        if AllTrue(v) {
          forall i | 0 <= i < |v[1..]| ensures v[1..][i] { assert v[1..][i] == v[i + 1]; }
        }
      }
    }
  }

  /** The reference units fixed by the reference alone: total does not
      depend on the candidate, and every unit has the delimiter nowhere inside. */
  predicate DelimiterFree(off: seq<string>, d: string)
  {
    forall i :: 0 <= i < |off| ==> !Occurs(off[i], d)
  }

  /** A padded position never passes: no reference unit contains the delimiter,
      so none can equal the sentinel. */
  lemma {:induction false} PaddingNeverPasses(off: seq<string>, stu: seq<string>, d: string, i: nat)
    requires d != [] && DelimiterFree(off, d)
    requires |stu| <= i < |off|
    ensures !Verdicts(off, Padded(stu, |off|, d))[i]
  {
    var padded := Padded(stu, |off|, d);
    assert padded[i] == d;
  }

  /** Passes are counted only among the candidate's own units. */
  lemma {:induction false} PassesAmongFirst(v: seq<bool>, k: nat)
    requires k <= |v|
    requires forall i :: k <= i < |v| ==> !v[i]
    ensures Count(v, true) == Count(v[..k], true)
    decreases |v|
  {
    if k == |v| {
      assert v[..k] == v;
    } else {
      var w := v[..|v| - 1];
      assert w[..k] == v[..k];
      PassesAmongFirst(w, k);
      CountAppend(w, v[|v| - 1], true);
      assert v == w + [v[|v| - 1]];
    }
  }

  lemma {:induction false} CountAppend(v: seq<bool>, x: bool, b: bool)
    ensures Count(v + [x], b) == Count(v, b) + (if x == b then 1 else 0)
  {
    if v == [] {
      assert [] + [x] == [x];
    } else {
      assert (v + [x])[1..] == v[1..] + [x];
      CountAppend(v[1..], x, b);
    }
  }

  /** The candidate shorter than the reference can never pass everything:
      passed is bounded by both the reference and the candidate length. */
  lemma {:induction false} PassedBound(off: seq<string>, stu: seq<string>, d: string)
    requires d != [] && DelimiterFree(off, d)
    ensures var c := CompareUnits(off, stu, d);
      c.total == |off| && c.passed <= c.total && c.passed <= |stu|
  {
    var padded := Padded(stu, |off|, d);
    var v := Verdicts(off, padded);
    if |stu| < |off| {
      forall i | |stu| <= i < |v| ensures !v[i] { PaddingNeverPasses(off, stu, d, i); }
      PassesAmongFirst(v, |stu|);
    }
  }

  /** All tests pass exactly when the candidate starts with the reference's
      units, one for one; trailing candidate units are ignored. */
  lemma {:induction false} AllPassIff(off: seq<string>, stu: seq<string>, d: string)
    requires d != [] && DelimiterFree(off, d)
    ensures var c := CompareUnits(off, stu, d);
      c.passed == c.total <==> |off| <= |stu| && stu[..|off|] == off
  {
    var padded := Padded(stu, |off|, d);
    var v := Verdicts(off, padded);
    CountAllTrue(v);
    PassedBound(off, stu, d);
    if |off| <= |stu| && stu[..|off|] == off {
      forall i | 0 <= i < |v| ensures v[i] { assert stu[..|off|][i] == stu[i]; }
    }
    if AllTrue(v) {
      assert |off| <= |stu|;
      assert stu[..|off|] == off by {
        forall i | 0 <= i < |off| ensures stu[..|off|][i] == off[i] { assert v[i]; }
      }
    }
  }

  /** The report is the one-line summary exactly when all tests passed; a report
      with failures starts with a newline. */
  lemma {:induction false} ReportSummaryIff(off: seq<string>, stu: seq<string>, d: string)
    ensures var c := CompareUnits(off, stu, d);
      c.report == AllPassed <==> c.passed == c.total
  {
    var padded := Padded(stu, |off|, d);
    var v := Verdicts(off, padded);
    CountAllTrue(v);
    if !AllTrue(v) {
      var r := Header(Count(v, false), |v|) + Concat(Entries(v, padded, off));
      assert r[0] == '\n';
      assert AllPassed[0] == 'S';
    }
  }

  /** A report with failures opens with the failure count (the number of false
      verdicts, that is total - passed) in singular or plural wording. */
  lemma {:induction false} FailureSummary(off: seq<string>, stu: seq<string>, d: string)
    ensures var c := CompareUnits(off, stu, d);
      var f := c.total - c.passed;
      var h := SummaryOpen + NatToString(f) + (if f == 1 then Failure else Failures) +
               SummaryIn + NatToString(c.total) + SummaryClose;
      c.passed < c.total ==> |h| <= |c.report| && c.report[..|h|] == h
  {
    var padded := Padded(stu, |off|, d);
    var v := Verdicts(off, padded);
    CountSplits(v);
    CountAllTrue(v);
    if !AllTrue(v) {
      var hv := Header(Count(v, false), |v|);
      var rest := Concat(Entries(v, padded, off));
      assert CompareUnits(off, stu, d).report == hv + rest;
      PrefixOfAppend(hv, rest);
    }
  }

  lemma {:induction false} PrefixOfAppend(x: string, y: string)
    ensures |x| <= |x + y| && (x + y)[..|x|] == x
  {
  }

  /** Piece i of a concatenation sits right after the pieces before it. */
  lemma {:induction false} ConcatAt(ss: seq<string>, i: nat)
    requires i < |ss|
    ensures |Concat(ss[..i])| + |ss[i]| <= |Concat(ss)|
    ensures Concat(ss)[|Concat(ss[..i])|..|Concat(ss[..i])| + |ss[i]|] == ss[i]
    decreases |ss|
  {
    var last := |ss| - 1;
    var init := ss[..last];
    if i == last {
      assert init == ss[..i];
    } else {
      ConcatAt(init, i);
      assert init[..i] == ss[..i];
      assert init[i] == ss[i];
      var a := Concat(init);
      assert Concat(ss) == a + ss[last];
      var p := |Concat(ss[..i])|;
      assert (a + ss[last])[p..p + |ss[i]|] == a[p..p + |ss[i]|];
    }
  }

  /** A report with failures is the summary line followed by every test's
      entry in order: entry i, " Test i succeeded." or " Test i failed:" with the
      candidate's and the reference's unit, sits right after entries 0 .. i-1. */
  lemma {:induction false} ReportEntriesInOrder(v: seq<bool>, stu: seq<string>, off: seq<string>, i: nat)
    requires |v| <= |stu| && |v| <= |off|
    requires !AllTrue(v) && i < |v|
    ensures Entries(v, stu, off)[i] == Entry(i, v[i], stu[i], off[i])
    ensures Occupies(ReportText(v, stu, off),
                     |Header(Count(v, false), |v|)| + |Concat(Entries(v, stu, off)[..i])|,
                     Entries(v, stu, off)[i])
  {
    ReportOfFailures(v, stu, off);
    PieceAt(ReportText(v, stu, off), Header(Count(v, false), |v|), Entries(v, stu, off), i);
  }

  lemma {:induction false} ReportOfFailures(v: seq<bool>, stu: seq<string>, off: seq<string>)
    requires |v| <= |stu| && |v| <= |off| && !AllTrue(v)
    ensures ReportText(v, stu, off) == Header(Count(v, false), |v|) + Concat(Entries(v, stu, off))
  {
  }

  /** Text e sits in r at offset at. */
  predicate Occupies(r: string, at: nat, e: string)
  {
    at + |e| <= |r| && r[at..at + |e|] == e
  }

  /** Piece i of the pieces written after a head h. */
  lemma {:induction false} PieceAt(r: string, h: string, es: seq<string>, i: nat)
    requires i < |es| && r == h + Concat(es)
    ensures Occupies(r, |h| + |Concat(es[..i])|, es[i])
  {
    ConcatAt(es, i);
    var pre := Concat(es[..i]);
    var full := Concat(es);
    assert (h + full)[|h| + |pre|..|h| + |pre| + |es[i]|] == full[|pre|..|pre| + |es[i]|];
  }

  /** Identical split outputs pass everything and get the one-line summary. */
  lemma {:induction false} IdenticalPasses(off: seq<string>, d: string)
    requires d != [] && DelimiterFree(off, d)
    ensures CompareUnits(off, off, d) == Comparison(AllPassed, |off|, |off|)
  {
    AllPassIff(off, off, d);
    ReportSummaryIff(off, off, d);
    assert off[..|off|] == off;
  }

  /** Missing artifacts give the fixed hard failure; otherwise total is the
      number of reference units, whatever the candidate says, and the report
      is the summary line exactly when everything passed. */
  lemma {:induction false} CompareSpecProperties(reference: Option<string>, candidate: Option<string>, d: string)
    requires d != []
    ensures var c := CompareSpec(reference, candidate, d);
      && (reference.None? || candidate.None? ==> c == Comparison(FailedOutput, 0, 1))
      && (reference.Some? && candidate.Some? ==> c.total == |Split(Universal(reference.value), d)|)
      && 1 <= c.total && c.passed <= c.total
      && (c.report == AllPassed <==> c.passed == c.total)
  {
    if reference.Some? && candidate.Some? {
      var off := Split(Universal(reference.value), d);
      var stu := Split(Universal(candidate.value), d);
      SplitPartsAvoidDelimiter(Universal(reference.value), d);
      PassedBound(off, stu, d);
      ReportSummaryIff(off, stu, d);
    }
  }

  /** The same text on both sides passes every test. */
  lemma {:induction false} SameTextPasses(text: string, d: string)
    requires d != []
    ensures var c := CompareSpec(Some(text), Some(text), d);
      c.passed == c.total && c.report == AllPassed
  {
    SplitPartsAvoidDelimiter(Universal(text), d);
    IdenticalPasses(Split(Universal(text), d), d);
  }
}
