/** The model on two small inputs, proved. */
module Scenarios {
  import opened Wrappers
  import opened Text
  import Comparator
  import Scoring

  /** Splitting on "@" a text that starts with one unit character c. */
  lemma {:induction false} SplitUnit(c: char, rest: string)
    requires c != '@' && (rest == [] || rest[0] == '@')
    ensures Split([c] + rest, "@") ==
      if rest == [] then [[c]] else [[c]] + Split(rest[1..], "@")
  {
    var s := [c] + rest;
    assert s[..1] != "@" by { assert s[..1][0] == c; }
    assert s[1..] == rest;
    assert Split(s, "@") == [[c] + Split(rest, "@")[0]] + Split(rest, "@")[1..];
    if rest == [] {
      assert Split(rest, "@") == [[]];
      assert [c] + Split(rest, "@")[0] == [c] && Split(rest, "@")[1..] == [];
    } else {
      assert rest[..1] == "@";
      assert Split(rest, "@") == [[]] + Split(rest[1..], "@");
      assert [c] + Split(rest, "@")[0] == [c];
      assert Split(rest, "@")[1..] == Split(rest[1..], "@");
    }
  }

  /** The counts of a comparison of split units. */
  lemma {:induction false} UnitCounts(off: seq<string>, stu: seq<string>, d: string, v: seq<bool>)
    requires v == Comparator.Verdicts(off, Comparator.Padded(stu, |off|, d))
    ensures Comparator.CompareUnits(off, stu, d).passed == Comparator.Count(v, true)
    ensures Comparator.CompareUnits(off, stu, d).total == |off|
  {
  }

  /** Splitting a text of three one-character units. */
  lemma {:induction false} SplitThree(a: char, b: char, c: char)
    requires a != '@' && b != '@' && c != '@'
    ensures Split([a, '@', b, '@', c], "@") == [[a], [b], [c]]
  {
    SplitUnit(c, "");
    SplitUnit(b, ['@', c]);
    assert ['@', c][1..] == [c] && [c] == [c] + [];
    assert [b, '@', c] == [b] + ['@', c];
    SplitUnit(a, ['@', b, '@', c]);
    assert [a, '@', b, '@', c] == [a] + ['@', b, '@', c];
    assert ['@', b, '@', c][1..] == [b, '@', c];
  }

  lemma {:induction false} SplitsOfOneMismatch()
    ensures Split("A@B@C", "@") == ["A", "B", "C"] && Split("A@X@C", "@") == ["A", "X", "C"]
  {
    SplitThree('A', 'B', 'C');
    SplitThree('A', 'X', 'C');
  }

  /** Splitting a text of two one-character units, and of one. */
  lemma {:induction false} SplitsOfShort()
    ensures Split("A@B", "@") == ["A", "B"] && Split("A", "@") == ["A"]
  {
    SplitUnit('B', "");
    SplitUnit('A', "");
    assert "A@B" == ['A'] + "@B" && "@B"[1..] == "B" && "A" == ['A'] + "" && "B" == ['B'] + "";
    SplitUnit('A', "@B");
  }

  /** "A@B@C" against "A@X@C": tests 1 and 3 pass, test 2 fails, 67%. */
  lemma {:induction false} OneMismatch()
    ensures var c := Comparator.CompareSpec(Some("A@B@C"), Some("A@X@C"), "@");
      c.passed == 2 && c.total == 3 && Scoring.Score(c.passed, c.total) == 67
  {
    SplitsOfOneMismatch();
    var off, stu := Split("A@B@C", "@"), Split("A@X@C", "@");
    UniversalKeepsPlainText("A@B@C");
    UniversalKeepsPlainText("A@X@C");
    assert Comparator.CompareSpec(Some("A@B@C"), Some("A@X@C"), "@") == Comparator.CompareUnits(off, stu, "@");
    assert Comparator.Padded(stu, 3, "@") == stu;
    var v := Comparator.Verdicts(off, stu);
    UnitCounts(off, stu, "@", v);
    assert v == [true, false, true];
    assert Comparator.Count(v, true) == 2 by {
      assert v[1..] == [false, true] && v[1..][1..] == [true] && [true][1..] == [];
      assert Comparator.Count([true], true) == 1;
      assert Comparator.Count([false, true], true) == 1;
    }
  }

  /** A candidate one unit short is padded with the delimiter, which fails
      the missing test: 1 of 2, 50%. */
  lemma {:induction false} ShortCandidate()
    ensures Comparator.Padded(Split("A", "@"), 2, "@") == ["A", "@"]
    ensures Comparator.Verdicts(Split("A@B", "@"), ["A", "@"]) == [true, false]
    ensures var c := Comparator.CompareSpec(Some("A@B"), Some("A"), "@");
      c.passed == 1 && c.total == 2 && Scoring.Score(c.passed, c.total) == 50
  {
    SplitsOfShort();
    var off, stu := Split("A@B", "@"), Split("A", "@");
    assert off == ["A", "B"] && stu == ["A"];
    UniversalKeepsPlainText("A@B");
    UniversalKeepsPlainText("A");
    var padded := Comparator.Padded(stu, 2, "@");
    assert padded == ["A", "@"];
    var v := Comparator.Verdicts(off, padded);
    assert v[1] == false by { assert "B" != "@" by { assert "B"[0] != "@"[0]; } }
    assert v == [true, false];
    assert Comparator.Count(v, true) == 1 by {
      assert v[1..] == [false] && [false][1..] == [];
    }
  }
}
