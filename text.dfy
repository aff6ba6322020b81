/** The Python string primitives the autograder relies on: `str.split(sep)`
    with a non-empty separator, the universal-newline translation of files
    opened in mode 'U', and `str(n)` for non-negative integers. */
module Text {

  /** d occurs in s as a contiguous substring. */
  predicate Occurs(s: string, d: string)
    decreases |s|
  {
    |d| <= |s| && (s[..|d|] == d || (|s| > 0 && Occurs(s[1..], d)))
  }

  /** `s.split(d)` for a non-empty separator: scan from the left, cut at each
      non-overlapping occurrence of d. There is always at least one part. */
  function Split(s: string, d: string): (parts: seq<string>)
    requires d != []
    ensures |parts| >= 1
    decreases |s|
  {
    if |s| < |d| then [s]
    else if s[..|d|] == d then [[]] + Split(s[|d|..], d)
    else
      var rest := Split(s[1..], d);
      [[s[0]] + rest[0]] + rest[1..]
  }

  /** `d.join(parts)`. */
  function Join(parts: seq<string>, d: string): string
    requires |parts| >= 1
  {
    parts[0] + JoinTail(parts[1..], d)
  }

  /** Each part preceded by the separator. */
  function JoinTail(parts: seq<string>, d: string): string
  {
    if parts == [] then [] else d + parts[0] + JoinTail(parts[1..], d)
  }

  /** Splitting loses nothing: joining the parts back gives the text. */
  lemma {:induction false} SplitJoin(s: string, d: string)
    requires d != []
    ensures Join(Split(s, d), d) == s
    decreases |s|, 1
  {
    if |s| < |d| {
    } else if s[..|d|] == d {
      SplitJoinAtDelimiter(s, d);
    } else {
      SplitJoinPlain(s, d);
    }
  }

  lemma {:induction false} SplitJoinAtDelimiter(s: string, d: string)
    requires d != [] && |d| <= |s| && s[..|d|] == d
    ensures Join(Split(s, d), d) == s
    decreases |s|, 0
  {
    var rest := Split(s[|d|..], d);
    SplitJoin(s[|d|..], d);
    assert Split(s, d) == [[]] + rest;
    assert ([[]] + rest)[1..] == rest;
    calc {
      Join(Split(s, d), d);
      [] + JoinTail(rest, d);
      d + rest[0] + JoinTail(rest[1..], d);
      { AppendAssoc(d, rest[0], JoinTail(rest[1..], d)); }
      d + Join(rest, d);
      s[..|d|] + s[|d|..];
      s;
    }
  }

  lemma {:induction false} SplitJoinPlain(s: string, d: string)
    requires d != [] && |d| <= |s| && s[..|d|] != d
    ensures Join(Split(s, d), d) == s
    decreases |s|, 0
  {
    var rest := Split(s[1..], d);
    SplitJoin(s[1..], d);
    assert ([[s[0]] + rest[0]] + rest[1..])[1..] == rest[1..];
    calc {
      Join(Split(s, d), d);
      [s[0]] + rest[0] + JoinTail(rest[1..], d);
      { AppendAssoc([s[0]], rest[0], JoinTail(rest[1..], d)); }
      [s[0]] + Join(rest, d);
      [s[0]] + s[1..];
      s;
    }
  }

  /** The first part is a prefix of the text. */
  lemma {:induction false} SplitFirstIsPrefix(s: string, d: string)
    requires d != []
    ensures Split(s, d)[0] <= s
    decreases |s|
  {
    if |s| < |d| {
    } else if s[..|d|] == d {
    } else {
      SplitFirstIsPrefix(s[1..], d);
    }
  }

  /** No part contains the separator, so no part can equal it. */
  lemma {:induction false} SplitPartsAvoidDelimiter(s: string, d: string)
    requires d != []
    ensures forall i :: 0 <= i < |Split(s, d)| ==> !Occurs(Split(s, d)[i], d)
    decreases |s|
  {
    var parts := Split(s, d);
    if |s| < |d| {
      NoOccurrenceWhenShorter(s, d);
    } else if s[..|d|] == d {
      var rest := Split(s[|d|..], d);
      SplitPartsAvoidDelimiter(s[|d|..], d);
      assert parts == [[]] + rest;
      forall i | 0 <= i < |parts| ensures !Occurs(parts[i], d) {
        if i == 0 { NoOccurrenceWhenShorter([], d); } else { assert parts[i] == rest[i - 1]; }
      }
    } else {
      var rest := Split(s[1..], d);
      SplitPartsAvoidDelimiter(s[1..], d);
      SplitFirstIsPrefix(s[1..], d);
      var first := [s[0]] + rest[0];
      assert first <= s;
      assert first[1..] == rest[0];
      assert !Occurs(rest[0], d);
      if |d| <= |first| {
        assert first[..|d|] == s[..|d|];
      }
      assert !Occurs(first, d);
      assert parts == [first] + rest[1..];
      forall i | 0 <= i < |parts| ensures !Occurs(parts[i], d) {
        if i > 0 { assert parts[i] == rest[i]; }
      }
    }
  }

  /** d starts at position j of s. */
  predicate StartsAt(s: string, j: nat, d: string)
  {
    j + |d| <= |s| && s[j..j + |d|] == d
  }

  /** Python cuts at the leftmost occurrence: no occurrence of d starts
      inside the first part, one starts right after it when there is a second
      part, and with a single part the text holds no occurrence at all. */
  lemma {:induction false} SplitCutsAtLeftmost(s: string, d: string)
    requires d != []
    ensures var parts := Split(s, d);
      && (forall j :: 0 <= j < |parts[0]| ==> !StartsAt(s, j, d))
      && (|parts| > 1 ==> StartsAt(s, |parts[0]|, d))
      && (|parts| == 1 ==> parts[0] == s)
    decreases |s|
  {
    if |s| < |d| {
    } else if s[..|d|] == d {
    } else {
      var t := s[1..];
      var rest := Split(t, d);
      SplitCutsAtLeftmost(t, d);
      var p := [s[0]] + rest[0];
      assert Split(s, d)[0] == p && |Split(s, d)| == |rest|;
      forall j | 0 <= j < |p| ensures !StartsAt(s, j, d) {
        if j == 0 {
          assert s[0..|d|] == s[..|d|];
        } else {
          StartsAtShift(s, j, d);
        }
      }
      if |rest| > 1 {
        StartsAtShift(s, |p|, d);
      }
      if |rest| == 1 {
        assert p == [s[0]] + t;
      }
    }
  }

  /** After the first cut, the remaining parts are the split of the text
      that follows the first part and the delimiter, so every later cut is
      leftmost too. */
  lemma {:induction false} SplitRest(s: string, d: string)
    requires d != []
    ensures |Split(s, d)| > 1 ==>
      |Split(s, d)[0]| + |d| <= |s| && Split(s, d)[1..] == Split(s[|Split(s, d)[0]| + |d|..], d)
    decreases |s|
  {
    if |s| < |d| {
    } else if s[..|d|] == d {
      var rest := Split(s[|d|..], d);
      assert Split(s, d) == [[]] + rest;
      assert ([[]] + rest)[1..] == rest;
    } else {
      var t := s[1..];
      var rest := Split(t, d);
      SplitRest(t, d);
      var first := [s[0]] + rest[0];
      assert Split(s, d) == [first] + rest[1..];
      if |rest| > 1 {
        assert t[|rest[0]| + |d|..] == s[|first| + |d|..];
        assert ([first] + rest[1..])[1..] == rest[1..];
      }
    }
  }

  /** An occurrence at j >= 1 in s is one at j - 1 in s without its first character. */
  lemma {:induction false} StartsAtShift(s: string, j: nat, d: string)
    requires 1 <= j && s != []
    ensures StartsAt(s, j, d) <==> StartsAt(s[1..], j - 1, d)
  {
    if j + |d| <= |s| {
      var t := s[1..];
      var x, y := s[j..j + |d|], t[j - 1..j - 1 + |d|];
      forall i | 0 <= i < |d| ensures x[i] == y[i] {
        assert t[j - 1 + i] == s[j + i];
      }
      assert x == y;
    }
  }

  lemma {:induction false} NoOccurrenceWhenShorter(s: string, d: string)
    requires |s| < |d|
    ensures !Occurs(s, d)
  {
  }

  /** Text read in mode 'U': "\r\n" and a lone "\r" both become "\n". */
  function Universal(s: string): (r: string)
    ensures '\r' !in r
    decreases |s|
  {
    if s == [] then []
    else if s[0] == '\r' then
      "\n" + Universal(if |s| > 1 && s[1] == '\n' then s[2..] else s[1..])
    else [s[0]] + Universal(s[1..])
  }

  /** Text without carriage returns is read unchanged. */
  lemma {:induction false} UniversalKeepsPlainText(s: string)
    requires '\r' !in s
    ensures Universal(s) == s
    decreases |s|
  {
    if s != [] {
      assert s[0] != '\r';
      assert '\r' !in s[1..] by {
        forall i | 0 <= i < |s[1..]| ensures s[1..][i] != '\r' { assert s[1..][i] == s[i + 1]; }
      }
      UniversalKeepsPlainText(s[1..]);
    }
  }

  /** Mode 'U' maps text piecewise: a piece that does not end in a carriage
      return is translated independently of what follows it. */
  lemma {:induction false} UniversalAppend(a: string, b: string)
    requires a == [] || a[|a| - 1] != '\r'
    ensures Universal(a + b) == Universal(a) + Universal(b)
    decreases |a|
  {
    if a == [] {
      assert a + b == b;
    } else if a[0] != '\r' {
      var t := a[1..];
      assert a == [a[0]] + t && a + b == [a[0]] + (t + b);
      UniversalAppend(t, b);
      UniversalPlain(a[0], t);
      UniversalPlain(a[0], t + b);
      AppendAssoc([a[0]], Universal(t), Universal(b));
    } else if a[1] == '\n' {
      var t := a[2..];
      assert a == "\r\n" + t && a + b == "\r\n" + (t + b);
      UniversalAppend(t, b);
      UniversalCRLF(t);
      UniversalCRLF(t + b);
      AppendAssoc("\n", Universal(t), Universal(b));
    } else {
      var t := a[1..];
      assert a == "\r" + t && a + b == "\r" + (t + b);
      UniversalAppend(t, b);
      UniversalLoneCR(t);
      UniversalLoneCR(t + b);
      AppendAssoc("\n", Universal(t), Universal(b));
    }
  }

  lemma {:induction false} AppendAssoc(x: string, y: string, z: string)
    ensures x + (y + z) == (x + y) + z
  {
  }

  /** A character other than a carriage return is read as itself. */
  lemma {:induction false} UniversalPlain(c: char, s: string)
    requires c != '\r'
    ensures Universal([c] + s) == [c] + Universal(s)
  {
    assert ([c] + s)[1..] == s;
  }

  /** A carriage return followed by a line feed is read as one line feed. */
  lemma {:induction false} UniversalCRLF(s: string)
    ensures Universal("\r\n" + s) == "\n" + Universal(s)
  {
    assert ("\r\n" + s)[2..] == s;
  }

  /** A carriage return not followed by a line feed is read as a line feed. */
  lemma {:induction false} UniversalLoneCR(s: string)
    requires s == [] || s[0] != '\n'
    ensures Universal("\r" + s) == "\n" + Universal(s)
  {
    assert ("\r" + s)[1..] == s;
  }

  predicate IsDigit(c: char) { '0' <= c <= '9' }

  function DigitChar(n: nat): (c: char)
    requires n < 10
    ensures IsDigit(c)
  {
    (48 + n) as char
  }

  function DigitValue(c: char): nat
  {
    if IsDigit(c) then (c as int) - 48 else 0
  }

  /** `str(n)`: decimal digits, no leading zero. */
  function NatToString(n: nat): (s: string)
    ensures |s| >= 1
    ensures forall i :: 0 <= i < |s| ==> IsDigit(s[i])
    ensures s[0] == '0' ==> s == "0"
    decreases n
  {
    if n < 10 then [DigitChar(n)] else NatToString(n / 10) + [DigitChar(n % 10)]
  }

  /** `int(s)` on a string of decimal digits. */
  function ParseNat(s: string): nat
    decreases |s|
  {
    if s == [] then 0 else 10 * ParseNat(s[..|s| - 1]) + DigitValue(s[|s| - 1])
  }

  /** Reading back the decimal text of a number gives the number. */
  lemma {:induction false} ParseNatToString(n: nat)
    ensures ParseNat(NatToString(n)) == n
    decreases n
  {
    var s := NatToString(n);
    if n < 10 {
      assert s[..|s| - 1] == [];
    } else {
      ParseNatToString(n / 10);
      assert s[..|s| - 1] == NatToString(n / 10);
    }
  }
}
