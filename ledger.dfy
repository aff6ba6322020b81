/** The scores file of autograder.py: read with
    `dict(map(str.split, f.readlines()))`, written as one `key\tvalue\n` line
    per key in sorted key order. Values are kept as the text written to, and
    read from, the file. */
module Ledger {
  import opened Wrappers

  /** The characters Python 2's `str.split()` treats as whitespace. */
  predicate IsSpace(c: char)
  {
    c == ' ' || c == '\t' || c == '\n' || c == '\r' || c == '\U{000B}' || c == '\U{000C}'
  }

  /** A non-empty run of non-whitespace characters. */
  predicate Word(s: string)
  {
    |s| > 0 && forall i :: 0 <= i < |s| ==> !IsSpace(s[i])
  }

  /** A ledger that survives being written and read back: keys and values are words. */
  predicate WellFormed(m: map<string, string>)
  {
    forall k :: k in m ==> Word(k) && Word(m[k])
  }

  // ----- reading -----

  /** Length of the first line of s, its newline included. */
  function LineEnd(s: string): (n: nat)
    requires s != []
    ensures 1 <= n <= |s|
    decreases |s|
  {
    if s[0] == '\n' || |s| == 1 then 1 else 1 + LineEnd(s[1..])
  }

  /** The first line stops at the first newline, or at the end of the text. */
  lemma {:induction false} LineEndIsFirstNewline(s: string)
    requires s != []
    ensures LineEnd(s) == |s| || s[LineEnd(s) - 1] == '\n'
    ensures forall j :: 0 <= j < LineEnd(s) - 1 ==> s[j] != '\n'
    decreases |s|
  {
    if !(s[0] == '\n' || |s| == 1) {
      LineEndIsFirstNewline(s[1..]);
      forall j | 1 <= j < LineEnd(s) - 1 ensures s[j] != '\n' { assert s[1..][j - 1] == s[j]; }
    }
  }

  /** The lines put back together. */
  function Joined(ls: seq<string>): string
  {
    if ls == [] then [] else ls[0] + Joined(ls[1..])
  }

  /** `readlines()`: the lines of s, each with its newline. */
  function Lines(s: string): seq<string>
    decreases |s|
  {
    if s == [] then [] else var n := LineEnd(s); [s[..n]] + Lines(s[n..])
  }

  /** `readlines()` loses nothing: the lines put back together are the text. */
  lemma {:induction false} LinesJoin(s: string)
    ensures Joined(Lines(s)) == s
    decreases |s|
  {
    if s != [] {
      var n := LineEnd(s);
      var rest := Lines(s[n..]);
      LinesJoin(s[n..]);
      var ls := [s[..n]] + rest;
      assert Lines(s) == ls;
      assert ls[1..] == rest;
      assert Joined(ls) == s[..n] + s[n..];
      assert s[..n] + s[n..] == s;
    }
  }

  /** A line as `readlines()` returns it: non-empty, no newline before its end. */
  predicate IsLine(l: string)
  {
    l != [] && forall j :: 0 <= j < |l| - 1 ==> l[j] != '\n'
  }

  predicate EndsInNewline(l: string)
  {
    l != [] && l[|l| - 1] == '\n'
  }

  /** `readlines()` cuts after each newline and nowhere else: every line is
      non-empty with no newline before its end, and every line but the last
      ends with one. */
  lemma {:induction false} LinesShape(s: string)
    ensures forall i :: 0 <= i < |Lines(s)| ==> IsLine(Lines(s)[i])
    ensures forall i :: 0 <= i < |Lines(s)| - 1 ==> EndsInNewline(Lines(s)[i])
    decreases |s|
  {
    if s != [] {
      var n := LineEnd(s);
      var rest := Lines(s[n..]);
      LinesShape(s[n..]);
      LineEndIsFirstNewline(s);
      var ls := [s[..n]] + rest;
      assert Lines(s) == ls;
      var first := s[..n];
      assert IsLine(first) by {
        forall j | 0 <= j < n - 1 ensures first[j] != '\n' { assert first[j] == s[j]; }
      }
      assert rest != [] ==> EndsInNewline(first) by {
        if rest != [] { assert n < |s| && first[n - 1] == s[n - 1]; }
      }
      forall i | 0 <= i < |ls| ensures IsLine(ls[i]) {
        if i == 0 { assert ls[0] == first; } else { assert ls[i] == rest[i - 1]; }
      }
      forall i | 0 <= i < |ls| - 1 ensures EndsInNewline(ls[i]) {
        if i == 0 { assert ls[0] == first; } else { assert ls[i] == rest[i - 1]; }
      }
    }
  }

  /** Length of the word that starts s. */
  function WordEnd(s: string): (n: nat)
    requires s != [] && !IsSpace(s[0])
    ensures 1 <= n <= |s|
    decreases |s|
  {
    if |s| == 1 || IsSpace(s[1]) then 1 else 1 + WordEnd(s[1..])
  }

  /** `str.split()`: the words of s, each a non-empty run without whitespace. */
  function Fields(s: string): (fs: seq<string>)
    ensures forall i :: 0 <= i < |fs| ==> Word(fs[i])
    decreases |s|
  {
    if s == [] then []
    else if IsSpace(s[0]) then Fields(s[1..])
    else
      var n := WordEnd(s);
      WordEndIsWord(s);
      var rest := Fields(s[n..]);
      assert forall i :: 1 <= i < |[s[..n]] + rest| ==> ([s[..n]] + rest)[i] == rest[i - 1];
      [s[..n]] + rest
  }

  /** `map(str.split, lines)`. */
  function Rows(lines: seq<string>): seq<seq<string>>
  {
    if lines == [] then [] else [Fields(lines[0])] + Rows(lines[1..])
  }

  /** `dict(rows)` started from acc: every row must be a pair (otherwise Python
      raises ValueError); a later pair overrides an earlier one. */
  function Collect(rows: seq<seq<string>>, acc: map<string, string>): (r: Option<map<string, string>>)
    ensures r.Some? <==> forall i :: 0 <= i < |rows| ==> |rows[i]| == 2
    ensures r.Some? ==> acc.Keys <= r.value.Keys
  {
    if rows == [] then Some(acc)
    else if |rows[0]| != 2 then None
    else
      assert forall i :: 1 <= i < |rows| ==> rows[i] == rows[1..][i - 1];
      Collect(rows[1..], acc[rows[0][0] := rows[0][1]])
  }

  /** Loading the scores file; None is the ValueError of a line without exactly
      two fields. Whatever loads is a well-formed ledger. */
  function Parse(text: string): (r: Option<map<string, string>>)
    ensures r.Some? ==> WellFormed(r.value)
  {
    RowsAreWords(Lines(text));
    CollectWellFormed(Rows(Lines(text)), map[]);
    Collect(Rows(Lines(text)), map[])
  }

  // ----- writing -----

  /** One line of the scores file. */
  function Entry(k: string, v: string): string
  {
    k + "\t" + v + "\n"
  }

  /** The lines for keys, in that order. */
  function Render(keys: seq<string>, m: map<string, string>): (text: string)
    requires forall i :: 0 <= i < |keys| ==> keys[i] in m
    ensures text == [] <==> keys == []
    ensures keys != [] ==> text[|text| - 1] == '\n'
  {
    if keys == [] then [] else Entry(keys[0], m[keys[0]]) + Render(keys[1..], m)
  }

  /** Python's string order: lexicographic by character code. */
  predicate Before(a: string, b: string)
    decreases |a|
  {
    if a == [] then b != []
    else if b == [] then false
    else if a[0] != b[0] then a[0] < b[0]
    else Before(a[1..], b[1..])
  }

  predicate Sorted(keys: seq<string>)
  {
    forall i, j :: 0 <= i < j < |keys| ==> Before(keys[i], keys[j])
  }

  /** The writing loop `for k in sorted(scores.keys()): write(k + "\t" + str(v) + "\n")`:
      it returns the keys in the order written and the file text. */
  method Persist(m: map<string, string>) returns (keys: seq<string>, text: string)
    ensures Sorted(keys)
    ensures forall k :: k in m <==> k in keys
    ensures text == Render(keys, m)
  {
    var rest := m.Keys;
    keys, text := [], [];
    while rest != {}
      invariant rest <= m.Keys
      invariant forall k :: k in m <==> k in keys || k in rest
      invariant forall i :: 0 <= i < |keys| ==> keys[i] !in rest
      invariant Sorted(keys)
      invariant AllBefore(keys, rest)
      invariant text == Render(keys, m)
      decreases rest
    {
      SmallestExists(rest);
      var k :| Least(k, rest);
      SortedExtend(keys, rest, k);
      RenderAppend(keys, k, m);
      text := text + Entry(k, m[k]);
      keys := keys + [k];
      rest := rest - {k};
    }
  }

  // ----- the order on strings -----

  lemma {:induction false} BeforeIrreflexive(a: string)
    ensures !Before(a, a)
    decreases |a|
  {
    if a != [] { BeforeIrreflexive(a[1..]); }
  }

  lemma {:induction false} BeforeTransitive(a: string, b: string, c: string)
    requires Before(a, b) && Before(b, c)
    ensures Before(a, c)
    decreases |a|
  {
    if a != [] && b != [] && c != [] && a[0] == b[0] && b[0] == c[0] {
      BeforeTransitive(a[1..], b[1..], c[1..]);
    }
  }

  lemma {:induction false} BeforeTotal(a: string, b: string)
    requires a != b
    ensures Before(a, b) || Before(b, a)
    decreases |a|
  {
    if a != [] && b != [] && a[0] == b[0] {
      BeforeTotal(a[1..], b[1..]);
    }
  }

  /** k is the smallest string of s. */
  predicate Least(k: string, s: set<string>)
  {
    k in s && forall j :: j in s && j != k ==> Before(k, j)
  }

  /** Every key written so far comes before every key still to be written. */
  predicate AllBefore(keys: seq<string>, rest: set<string>)
  {
    forall i, j :: 0 <= i < |keys| && j in rest ==> Before(keys[i], j)
  }

  /** Writing the smallest remaining key next keeps the keys sorted and
      before the rest. */
  lemma {:induction false} SortedExtend(keys: seq<string>, rest: set<string>, k: string)
    requires Sorted(keys) && AllBefore(keys, rest) && Least(k, rest)
    ensures Sorted(keys + [k]) && AllBefore(keys + [k], rest - {k})
  {
    var ks := keys + [k];
    forall i, j | 0 <= i < j < |ks| ensures Before(ks[i], ks[j]) {
      if j == |keys| { assert ks[j] == k && ks[i] == keys[i]; }
      else { assert ks[i] == keys[i] && ks[j] == keys[j]; }
    }
    forall i, j | 0 <= i < |ks| && j in rest - {k} ensures Before(ks[i], j) {
      if i == |keys| { assert ks[i] == k; }
      else { assert ks[i] == keys[i]; }
    }
  }

  /** Every non-empty finite set of strings has a smallest element. */
  lemma {:induction false} SmallestExists(s: set<string>)
    requires s != {}
    ensures exists k :: Least(k, s)
    decreases |s|
  {
    var x :| x in s;
    if s == {x} {
      assert Least(x, s);
    } else {
      var r := s - {x};
      SmallestExists(r);
      var k :| Least(k, r);
      if Before(k, x) {
        LeastStays(s, x, k);
      } else {
        LeastIsNew(s, x, k);
      }
    }
  }

  lemma {:induction false} LeastStays(s: set<string>, x: string, k: string)
    requires x in s && Least(k, s - {x}) && Before(k, x)
    ensures Least(k, s)
  {
    forall j | j in s && j != k ensures Before(k, j) {
      if j != x { assert j in s - {x}; }
    }
  }

  lemma {:induction false} LeastIsNew(s: set<string>, x: string, k: string)
    requires x in s && Least(k, s - {x}) && !Before(k, x)
    ensures Least(x, s)
  {
    assert k != x;
    BeforeTotal(k, x);
    forall j | j in s && j != x ensures Before(x, j) {
      if j != k {
        assert j in s - {x};
        BeforeTransitive(x, k, j);
      }
    }
  }

  /** The written text is fixed by the map alone: two sorted orders of the
      same keys are the same order. */
  lemma {:induction false} SortedIsUnique(a: seq<string>, b: seq<string>)
    requires Sorted(a) && Sorted(b)
    requires forall k :: k in a <==> k in b
    ensures a == b
    decreases |a|
  {
    SameMembersSameEmptiness(a, b);
    if a != [] && b != [] {
      assert a[0] in b && b[0] in a;
      if a[0] != b[0] {
        var i :| 0 <= i < |b| && b[i] == a[0];
        var j :| 0 <= j < |a| && a[j] == b[0];
        BeforeIrreflexive(a[0]);
        BeforeIrreflexive(b[0]);
        assert i > 0 && j > 0;
        assert Before(b[0], a[0]) && Before(a[0], b[0]);
        BeforeTransitive(a[0], b[0], a[0]);
      }
      forall k ensures k in a[1..] <==> k in b[1..] {
        if k in a[1..] {
          var i :| 1 <= i < |a| && a[i] == k;
          assert Before(a[0], k);
          BeforeIrreflexive(k);
          assert k in a && k in b;
          var j :| 0 <= j < |b| && b[j] == k;
          assert j != 0;
          assert b[1..][j - 1] == k;
        }
        if k in b[1..] {
          var i :| 1 <= i < |b| && b[i] == k;
          assert Before(b[0], k);
          BeforeIrreflexive(k);
          assert k in b && k in a;
          var j :| 0 <= j < |a| && a[j] == k;
          assert j != 0;
          assert a[1..][j - 1] == k;
        }
      }
      SortedIsUnique(a[1..], b[1..]);
      assert a == [a[0]] + a[1..] && b == [b[0]] + b[1..];
    }
  }

  lemma {:induction false} SameMembersSameEmptiness(a: seq<string>, b: seq<string>)
    requires forall k :: k in a <==> k in b
    ensures a == [] <==> b == []
  {
    if a != [] { assert a[0] in b; }
    if b != [] { assert b[0] in a; }
  }

  // ----- the round trip -----

  lemma {:induction false} RenderAppend(keys: seq<string>, k: string, m: map<string, string>)
    requires forall i :: 0 <= i < |keys| ==> keys[i] in m
    requires k in m
    ensures Render(keys + [k], m) == Render(keys, m) + Entry(k, m[k])
  {
    if keys == [] {
      assert [] + [k] == [k];
    } else {
      assert (keys + [k])[1..] == keys[1..] + [k];
      RenderAppend(keys[1..], k, m);
    }
  }

  /** A line without a newline inside, and its newline, is read as one line. */
  lemma {:induction false} LineEndAt(a: string, rest: string)
    requires '\n' !in a
    ensures LineEnd(a + "\n" + rest) == |a| + 1
    decreases |a|
  {
    if a != [] {
      assert (a + "\n" + rest)[1..] == a[1..] + "\n" + rest;
      LineEndAt(a[1..], rest);
    }
  }

  /** A word followed by whitespace (or nothing) is read as one field. */
  lemma {:induction false} WordEndAt(w: string, rest: string)
    requires Word(w)
    requires rest == [] || IsSpace(rest[0])
    ensures WordEnd(w + rest) == |w|
    decreases |w|
  {
    if |w| > 1 {
      assert (w + rest)[1..] == w[1..] + rest;
      WordEndAt(w[1..], rest);
    }
  }

  lemma {:induction false} FieldsOfWord(w: string, rest: string)
    requires Word(w)
    requires rest == [] || IsSpace(rest[0])
    ensures Fields(w + rest) == [w] + Fields(rest)
  {
    WordEndAt(w, rest);
    assert (w + rest)[..|w|] == w;
    assert (w + rest)[|w|..] == rest;
  }

  /** `(k + "\t" + v + "\n").split()` is `[k, v]`. */
  lemma {:induction false} FieldsOfEntry(k: string, v: string)
    requires Word(k) && Word(v)
    ensures Fields(Entry(k, v)) == [k, v]
  {
    var tail := "\t" + v + "\n";
    FieldsOfWord(k, tail);
    assert Entry(k, v) == k + tail;
    assert Fields(tail) == Fields(v + "\n") by { assert tail[1..] == v + "\n"; }
    FieldsOfWord(v, "\n");
    assert Fields("\n") == [] by { assert "\n"[1..] == []; }
  }

  lemma {:induction false} LinesOfEntry(k: string, v: string, rest: string)
    requires Word(k) && Word(v)
    ensures Lines(Entry(k, v) + rest) == [Entry(k, v)] + Lines(rest)
  {
    var a := k + "\t" + v;
    assert '\n' !in a by {
      forall i | 0 <= i < |a| ensures a[i] != '\n' {
        if i < |k| { assert a[i] == k[i]; }
        else if i > |k| { assert a[i] == v[i - |k| - 1]; }
      }
    }
    LineEndAt(a, rest);
    assert Entry(k, v) + rest == a + "\n" + rest;
    var s := Entry(k, v) + rest;
    assert s[..|a| + 1] == Entry(k, v);
    assert s[|a| + 1..] == rest;
  }

  /** The entries of m for the given keys. */
  function Restrict(keys: seq<string>, m: map<string, string>): map<string, string>
    requires forall i :: 0 <= i < |keys| ==> keys[i] in m
  {
    map k | k in keys :: m[k]
  }

  /** The rows read back from the lines written for keys: one pair per key. */
  lemma {:induction false} RowsOfRender(keys: seq<string>, m: map<string, string>)
    requires WellFormed(m)
    requires forall i :: 0 <= i < |keys| ==> keys[i] in m
    ensures Rows(Lines(Render(keys, m))) == seq(|keys|, i requires 0 <= i < |keys| => [keys[i], m[keys[i]]])
    decreases |keys|
  {
    if keys != [] {
      var k0 := keys[0];
      var rest := Render(keys[1..], m);
      LinesOfEntry(k0, m[k0], rest);
      FieldsOfEntry(k0, m[k0]);
      RowsOfRender(keys[1..], m);
      var ls := Lines(Render(keys, m));
      assert ls == [Entry(k0, m[k0])] + Lines(rest);
      assert ls[1..] == Lines(rest);
    }
  }

  /** `dict` of the pairs for keys adds exactly those keys, with m's values. */
  lemma {:induction false} CollectPairs(keys: seq<string>, m: map<string, string>, acc: map<string, string>)
    requires forall i :: 0 <= i < |keys| ==> keys[i] in m
    ensures Collect(seq(|keys|, i requires 0 <= i < |keys| => [keys[i], m[keys[i]]]), acc) ==
      Some(acc + Restrict(keys, m))
    decreases |keys|
  {
    var rows := seq(|keys|, i requires 0 <= i < |keys| => [keys[i], m[keys[i]]]);
    if keys == [] {
      assert acc + Restrict(keys, m) == acc;
    } else {
      var k0 := keys[0];
      var tail := keys[1..];
      assert rows[1..] == seq(|tail|, i requires 0 <= i < |tail| => [tail[i], m[tail[i]]]);
      CollectPairs(tail, m, acc[k0 := m[k0]]);
      RestrictCons(keys, m, acc);
    }
  }

  lemma {:induction false} RestrictCons(keys: seq<string>, m: map<string, string>, acc: map<string, string>)
    requires keys != [] && forall i :: 0 <= i < |keys| ==> keys[i] in m
    ensures acc[keys[0] := m[keys[0]]] + Restrict(keys[1..], m) == acc + Restrict(keys, m)
  {
    var tail := keys[1..];
    forall k | k in tail ensures k in keys { var i :| 0 <= i < |tail| && tail[i] == k; assert keys[i + 1] == k; }
    forall k | k in keys && k != keys[0] ensures k in tail { var i :| 0 <= i < |keys| && keys[i] == k; assert tail[i - 1] == k; }
  }

  /** The ledger round trip: a well-formed ledger written in any order that
      lists all its keys reads back as the same map. */
  lemma {:induction false} ParseRender(keys: seq<string>, m: map<string, string>)
    requires WellFormed(m)
    requires forall k :: k in m <==> k in keys
    ensures Parse(Render(keys, m)) == Some(m)
  {
    RowsOfRender(keys, m);
    CollectPairs(keys, m, map[]);
    assert map[] + Restrict(keys, m) == m;
  }

  /** Writing then reading gives the ledger back, keys in sorted order. */
  lemma {:induction false} PersistRoundTrip(m: map<string, string>, keys: seq<string>, text: string)
    requires WellFormed(m)
    requires Sorted(keys) && (forall k :: k in m <==> k in keys) && text == Render(keys, m)
    ensures Parse(text) == Some(m)
    ensures forall other :: Sorted(other) && (forall k :: k in m <==> k in other) ==> other == keys
  {
    ParseRender(keys, m);
    forall other | Sorted(other) && (forall k :: k in m <==> k in other) ensures other == keys {
      SortedIsUnique(other, keys);
    }
  }

  // ----- what reading produces -----

  lemma {:induction false} WordEndIsWord(s: string)
    requires s != [] && !IsSpace(s[0])
    ensures Word(s[..WordEnd(s)])
    decreases |s|
  {
    if !(|s| == 1 || IsSpace(s[1])) {
      WordEndIsWord(s[1..]);
      assert s[..WordEnd(s)] == [s[0]] + s[1..][..WordEnd(s[1..])];
    }
  }

  lemma {:induction false} RowsAreWords(lines: seq<string>)
    ensures forall r, i :: r in Rows(lines) && 0 <= i < |r| ==> Word(r[i])
  {
    if lines != [] {
      RowsAreWords(lines[1..]);
    }
  }

  lemma {:induction false} CollectWellFormed(rows: seq<seq<string>>, acc: map<string, string>)
    requires WellFormed(acc)
    requires forall r, i :: r in rows && 0 <= i < |r| ==> Word(r[i])
    ensures Collect(rows, acc).Some? ==> WellFormed(Collect(rows, acc).value)
  {
    if rows != [] && |rows[0]| == 2 {
      assert rows[0] in rows;
      assert Word(rows[0][0]) && Word(rows[0][1]);
      forall r, i | r in rows[1..] && 0 <= i < |r| ensures Word(r[i]) { assert r in rows; }
      CollectWellFormed(rows[1..], acc[rows[0][0] := rows[0][1]]);
    }
  }
}
