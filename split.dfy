/** Python's `str.split(sep)` on a one-character separator, and the list of tests
    that `get_table_dict` takes from a row's `Tests` cell (schema_converter.py
    lines 228-230): the cell split on `|`, empty segments skipped. */
module Split {

  const TestSeparator: char := '|'

  /** `s.split(sep)`: never empty; `"".split(sep) == [""]`. */
  function SplitOn(s: string, sep: char): (parts: seq<string>)
    ensures |parts| >= 1
    ensures forall i :: 0 <= i < |parts| ==> sep !in parts[i]
  {
    if s == [] then [""]
    else
      var rest := SplitOn(s[1..], sep);
      if s[0] == sep then [""] + rest else [[s[0]] + rest[0]] + rest[1..]
  }

  /** `sep.join(parts)` */
  function JoinOn(parts: seq<string>, sep: char): string {
    if parts == [] then ""
    else if |parts| == 1 then parts[0]
    else parts[0] + [sep] + JoinOn(parts[1..], sep)
  }

  /** The number of occurrences of `c` in `s`. */
  function Occurrences(s: string, c: char): nat {
    if s == [] then 0 else (if s[0] == c then 1 else 0) + Occurrences(s[1..], c)
  }

  /** `s` with every `c` removed. */
  function Without(s: string, c: char): string {
    if s == [] then "" else (if s[0] == c then "" else [s[0]]) + Without(s[1..], c)
  }

  /** The concatenation of `parts`. */
  function Concat(parts: seq<string>): string {
    if parts == [] then "" else parts[0] + Concat(parts[1..])
  }

  /** The non-empty elements of `parts`, in order, duplicates kept. */
  function NonEmpty(parts: seq<string>): (r: seq<string>)
    ensures |r| <= |parts|
    ensures forall i :: 0 <= i < |r| ==> r[i] != "" && r[i] in parts
  {
    if parts == [] then []
    else (if parts[0] != "" then [parts[0]] else []) + NonEmpty(parts[1..])
  }

  /** The tests of one `Tests` cell. */
  function TestsOf(field: string): seq<string> {
    NonEmpty(SplitOn(field, TestSeparator))
  }

  /** Joining the pieces with the separator gives back the input. */
  lemma {:induction false} JoinSplit(s: string, sep: char)
    ensures JoinOn(SplitOn(s, sep), sep) == s
  {
    if s != [] {
      var rest := SplitOn(s[1..], sep);
      JoinSplit(s[1..], sep);
      if s[0] == sep {
        assert SplitOn(s, sep) == [""] + rest;
        assert JoinOn([""] + rest, sep) == "" + [sep] + JoinOn(rest, sep) by {
          assert ([""] + rest)[1..] == rest;
        }
        assert s == [s[0]] + s[1..];
      } else {
        var parts := [[s[0]] + rest[0]] + rest[1..];
        assert parts[1..] == rest[1..];
        if |rest| == 1 {
          assert JoinOn(rest, sep) == rest[0];
        } else {
          assert JoinOn(rest, sep) == rest[0] + [sep] + JoinOn(rest[1..], sep);
        }
        assert s == [s[0]] + s[1..];
      }
    }
  }

  /** Splitting a separator-free list of pieces joined by the separator gives
      back the pieces: together with JoinSplit, split and join are inverses. */
  lemma {:induction false} SplitJoin(parts: seq<string>, sep: char)
    requires |parts| >= 1
    requires forall i :: 0 <= i < |parts| ==> sep !in parts[i]
    ensures SplitOn(JoinOn(parts, sep), sep) == parts
  {
    if |parts| == 1 {
      SplitNoSeparator(parts[0], sep);
    } else {
      SplitJoin(parts[1..], sep);
      var tail := [sep] + JoinOn(parts[1..], sep);
      assert JoinOn(parts, sep) == parts[0] + tail;
      SplitPrefix(parts[0], tail, sep);
      assert tail[0] == sep && tail[1..] == JoinOn(parts[1..], sep);
      assert SplitOn(tail, sep) == [""] + parts[1..];
      assert ([""] + parts[1..])[1..] == parts[1..];
      assert ([""] + parts[1..])[0] == "";
      assert parts[0] + "" == parts[0];
      assert parts == [parts[0]] + parts[1..];
    }
  }

  /** A piece with no separator splits into itself. */
  lemma {:induction false} SplitNoSeparator(p: string, sep: char)
    requires sep !in p
    ensures SplitOn(p, sep) == [p]
  {
    if p != [] {
      assert sep !in p[1..] by { assert forall c :: c in p[1..] ==> c in p; }
      SplitNoSeparator(p[1..], sep);
      assert p == [p[0]] + p[1..];
    }
  }

  /** A separator-free prefix glues onto the first piece of what follows it. */
  lemma {:induction false} SplitPrefix(p: string, t: string, sep: char)
    requires sep !in p
    ensures SplitOn(p + t, sep) == [p + SplitOn(t, sep)[0]] + SplitOn(t, sep)[1..]
  {
    var x := SplitOn(t, sep);
    if p != [] {
      assert sep !in p[1..] by { assert forall c :: c in p[1..] ==> c in p; }
      SplitPrefix(p[1..], t, sep);
      var r := SplitOn(p[1..] + t, sep);
      assert r[0] == p[1..] + x[0] && r[1..] == x[1..];
      assert p + t == [p[0]] + (p[1..] + t);
      SplitCons(p[0], p[1..] + t, sep);
      assert [p[0]] + (p[1..] + x[0]) == p + x[0];
    } else {
      assert p + t == t;
      assert p + x[0] == x[0];
      assert x == [x[0]] + x[1..];
    }
  }

  /** A character other than the separator joins the first piece. */
  lemma SplitCons(c: char, s: string, sep: char)
    requires c != sep
    ensures SplitOn([c] + s, sep) == [[c] + SplitOn(s, sep)[0]] + SplitOn(s, sep)[1..]
  {
    assert ([c] + s)[0] == c && ([c] + s)[1..] == s;
  }

  /** `s.split(sep)` has one more piece than `s` has separators. */
  lemma {:induction false} SplitCount(s: string, sep: char)
    ensures |SplitOn(s, sep)| == Occurrences(s, sep) + 1
  {
    if s != [] {
      SplitCount(s[1..], sep);
    }
  }

  /** Dropping empty pieces commutes with concatenation. */
  lemma {:induction false} NonEmptyAppend(a: seq<string>, b: seq<string>)
    ensures NonEmpty(a + b) == NonEmpty(a) + NonEmpty(b)
  {
    if a == [] {
      assert a + b == b;
    } else {
      assert (a + b)[0] == a[0] && (a + b)[1..] == a[1..] + b;
      NonEmptyAppend(a[1..], b);
    }
  }

  /** Every character of every piece comes from the input. */
  lemma {:induction false} SplitChars(s: string, sep: char)
    ensures forall i, c :: 0 <= i < |SplitOn(s, sep)| && c in SplitOn(s, sep)[i] ==> c in s
  {
    if s != [] {
      SplitChars(s[1..], sep);
      var rest := SplitOn(s[1..], sep);
      assert forall c :: c in s[1..] ==> c in s;
      if s[0] != sep {
        assert forall c :: c in [s[0]] + rest[0] ==> c == s[0] || c in rest[0];
      }
    }
  }

  /** The concatenated tests are the cell with its separators removed. */
  lemma {:induction false} ConcatTests(field: string)
    ensures Concat(TestsOf(field)) == Without(field, TestSeparator)
  {
    if field == [] {
    } else {
      var rest := SplitOn(field[1..], TestSeparator);
      ConcatTests(field[1..]);
      if field[0] == TestSeparator {
        assert SplitOn(field, TestSeparator) == [""] + rest;
        NonEmptyAppend([""], rest);
        assert NonEmpty([""]) == [];
        assert TestsOf(field) == TestsOf(field[1..]);
      } else {
        var parts := [[field[0]] + rest[0]] + rest[1..];
        assert parts == SplitOn(field, TestSeparator);
        NonEmptyAppend([parts[0]], rest[1..]);
        NonEmptyAppend([rest[0]], rest[1..]);
        assert rest == [rest[0]] + rest[1..];
        assert TestsOf(field) == [parts[0]] + NonEmpty(rest[1..]);
        if rest[0] == "" {
          assert NonEmpty(rest) == NonEmpty(rest[1..]);
        } else {
          assert NonEmpty(rest) == [rest[0]] + NonEmpty(rest[1..]);
        }
        assert Concat([parts[0]] + NonEmpty(rest[1..])) == parts[0] + Concat(NonEmpty(rest[1..]));
        if rest[0] != "" {
          assert Concat([rest[0]] + NonEmpty(rest[1..])) == rest[0] + Concat(NonEmpty(rest[1..]));
        }
      }
    }
  }

  /** A list of non-empty, separator-free tests written as one cell reads back as itself. */
  lemma TestsOfJoin(tests: seq<string>)
    requires forall i :: 0 <= i < |tests| ==> tests[i] != "" && TestSeparator !in tests[i]
    ensures TestsOf(JoinOn(tests, TestSeparator)) == tests
  {
    if tests == [] {
      assert TestsOf("") == [];
    } else {
      SplitJoin(tests, TestSeparator);
      NonEmptyAll(tests);
    }
  }

  lemma {:induction false} NonEmptyAll(parts: seq<string>)
    requires forall i :: 0 <= i < |parts| ==> parts[i] != ""
    ensures NonEmpty(parts) == parts
  {
    if parts != [] {
      NonEmptyAll(parts[1..]);
    }
  }

  /** An empty cell, or one made only of separators, yields no tests. */
  lemma {:induction false} NoTestsOnlySeparators(field: string)
    requires forall i :: 0 <= i < |field| ==> field[i] == TestSeparator
    ensures TestsOf(field) == []
  {
    if field != [] {
      NoTestsOnlySeparators(field[1..]);
      assert SplitOn(field, TestSeparator) == [""] + SplitOn(field[1..], TestSeparator);
      NonEmptyAppend([""], SplitOn(field[1..], TestSeparator));
    }
  }
}
