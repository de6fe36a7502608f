/** The last step of a conversion (`convert`, schema_converter.py line 270): the
    rendered document is encoded to ASCII with errors ignored and decoded again,
    which drops every character above code point 127 and keeps the rest in order. */
module Ascii {

  predicate IsAsciiChar(c: char) {
    c as int <= 127
  }

  predicate IsAscii(s: string) {
    forall i :: 0 <= i < |s| ==> IsAsciiChar(s[i])
  }

  /** The number of characters of `s` above code point 127. */
  function NonAsciiCount(s: string): nat {
    if s == [] then 0 else (if IsAsciiChar(s[0]) then 0 else 1) + NonAsciiCount(s[1..])
  }

  /** `s.encode("ascii", "ignore").decode("ascii")` */
  function FilterAscii(s: string): (r: string)
    ensures IsAscii(r)
    ensures |r| == |s| - NonAsciiCount(s)
  {
    if s == [] then []
    else (if IsAsciiChar(s[0]) then [s[0]] else []) + FilterAscii(s[1..])
  }

  lemma AsciiAppend(a: string, b: string)
    requires IsAscii(a) && IsAscii(b)
    ensures IsAscii(a + b)
  {
    forall i | 0 <= i < |a + b| ensures IsAsciiChar((a + b)[i]) {
      if i < |a| { assert (a + b)[i] == a[i]; } else { assert (a + b)[i] == b[i - |a|]; }
    }
  }

  /** Filtering a concatenation filters each part: the filter works character by character. */
  lemma {:induction false} FilterAsciiAppend(a: string, b: string)
    ensures FilterAscii(a + b) == FilterAscii(a) + FilterAscii(b)
  {
    if a == [] {
      assert a + b == b;
    } else {
      assert (a + b)[0] == a[0];
      assert (a + b)[1..] == a[1..] + b;
      FilterAsciiAppend(a[1..], b);
    }
  }

  /** The filter changes a text exactly when the text holds a character above 127. */
  lemma {:induction false} FilterAsciiIdentity(s: string)
    ensures FilterAscii(s) == s <==> IsAscii(s)
  {
    if s != [] {
      FilterAsciiIdentity(s[1..]);
      if IsAscii(s) {
        assert IsAscii(s[1..]) by {
          forall i | 0 <= i < |s[1..]| ensures IsAsciiChar(s[1..][i]) { assert s[1..][i] == s[i + 1]; }
        }
        assert FilterAscii(s) == [s[0]] + s[1..];
      }
    }
  }

  /** Filtering twice is filtering once. */
  lemma FilterAsciiIdempotent(s: string)
    ensures FilterAscii(FilterAscii(s)) == FilterAscii(s)
  {
    FilterAsciiIdentity(FilterAscii(s));
  }

  /** A character survives the filter exactly when it occurs in the input and is ASCII. */
  lemma {:induction false} FilterAsciiMembers(s: string, c: char)
    ensures c in FilterAscii(s) <==> c in s && IsAsciiChar(c)
  {
    if s != [] {
      FilterAsciiMembers(s[1..], c);
      assert s == [s[0]] + s[1..];
      assert c in s <==> c == s[0] || c in s[1..];
    }
  }
}
