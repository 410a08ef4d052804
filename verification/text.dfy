/** Character-level helpers: C whitespace, trimming, occurrence counting and C-string truncation. */
module Text {

  /** The characters C's `isspace` accepts in the "C" locale: space, \t, \n, \v, \f, \r. */
  predicate IsWhitespace(c: char) {
    c == ' ' || (9 <= c as int <= 13)
  }

  /** A string with no whitespace at either end. */
  predicate Trimmed(s: string) {
    s == [] || (!IsWhitespace(s[0]) && !IsWhitespace(s[|s| - 1]))
  }

  /** Drops leading whitespace. */
  function TrimStart(s: string): (r: string)
    ensures |r| <= |s| && r == s[|s| - |r|..]
    ensures forall k :: 0 <= k < |s| - |r| ==> IsWhitespace(s[k])
    ensures r == [] || !IsWhitespace(r[0])
    decreases |s|
  {
    if |s| > 0 && IsWhitespace(s[0]) then TrimStart(s[1..]) else s
  }

  /** Drops trailing whitespace. */
  function TrimEnd(s: string): (r: string)
    ensures |r| <= |s| && r == s[..|r|]
    ensures forall k :: |r| <= k < |s| ==> IsWhitespace(s[k])
    ensures r == [] || !IsWhitespace(r[|r| - 1])
    decreases |s|
  {
    if |s| > 0 && IsWhitespace(s[|s| - 1]) then TrimEnd(s[..|s| - 1]) else s
  }

  /** The trimming applied to every CSV field (utils.cpp's `trim_copy`, assumed to strip
      `isspace` characters at both ends): a slice of the input with nothing but whitespace outside
      it and no whitespace at its ends. These facts pin `r` down uniquely. */
  function Trim(s: string): (r: string)
    ensures Trimmed(r)
    ensures |r| <= |s|
    ensures exists i :: TrimmedAt(s, r, i)
  {
    var t := TrimStart(s);
    var r := TrimEnd(t);
    TrimmedSlice(s, t, r);
    r
  }

  /** Cutting leading whitespace and then trailing whitespace leaves a slice of the original
      with whitespace all around it. */
  lemma TrimmedSlice(s: string, t: string, r: string)
    requires |t| <= |s| && t == s[|s| - |t|..] && forall k :: 0 <= k < |s| - |t| ==> IsWhitespace(s[k])
    requires t == [] || !IsWhitespace(t[0])
    requires |r| <= |t| && r == t[..|r|] && forall k :: |r| <= k < |t| ==> IsWhitespace(t[k])
    requires r == [] || !IsWhitespace(r[|r| - 1])
    ensures Trimmed(r) && TrimmedAt(s, r, |s| - |t|)
  {
    var i := |s| - |t|;
    assert r == s[i..i + |r|];
    forall k | i + |r| <= k < |s| ensures IsWhitespace(s[k]) {
      assert s[k] == t[k - i];
    }
  }

  /** `r` is the slice of `s` starting at index `i`, and everything of `s` outside that slice
      is whitespace. */
  predicate TrimmedAt(s: string, r: string, i: int) {
    0 <= i <= |s| - |r| && r == s[i..i + |r|]
    && (forall k :: 0 <= k < i ==> IsWhitespace(s[k]))
    && (forall k :: i + |r| <= k < |s| ==> IsWhitespace(s[k]))
  }

  /** Trimming is the only way to cut a whitespace-free-ended slice out of `s` with nothing but
      whitespace around it. */
  lemma TrimUnique(s: string, r: string, i: int)
    requires Trimmed(r) && TrimmedAt(s, r, i)
    ensures r == Trim(s)
  {
    var t := Trim(s);
    var j :| TrimmedAt(s, t, j);
    SameTrimmedSlice(s, r, i, t, j);
  }

  /** Two slices of `s` with whitespace all around them and none at their ends are equal. */
  lemma SameTrimmedSlice(s: string, r: string, i: int, t: string, j: int)
    requires Trimmed(r) && TrimmedAt(s, r, i)
    requires Trimmed(t) && TrimmedAt(s, t, j)
    ensures r == t
  {
    if r != [] {
      assert s[i] == r[0] && s[i + |r| - 1] == r[|r| - 1];
    }
    if t != [] {
      assert s[j] == t[0] && s[j + |t| - 1] == t[|t| - 1];
    }
    if r != [] && t != [] {
      assert i == j;
      assert |r| == |t|;
    }
  }

  /** Number of occurrences of `c` in `s`. */
  function Occurrences(s: string, c: char): nat
    decreases |s|
  {
    if s == [] then 0 else (if s[0] == c then 1 else 0) + Occurrences(s[1..], c)
  }

  lemma {:induction false} OccurrencesAppend(a: string, b: string, c: char)
    ensures Occurrences(a + b, c) == Occurrences(a, c) + Occurrences(b, c)
    decreases |a|
  {
    if a == [] {
      assert a + b == b;
    } else {
      assert (a + b)[1..] == a[1..] + b;
      OccurrencesAppend(a[1..], b, c);
    }
  }

  lemma {:induction false} OccurrencesAbsent(s: string, c: char)
    requires c !in s
    ensures Occurrences(s, c) == 0
    decreases |s|
  {
    if s != [] {
      assert c !in s[1..] by {
        forall k | 0 <= k < |s[1..]| ensures s[1..][k] != c {
          assert s[1..][k] == s[k + 1];
        }
      }
      OccurrencesAbsent(s[1..], c);
    }
  }

  /** Trimming only removes characters, so it never adds an occurrence, and it only removes
      whitespace, so a character that is not whitespace keeps every occurrence. */
  lemma TrimOccurrences(s: string, c: char)
    ensures Occurrences(Trim(s), c) <= Occurrences(s, c)
    ensures !IsWhitespace(c) ==> Occurrences(Trim(s), c) == Occurrences(s, c)
  {
    TrimStartOccurrences(s, c);
    TrimEndOccurrences(TrimStart(s), c);
    if !IsWhitespace(c) {
      var r := Trim(s);
      var i :| TrimmedAt(s, r, i);
      TrimKeepsOccurrences(s, r, i, c);
    }
  }

  /** Cutting a slice out of whitespace keeps every non-whitespace character. */
  lemma TrimKeepsOccurrences(s: string, r: string, i: int, c: char)
    requires TrimmedAt(s, r, i) && !IsWhitespace(c)
    ensures Occurrences(r, c) == Occurrences(s, c)
  {
    var before := s[..i];
    var after := s[i + |r|..];
    assert s == before + r + after;
    OccurrencesAppend(before + r, after, c);
    OccurrencesAppend(before, r, c);
    assert c !in before by {
      forall k | 0 <= k < |before| ensures before[k] != c {
        assert IsWhitespace(s[k]);
      }
    }
    assert c !in after by {
      forall k | 0 <= k < |after| ensures after[k] != c {
        assert IsWhitespace(s[i + |r| + k]);
      }
    }
    OccurrencesAbsent(before, c);
    OccurrencesAbsent(after, c);
  }

  lemma TrimStartOccurrences(s: string, c: char)
    ensures Occurrences(TrimStart(s), c) <= Occurrences(s, c)
  {
    var t := TrimStart(s);
    var dropped := s[..|s| - |t|];
    assert s == dropped + t;
    OccurrencesAppend(dropped, t, c);
  }

  lemma TrimEndOccurrences(s: string, c: char)
    ensures Occurrences(TrimEnd(s), c) <= Occurrences(s, c)
  {
    var u := TrimEnd(s);
    var tail := s[|u|..];
    assert s == u + tail;
    OccurrencesAppend(u, tail, c);
  }

  /** A string of whitespace trims to nothing. */
  lemma TrimBlank(s: string)
    requires forall k :: 0 <= k < |s| ==> IsWhitespace(s[k])
    ensures Trim(s) == []
  {
    var r := Trim(s);
    var i :| TrimmedAt(s, r, i);
  }

  /** A string with nothing to trim is its own trimming. */
  lemma TrimOfTrimmed(s: string)
    requires Trimmed(s)
    ensures Trim(s) == s
  {
  }

  /** The text a C `char *` designates: everything before the first NUL. */
  function CText(s: string): (r: string)
    ensures |r| <= |s| && r == s[..|r|]
    ensures '\0' !in r
    ensures |r| < |s| ==> s[|r|] == '\0'
    decreases |s|
  {
    if s == [] || s[0] == '\0' then [] else [s[0]] + CText(s[1..])
  }

  lemma CTextOfNulFree(s: string)
    requires '\0' !in s
    ensures CText(s) == s
  {
  }
}
