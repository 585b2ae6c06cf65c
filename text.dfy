/**
 * The parts of Python's `str` that the catalog generator relies on:
 * `lower()`, the `in` substring test, `replace`, `strip()` and `strip(chars)`.
 */
module Text {

  /**
   * Python's `str.isspace()` for one character: the ASCII controls tab to
   * carriage return, the separators U+001C to U+001F, space, U+0085, U+00A0,
   * U+1680, U+2000 to U+200A, U+2028, U+2029, U+202F, U+205F and U+3000.
   */
  predicate IsSpace(c: char)
  {
    || '\t' <= c <= '\r' || '\U{1C}' <= c <= ' ' || c == '\U{85}' || c == '\U{A0}' || c == '\U{1680}'
    || '\U{2000}' <= c <= '\U{200A}' || c == '\U{2028}' || c == '\U{2029}' || c == '\U{202F}'
    || c == '\U{205F}' || c == '\U{3000}'
  }

  /** The characters `str.strip()` removes when called without arguments. */
  const PythonWhitespace: set<char> := set c: char | IsSpace(c)

  /** Lower-cases one ASCII letter and leaves every other character alone. */
  function LowerChar(c: char): char
  {
    if 'A' <= c <= 'Z' then (c as int + 32) as char else c
  }

  /** `s.lower()`, restricted to ASCII letters. */
  function Lower(s: string): string
  {
    seq(|s|, i requires 0 <= i < |s| => LowerChar(s[i]))
  }

  /** Python's `p in s` for strings: `p` occurs in `s` as a contiguous substring. */
  predicate Contains(s: string, p: string)
  {
    exists i :: 0 <= i <= |s| - |p| && OccursAt(s, p, i)
  }

  /** `p` occurs in `s` starting at index `i`. */
  predicate OccursAt(s: string, p: string, i: int)
  {
    0 <= i <= |s| - |p| && s[i..i + |p|] == p
  }

  /** `s.replace(c, "")` for a one-character `c`. */
  function RemoveAll(s: string, c: char): string
  {
    if s == [] then []
    else (if s[0] == c then [] else [s[0]]) + RemoveAll(s[1..], c)
  }

  /** `s.replace(from, to)` for one-character `from` and `to`. */
  function ReplaceChar(s: string, from: char, to: char): string
  {
    seq(|s|, i requires 0 <= i < |s| => if s[i] == from then to else s[i])
  }

  /** Every character of `s` belongs to `cs`. */
  predicate AllIn(s: string, cs: set<char>)
  {
    s == [] || (s[0] in cs && AllIn(s[1..], cs))
  }

  /** `AllIn`, character by character. */
  lemma {:induction false} AllInMeans(s: string, cs: set<char>)
    ensures AllIn(s, cs) <==> forall i :: 0 <= i < |s| ==> s[i] in cs
  {
    if s != [] {
      AllInMeans(s[1..], cs);
      assert forall i :: 1 <= i < |s| ==> s[i] == s[1..][i - 1];
    }
  }

  /** Each character of a string within `cs` is in `cs`. */
  lemma {:induction false} AllInIndex(s: string, cs: set<char>, k: int)
    requires AllIn(s, cs) && 0 <= k < |s|
    ensures s[k] in cs
  {
    if k > 0 {
      AllInIndex(s[1..], cs, k - 1);
    }
  }

  /** A concatenation lies within `cs` exactly when both parts do. */
  lemma {:induction false} AllInAppend(a: string, b: string, cs: set<char>)
    ensures AllIn(a + b, cs) <==> AllIn(a, cs) && AllIn(b, cs)
  {
    if a == [] {
      assert a + b == b;
    } else {
      assert (a + b)[1..] == a[1..] + b;
      AllInAppend(a[1..], b, cs);
    }
  }

  /** A string is within `cs` when the parts before and after any split point are. */
  lemma {:induction false} AllInJoin(s: string, k: int, cs: set<char>)
    requires 0 <= k <= |s| && AllIn(s[..k], cs) && AllIn(s[k..], cs)
    ensures AllIn(s, cs)
  {
    if k == 0 {
      assert s[k..] == s;
    } else {
      assert s[..k][0] == s[0];
      assert s[..k][1..] == s[1..][..k - 1];
      assert s[1..][k - 1..] == s[k..];
      AllInJoin(s[1..], k - 1, cs);
    }
  }

  /** Number of leading characters of `s` that belong to `cs`. */
  function LeadingRun(s: string, cs: set<char>): (n: nat)
    ensures n <= |s|
    ensures n < |s| ==> s[n] !in cs
  {
    if s == [] || s[0] !in cs then 0 else 1 + LeadingRun(s[1..], cs)
  }

  /** The characters `LeadingRun` counts all belong to `cs`. */
  lemma {:induction false} LeadingRunAllIn(s: string, cs: set<char>)
    ensures AllIn(s[..LeadingRun(s, cs)], cs)
  {
    if s != [] && s[0] in cs {
      LeadingRunAllIn(s[1..], cs);
      assert s[..LeadingRun(s, cs)][1..] == s[1..][..LeadingRun(s[1..], cs)];
    }
  }

  /** Number of trailing characters of `s` that belong to `cs`. */
  function TrailingRun(s: string, cs: set<char>): (n: nat)
    ensures n <= |s|
    ensures n < |s| ==> s[|s| - 1 - n] !in cs
  {
    if s == [] || s[|s| - 1] !in cs then 0 else 1 + TrailingRun(s[..|s| - 1], cs)
  }

  /** The characters `TrailingRun` counts all belong to `cs`. */
  lemma {:induction false} TrailingRunAllIn(s: string, cs: set<char>)
    ensures AllIn(s[|s| - TrailingRun(s, cs)..], cs)
  {
    var n := TrailingRun(s, cs);
    if s != [] && s[|s| - 1] in cs {
      var q := s[..|s| - 1];
      var m := TrailingRun(q, cs);
      var u := s[|s| - n..];
      assert n == m + 1 && |q| - m == |s| - n;
      assert AllIn(u[..m], cs) by {
        TrailingRunAllIn(q, cs);
        assert u[..m] == s[|s| - n..|s| - 1] == q[|q| - m..];
      }
      assert AllIn(u[m..], cs) by {
        assert u[m..] == [s[|s| - 1]];
      }
      AllInJoin(u, m, cs);
    }
  }

  /**
   * `s.strip(chars)`: the slice of `s` left after removing every character of
   * `cs` from both ends. Python's argument-less `s.strip()` is `Strip(s, PythonWhitespace)`.
   */
  function Strip(s: string, cs: set<char>): string
  {
    var t := s[LeadingRun(s, cs)..];
    t[..|t| - TrailingRun(t, cs)]
  }

  /** `s` is `r` with characters of `cs` around it, `r` starting at index `lo`. */
  predicate Padded(s: string, r: string, lo: int, cs: set<char>)
  {
    && 0 <= lo <= |s| - |r|
    && s[lo..lo + |r|] == r
    && AllIn(s[..lo], cs)
    && AllIn(s[lo + |r|..], cs)
  }

  /**
   * What `Strip` leaves: a slice of `s` with no character of `cs` at either
   * end, and only characters of `cs` cut away before and after it.
   */
  lemma StripShape(s: string, cs: set<char>)
    ensures var r := Strip(s, cs);
      && (r == [] || (r[0] !in cs && r[|r| - 1] !in cs))
      && Padded(s, r, LeadingRun(s, cs), cs)
  {
    StripEnds(s, cs);
    StripPadded(s, cs);
  }

  /** The first and last characters `Strip` keeps are not in `cs`. */
  lemma StripEnds(s: string, cs: set<char>)
    ensures var r := Strip(s, cs); r == [] || (r[0] !in cs && r[|r| - 1] !in cs)
  {
    var lo := LeadingRun(s, cs);
    var t := s[lo..];
    var n := TrailingRun(t, cs);
    assert Strip(s, cs) == t[..|t| - n];
    if n < |t| {
      assert t[..|t| - n][0] == s[lo];
      assert t[..|t| - n][|t| - n - 1] == t[|t| - 1 - n];
    }
  }

  /** `Strip` cuts away only characters of `cs`, before and after the slice it keeps. */
  lemma StripPadded(s: string, cs: set<char>)
    ensures Padded(s, Strip(s, cs), LeadingRun(s, cs), cs)
  {
    StripIsSlice(s, cs);
    LeadingRunAllIn(s, cs);
    StripTail(s, cs);
  }

  /** `Strip` keeps the slice of `s` between the leading and the trailing run. */
  lemma StripIsSlice(s: string, cs: set<char>)
    ensures LeadingRun(s, cs) + |Strip(s, cs)| <= |s|
    ensures |Strip(s, cs)| == |s| - LeadingRun(s, cs) - TrailingRun(s[LeadingRun(s, cs)..], cs)
    ensures s[LeadingRun(s, cs)..LeadingRun(s, cs) + |Strip(s, cs)|] == Strip(s, cs)
  {
    var lo := LeadingRun(s, cs);
    var t := s[lo..];
    var hi := |t| - TrailingRun(t, cs);
    assert Strip(s, cs) == t[..hi];
    assert s[lo..lo + hi] == t[..hi];
  }

  /** What `Strip` cuts from the end of `s` all belongs to `cs`. */
  lemma StripTail(s: string, cs: set<char>)
    ensures LeadingRun(s, cs) + |Strip(s, cs)| <= |s|
    ensures AllIn(s[LeadingRun(s, cs) + |Strip(s, cs)|..], cs)
  {
    var lo := LeadingRun(s, cs);
    var t := s[lo..];
    var k := |t| - TrailingRun(t, cs);
    assert lo + |Strip(s, cs)| == lo + k by { StripIsSlice(s, cs); }
    assert AllIn(t[k..], cs) by { TrailingRunAllIn(t, cs); }
    assert t[k..] == s[lo + k..] by { DropOfDrop(s, lo, k); }
  }

  /** Dropping `lo` and then `k` elements drops `lo + k`. */
  lemma DropOfDrop(s: string, lo: nat, k: nat)
    requires lo + k <= |s|
    ensures s[lo..][k..] == s[lo + k..]
  {
  }

  /** Removing every `c` leaves no `c` and only characters that were there. */
  lemma {:induction false} RemoveAllChars(s: string, c: char)
    ensures c !in RemoveAll(s, c)
    ensures forall x :: x in RemoveAll(s, c) ==> x in s
  {
    if s != [] {
      RemoveAllChars(s[1..], c);
    }
  }

  /** Stripping keeps every character that is not stripped, and adds none. */
  lemma StripChars(s: string, cs: set<char>)
    ensures forall x :: x in Strip(s, cs) ==> x in s
    ensures forall x :: x in s && x !in cs ==> x in Strip(s, cs)
  {
    StripPadded(s, cs);
    var r, lo := Strip(s, cs), LeadingRun(s, cs);
    forall x | x in r ensures x in s {
      var k :| 0 <= k < |r| && r[k] == x;
      assert s[lo + k] == x;
    }
    AllInMeans(s[..lo], cs);
    AllInMeans(s[lo + |r|..], cs);
    forall k | 0 <= k < lo ensures s[k] in cs {
      assert s[k] == s[..lo][k];
    }
    forall k | lo + |r| <= k < |s| ensures s[k] in cs {
      assert s[k] == s[lo + |r|..][k - lo - |r|];
    }
    forall x | x in s && x !in cs ensures x in r {
      var j :| 0 <= j < |s| && s[j] == x;
      assert r[j - lo] == x;
    }
  }

  /** No character of `cs` is an upper-case ASCII letter. */
  predicate NoUpper(cs: set<char>)
  {
    forall c :: c in cs ==> !('A' <= c <= 'Z')
  }

  /** Lower-casing leaves a string of characters that are not upper-case letters unchanged. */
  lemma LowerUnchanged(s: string, cs: set<char>)
    requires AllIn(s, cs) && NoUpper(cs)
    ensures Lower(s) == s
  {
    AllInMeans(s, cs);
  }

  /** Removing a character keeps a string within any set of characters it was in. */
  lemma {:induction false} RemoveAllKeepsAllIn(s: string, c: char, cs: set<char>)
    requires AllIn(s, cs)
    ensures AllIn(RemoveAll(s, c), cs)
  {
    if s != [] {
      RemoveAllKeepsAllIn(s[1..], c, cs);
      AllInAppend(if s[0] == c then [] else [s[0]], RemoveAll(s[1..], c), cs);
    }
  }

  /** Whitespace is not an ASCII letter, a dot or a backtick. */
  lemma WhitespaceIsNotText()
    ensures NoUpper(PythonWhitespace)
    ensures forall c :: 'a' <= c <= 'z' ==> c !in PythonWhitespace
    ensures '.' !in PythonWhitespace && '`' !in PythonWhitespace
  {
  }

  /** A string with no character of `cs` at either end is its own strip. */
  lemma StripClean(s: string, cs: set<char>)
    requires s == [] || (s[0] !in cs && s[|s| - 1] !in cs)
    ensures Strip(s, cs) == s
  {
  }

  /** A slice of a slice is a slice of the whole. */
  lemma SliceOfSlice(s: string, lo: int, hi: int, i: int, j: int)
    requires 0 <= lo <= hi <= |s| && 0 <= i <= j <= hi - lo
    ensures s[lo..hi][i..j] == s[lo + i..lo + j]
  {
    assert forall k :: 0 <= k < j - i ==> s[lo..hi][i..j][k] == s[lo + i + k];
  }

  /**
   * Padding made only of characters of `cs` can neither create nor hide an
   * occurrence of a non-empty pattern that has no character of `cs`: when
   * `s[..lo]` and `s[hi..]` are made of `cs`, `s` contains the pattern exactly
   * when `s[lo..hi]` does.
   */
  lemma ContainsIgnoresPadding(s: string, lo: int, hi: int, p: string, cs: set<char>)
    requires 0 <= lo <= hi <= |s|
    requires AllIn(s[..lo], cs) && AllIn(s[hi..], cs)
    requires p != [] && forall i :: 0 <= i < |p| ==> p[i] !in cs
    ensures Contains(s, p) <==> Contains(s[lo..hi], p)
  {
    SliceKeepsContains(s, lo, hi, p);
    PaddingAddsNoOccurrence(s, lo, hi, p, cs);
  }

  /** An occurrence in a slice is an occurrence in the whole. */
  lemma SliceKeepsContains(s: string, lo: int, hi: int, p: string)
    requires 0 <= lo <= hi <= |s|
    ensures Contains(s[lo..hi], p) ==> Contains(s, p)
  {
    if Contains(s[lo..hi], p) {
      var i :| 0 <= i <= hi - lo - |p| && OccursAt(s[lo..hi], p, i);
      SliceOfSlice(s, lo, hi, i, i + |p|);
      assert OccursAt(s, p, lo + i);
    }
  }

  /** Padding made of `cs` around `s[lo..hi]` holds no occurrence of its own. */
  lemma PaddingAddsNoOccurrence(s: string, lo: int, hi: int, p: string, cs: set<char>)
    requires 0 <= lo <= hi <= |s|
    requires AllIn(s[..lo], cs) && AllIn(s[hi..], cs)
    requires p != [] && p[0] !in cs && p[|p| - 1] !in cs
    ensures Contains(s, p) ==> Contains(s[lo..hi], p)
  {
    if Contains(s, p) {
      var i :| 0 <= i <= |s| - |p| && OccursAt(s, p, i);
      OccurrenceStartsAfter(s, lo, p, cs, i);
      OccurrenceEndsBefore(s, hi, p, cs, i);
      SliceOfSlice(s, lo, hi, i - lo, i - lo + |p|);
      assert OccursAt(s[lo..hi], p, i - lo);
    }
  }

  /** An occurrence of a pattern that does not start with a character of `cs` starts after a prefix made of `cs`. */
  lemma OccurrenceStartsAfter(s: string, lo: int, p: string, cs: set<char>, i: int)
    requires 0 <= lo <= |s| && AllIn(s[..lo], cs)
    requires p != [] && p[0] !in cs && OccursAt(s, p, i)
    ensures lo <= i
  {
    assert s[i] == p[0] by { assert s[i..i + |p|][0] == s[i]; }
    if i < lo {
      assert s[..lo][i] == s[i];
      AllInIndex(s[..lo], cs, i);
    }
  }

  /** An occurrence of a pattern that does not end with a character of `cs` ends before a suffix made of `cs`. */
  lemma OccurrenceEndsBefore(s: string, hi: int, p: string, cs: set<char>, i: int)
    requires 0 <= hi <= |s| && AllIn(s[hi..], cs)
    requires p != [] && p[|p| - 1] !in cs && OccursAt(s, p, i)
    ensures i + |p| <= hi
  {
    var j := i + |p| - 1;
    assert s[j] == p[|p| - 1] by { assert s[i..i + |p|][|p| - 1] == s[j]; }
    if j >= hi {
      assert s[hi..][j - hi] == s[j];
      AllInIndex(s[hi..], cs, j - hi);
    }
  }

  /** Stripping `cs` keeps exactly the occurrences of a non-empty pattern free of `cs`. */
  lemma StripKeepsContains(s: string, p: string, cs: set<char>)
    requires p != [] && forall i :: 0 <= i < |p| ==> p[i] !in cs
    ensures Contains(Strip(s, cs), p) <==> Contains(s, p)
  {
    var r := Strip(s, cs);
    var lo := LeadingRun(s, cs);
    StripPadded(s, cs);
    ContainsIgnoresPadding(s, lo, lo + |r|, p, cs);
  }

  /** Removing a character distributes over concatenation. */
  lemma {:induction false} RemoveAllAppend(a: string, b: string, c: char)
    ensures RemoveAll(a + b, c) == RemoveAll(a, c) + RemoveAll(b, c)
  {
    if a == [] {
      assert a + b == b;
    } else {
      assert (a + b)[1..] == a[1..] + b;
      RemoveAllAppend(a[1..], b, c);
    }
  }

  /** Removing a character that does not occur changes nothing. */
  lemma {:induction false} RemoveAllAbsent(s: string, c: char)
    requires c !in s
    ensures RemoveAll(s, c) == s
  {
    if s != [] {
      assert s == [s[0]] + s[1..];
      RemoveAllAbsent(s[1..], c);
    }
  }

  /** An occurrence of a pattern without `c` survives removing every `c`. */
  lemma RemoveAllKeepsOccurrence(s: string, p: string, c: char, i: int)
    requires OccursAt(s, p, i) && c !in p
    ensures Contains(RemoveAll(s, c), p)
  {
    var a, d := s[..i], s[i + |p|..];
    assert s == a + p + d;
    RemoveAllAppend(a + p, d, c);
    RemoveAllAppend(a, p, c);
    RemoveAllAbsent(p, c);
    var r := RemoveAll(s, c);
    var k := |RemoveAll(a, c)|;
    assert r[k..k + |p|] == p;
    assert OccursAt(r, p, k);
  }

  /** Lower-casing commutes with slicing. */
  lemma LowerSlice(s: string, lo: int, hi: int)
    requires 0 <= lo <= hi <= |s|
    ensures Lower(s[lo..hi]) == Lower(s)[lo..hi]
  {
  }

  /** Lower-casing distributes over concatenation. */
  lemma LowerAppend(a: string, b: string)
    ensures Lower(a + b) == Lower(a) + Lower(b)
  {
  }

  /** Lower-casing twice is lower-casing once. */
  lemma LowerIdempotent(s: string)
    ensures Lower(Lower(s)) == Lower(s)
  {
  }
}
