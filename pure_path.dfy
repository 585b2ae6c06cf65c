/**
 * POSIX path handling as the catalog generator uses it: `os.path.join` with two
 * arguments, and the `name`, `suffix` and `stem` properties of `pathlib.PurePosixPath`.
 */
module PurePath {
  import opened Text

  /** `os.path.join(a, b)` on POSIX: an absolute `b` replaces `a`; otherwise one `/` separates them. */
  function Join(a: string, b: string): (r: string)
    ensures |b| > 0 && b[0] == '/' ==> r == b
    ensures !(|b| > 0 && b[0] == '/') ==>
      && |a| + |b| <= |r| <= |a| + |b| + 1
      && r[..|a|] == a
      && r[|r| - |b|..] == b
      && (|r| > |a| + |b| ==> r[|a|] == '/')
      && (|r| == |a| + |b| <==> a == [] || a[|a| - 1] == '/')
  {
    if |b| > 0 && b[0] == '/' then b
    else if a == [] || a[|a| - 1] == '/' then a + b
    else a + "/" + b
  }

  /** The text after the last `/` of `p` (all of `p` when it has no `/`). */
  function AfterLastSlash(p: string): (r: string)
    ensures '/' !in r
    ensures |r| <= |p| && r == p[|p| - |r|..]
    ensures |r| < |p| ==> p[|p| - |r| - 1] == '/'
  {
    if p == [] || p[|p| - 1] == '/' then []
    else AfterLastSlash(p[..|p| - 1]) + [p[|p| - 1]]
  }

  /**
   * `PurePosixPath(p).name`: the final component, after empty components (from
   * repeated or trailing slashes) and `.` components have been dropped; empty
   * when nothing is left.
   */
  function Name(p: string): (r: string)
    decreases |p|
    ensures '/' !in r && r != "."
    ensures '/' !in p && p != "." ==> r == p
  {
    if p == [] then []
    else if p[|p| - 1] == '/' then Name(p[..|p| - 1])
    else
      var last := AfterLastSlash(p);
      if last == "." then Name(p[..|p| - 1]) else last
  }

  /** Python's `s.rfind(c)`: the index of the last `c` in `s`, or -1. */
  function LastIndexOf(s: string, c: char): (i: int)
    ensures -1 <= i < |s|
    ensures i >= 0 ==> s[i] == c
    ensures forall j :: i < j < |s| ==> s[j] != c
  {
    if s == [] then -1
    else if s[|s| - 1] == c then |s| - 1
    else LastIndexOf(s[..|s| - 1], c)
  }

  /**
   * The dot at index `k` of a final component starts its suffix: it is not the
   * first or the last character, and no dot follows it.
   */
  predicate SuffixDot(name: string, k: int)
  {
    0 < k < |name| - 1 && name[k] == '.' && '.' !in name[k + 1..]
  }

  /**
   * `PurePosixPath.suffix` of a final component: from its last dot, provided
   * that dot is neither its first nor its last character; otherwise empty.
   */
  function SuffixOf(name: string): string
  {
    var i := LastIndexOf(name, '.');
    if 0 < i < |name| - 1 then name[i..] else []
  }

  /**
   * The suffix is present exactly when some dot qualifies as a suffix dot, and
   * then it runs from that dot: a dot followed by at least one character and no
   * further dot.
   */
  lemma SuffixOfMeans(name: string)
    ensures SuffixOf(name) != [] <==> exists k :: SuffixDot(name, k)
    ensures forall k :: SuffixDot(name, k) ==> SuffixOf(name) == name[k..]
    ensures var r := SuffixOf(name); r == [] || (|r| >= 2 && r[0] == '.' && '.' !in r[1..])
  {
    var i := LastIndexOf(name, '.');
    if 0 < i < |name| - 1 {
      assert SuffixDot(name, i);
    } else {
      assert forall k :: SuffixDot(name, k) ==> k <= i;
    }
  }

  /** `PurePosixPath.stem` of a final component: the component without its suffix. */
  function StemOf(name: string): string
  {
    var i := LastIndexOf(name, '.');
    if 0 < i < |name| - 1 then name[..i] else name
  }

  /** Stem and suffix split a final component, and a non-empty component has a non-empty stem. */
  lemma StemSuffixSplit(name: string)
    ensures StemOf(name) + SuffixOf(name) == name
    ensures name != [] ==> StemOf(name) != []
  {
  }

  /** `PurePosixPath(p).suffix`. */
  function Suffix(p: string): string
  {
    SuffixOf(Name(p))
  }

  /** `PurePosixPath(p).stem`. */
  function Stem(p: string): string
  {
    StemOf(Name(p))
  }

  /** A hidden file such as `.gitkeep` has no suffix, and its stem is the whole name. */
  lemma DotfileHasNoSuffix(name: string)
    requires |name| > 0 && name[0] == '.' && '.' !in name[1..]
    ensures SuffixOf(name) == [] && StemOf(name) == name
  {
    assert forall k :: 0 < k < |name| ==> name[k] == name[1..][k - 1];
  }

  /**
   * A plain file name `base + ext`, with a dot-free `base` and an extension that
   * is a dot followed by at least one dot-free character, has suffix `ext` and stem `base`.
   */
  lemma PlainFileName(base: string, ext: string)
    requires base != [] && '.' !in base && '/' !in base
    requires |ext| >= 2 && ext[0] == '.' && '.' !in ext[1..] && '/' !in ext
    ensures Suffix(base + ext) == ext && Stem(base + ext) == base
  {
    var p := base + ext;
    assert '/' !in p;
    assert Name(p) == p;
    var i := LastIndexOf(p, '.');
    assert p[|base|] == '.';
    forall j | |base| < j < |p| ensures p[j] != '.' {
      assert p[j] == ext[1..][j - |base| - 1];
    }
    assert i == |base|;
    assert p[i..] == ext && p[..i] == base;
  }

  /** The final component of `dir` joined with a plain file name is that file name. */
  lemma NameOfJoin(dir: string, file: string)
    requires file != [] && '/' !in file && file != "."
    ensures Name(Join(dir, file)) == file
  {
    var j := Join(dir, file);
    assert j[|j| - |file|..] == file;
  }

  /** Lower-casing does not move any non-letter character, so `rfind` of a dot or slash is unchanged. */
  lemma {:induction false} LastIndexOfLower(s: string, c: char)
    requires !('A' <= c <= 'Z') && !('a' <= c <= 'z')
    ensures LastIndexOf(Lower(s), c) == LastIndexOf(s, c)
  {
    if s != [] {
      LowerSlice(s, 0, |s| - 1);
      LastIndexOfLower(s[..|s| - 1], c);
    }
  }

  /** Appending a non-slash character extends the text after the last slash. */
  lemma AfterLastSlashSnoc(q: string, x: char)
    requires x != '/'
    ensures AfterLastSlash(q + [x]) == AfterLastSlash(q) + [x]
  {
    assert (q + [x])[..|q|] == q;
  }

  /** Taking the text after the last slash commutes with lower-casing. */
  lemma {:induction false} AfterLastSlashLower(p: string)
    ensures AfterLastSlash(Lower(p)) == Lower(AfterLastSlash(p))
  {
    if p != [] && p[|p| - 1] != '/' {
      var q, x := p[..|p| - 1], p[|p| - 1];
      assert p == q + [x];
      LowerAppend(q, [x]);
      assert Lower([x]) == [LowerChar(x)];
      AfterLastSlashSnoc(Lower(q), LowerChar(x));
      AfterLastSlashSnoc(q, x);
      AfterLastSlashLower(q);
      LowerAppend(AfterLastSlash(q), [x]);
    }
  }

  /** Taking the final component commutes with lower-casing. */
  lemma {:induction false} NameLower(p: string)
    decreases |p|
    ensures Name(Lower(p)) == Lower(Name(p))
  {
    if p != [] {
      LowerSlice(p, 0, |p| - 1);
      if p[|p| - 1] == '/' {
        NameLower(p[..|p| - 1]);
      } else {
        AfterLastSlashLower(p);
        var last := AfterLastSlash(p);
        assert Lower(last) == "." <==> last == ".";
        if last == "." {
          NameLower(p[..|p| - 1]);
        }
      }
    }
  }

  /** Taking the suffix of a final component commutes with lower-casing. */
  lemma SuffixOfLower(name: string)
    ensures SuffixOf(Lower(name)) == Lower(SuffixOf(name))
  {
    LastIndexOfLower(name, '.');
    var i := LastIndexOf(name, '.');
    if 0 < i < |name| - 1 {
      LowerSlice(name, i, |name|);
      assert SuffixOf(name) == name[i..];
      assert SuffixOf(Lower(name)) == Lower(name)[i..];
    } else {
      assert SuffixOf(name) == [];
      assert SuffixOf(Lower(name)) == [];
    }
  }

  /**
   * The lower-cased suffix of a path depends only on the lower-cased path:
   * `report.CSV` and `report.csv` have the same lower-cased suffix.
   */
  lemma SuffixIgnoresCase(p: string, q: string)
    requires Lower(p) == Lower(q)
    ensures Lower(Suffix(p)) == Lower(Suffix(q))
  {
    NameLower(p);
    NameLower(q);
    SuffixOfLower(Name(p));
    SuffixOfLower(Name(q));
    LowerIdempotent(Suffix(p));
    LowerIdempotent(Suffix(q));
  }
}
