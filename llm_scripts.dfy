/**
 * The language-model fallback classifier (`infer_kedro_dataset_type`). The prompt
 * and the completion service are outside the model: what remains is the pure
 * post-processing that turns the service's free-text reply into a Kedro dataset
 * label or into "no result".
 */
module LlmScripts {
  import opened Wrappers
  import opened Text

  /**
   * What one fallback call yields: the completion text, or an exception (the
   * sample file could not be read, the service call failed, or the reply had no
   * text content so that `strip()` raised).
   */
  datatype Completion = Raised | Replied(content: string)

  /** The characters `result.strip("` ")` removes from the ends of an accepted reply. */
  const LabelTrim: set<char> := {'`', ' '}

  /** `result.lower().replace("`", "").strip()`: the reply as the accept/reject tests see it. */
  function Normalized(result: string): string
  {
    Strip(RemoveAll(Lower(result), '`'), PythonWhitespace)
  }

  /**
   * The reply post-processing of `infer_kedro_dataset_type`: a reply mentioning
   * `skip` or `none` is rejected; otherwise one mentioning both `.` and `dataset`
   * is accepted, with whitespace, then outer backticks and spaces, trimmed. The
   * accepted label is a slice of the reply that keeps its letter case and
   * interior backticks, and loses only whitespace and backticks at the ends.
   */
  function ReplyToLabel(content: string): Option<string>
  {
    var result := Strip(content, PythonWhitespace);
    var normalized := Normalized(result);
    if Contains(normalized, "skip") || Contains(normalized, "none") then None
    else if Contains(normalized, ".") && Contains(normalized, "dataset") then Some(Strip(result, LabelTrim))
    else None
  }

  /**
   * An accepted label is non-empty, contains a dot, does not start or end with
   * a backtick or space, and is a slice of the whitespace-stripped reply with
   * only backticks and spaces around it. (`Text.StripShape` says the same of the
   * whitespace-stripped reply within the reply, with whitespace around it.)
   */
  lemma ReplyToLabelShape(content: string)
    ensures var r := ReplyToLabel(content);
      var result := Strip(content, PythonWhitespace);
      && (r.Some? ==> r.value != [] && '.' in r.value)
      && (r.Some? ==> r.value[0] !in LabelTrim && r.value[|r.value| - 1] !in LabelTrim)
      && (r.Some? ==> Padded(result, r.value, LeadingRun(result, LabelTrim), LabelTrim))
  {
    var r := ReplyToLabel(content);
    if r.Some? {
      var result := Strip(content, PythonWhitespace);
      AcceptedLabel(content);
      TrimmedDot(content);
      StripShape(result, LabelTrim);
    }
  }

  /** An accepted label is the twice-trimmed reply, whose normalized form has a dot. */
  lemma AcceptedLabel(content: string)
    requires ReplyToLabel(content).Some?
    ensures ReplyToLabel(content).value == Strip(Strip(content, PythonWhitespace), LabelTrim)
    ensures Contains(Normalized(Strip(content, PythonWhitespace)), ".")
  {
  }

  /** The reply lower-cased and with every backtick removed, but not stripped. */
  function Folded(content: string): string
  {
    RemoveAll(Lower(content), '`')
  }

  /** The verdict of `ReplyToLabel`, stated on the unstripped folded reply. */
  predicate Accepts(content: string)
  {
    var f := Folded(content);
    !Contains(f, "skip") && !Contains(f, "none") && Contains(f, ".") && Contains(f, "dataset")
  }

  /** A reply whose normalized form has a dot keeps a dot once trimmed. */
  lemma TrimmedDot(content: string)
    requires Contains(Normalized(Strip(content, PythonWhitespace)), ".")
    ensures '.' in Strip(Strip(content, PythonWhitespace), LabelTrim)
  {
    var result := Strip(content, PythonWhitespace);
    assert '.' !in PythonWhitespace;
    DotSurvivesFolding(result, PythonWhitespace);
    DotSurvivesTrim(result, LabelTrim);
  }

  /** Trimming characters other than the dot keeps a dot. */
  lemma DotSurvivesTrim(result: string, lt: set<char>)
    requires '.' !in lt && '.' in result
    ensures '.' in Strip(result, lt)
  {
    StripChars(result, lt);
  }

  /** A dot in the folded and stripped text was a dot of the text itself. */
  lemma DotSurvivesFolding(result: string, ws: set<char>)
    requires Contains(Strip(RemoveAll(Lower(result), '`'), ws), ".")
    ensures '.' in result
  {
    var x := RemoveAll(Lower(result), '`');
    var n := Strip(x, ws);
    var i :| 0 <= i <= |n| - 1 && OccursAt(n, ".", i);
    assert n[i] == '.' by { assert n[i..i + 1][0] == n[i]; }
    StripChars(x, ws);
    RemoveAllChars(Lower(result), '`');
    assert '.' in Lower(result);
    var j :| 0 <= j < |Lower(result)| && Lower(result)[j] == '.';
    assert result[j] == '.';
  }

  /**
   * Stripping characters of `ws` before and after lower-casing and removing
   * backticks hides or creates no occurrence of a pattern free of `ws`.
   */
  lemma FoldStripContains(content: string, p: string, ws: set<char>)
    requires NoUpper(ws)
    requires p != [] && forall i :: 0 <= i < |p| ==> p[i] !in ws
    ensures Contains(Strip(RemoveAll(Lower(Strip(content, ws)), '`'), ws), p)
        <==> Contains(RemoveAll(Lower(content), '`'), p)
  {
    var result := Strip(content, ws);
    var x := RemoveAll(Lower(result), '`');
    var f := RemoveAll(Lower(content), '`');
    StripKeepsContains(x, p, ws);
    StripPadded(content, ws);
    var k := FoldPadded(content, result, LeadingRun(content, ws), ws);
    ContainsIgnoresPadding(f, k, k + |x|, p, ws);
  }

  /**
   * Folding a text padded with characters of `ws` (none an upper-case letter)
   * gives the folded middle padded with characters of `ws`; `k` is where it starts.
   */
  lemma FoldPadded(s: string, r: string, lo: int, ws: set<char>) returns (k: int)
    requires NoUpper(ws) && Padded(s, r, lo, ws)
    ensures Padded(RemoveAll(Lower(s), '`'), RemoveAll(Lower(r), '`'), k, ws)
  {
    var a, d := s[..lo], s[lo + |r|..];
    assert s == a + r + d;
    FoldAppend(a, r, d, ws);
    var ra, x, rd := RemoveAll(a, '`'), RemoveAll(Lower(r), '`'), RemoveAll(d, '`');
    RemoveAllKeepsAllIn(a, '`', ws);
    RemoveAllKeepsAllIn(d, '`', ws);
    PaddedAppend(ra, x, rd, ws);
    k := |ra|;
  }

  /** Folding a concatenation whose outer parts are made of `ws` only removes their backticks. */
  lemma FoldAppend(a: string, r: string, d: string, ws: set<char>)
    requires NoUpper(ws) && AllIn(a, ws) && AllIn(d, ws)
    ensures RemoveAll(Lower(a + r + d), '`') == RemoveAll(a, '`') + RemoveAll(Lower(r), '`') + RemoveAll(d, '`')
  {
    LowerUnchanged(a, ws);
    LowerUnchanged(d, ws);
    LowerAppend(a + r, d);
    LowerAppend(a, r);
    RemoveAllAppend(a + Lower(r), d, '`');
    RemoveAllAppend(a, Lower(r), '`');
  }

  /** A middle part between two parts made of `cs` is padded by them. */
  lemma PaddedAppend(a: string, m: string, d: string, cs: set<char>)
    requires AllIn(a, cs) && AllIn(d, cs)
    ensures Padded(a + m + d, m, |a|, cs)
  {
    var u := a + m + d;
    assert u[..|a|] == a;
    assert u[|a|..|a| + |m|] == m;
    assert u[|a| + |m|..] == d;
  }

  /**
   * For a pattern of lower-case letters and dots, the normalized reply contains
   * it exactly when the folded, unstripped reply does.
   */
  lemma NormalizedContains(content: string, p: string)
    requires p != [] && forall i :: 0 <= i < |p| ==> 'a' <= p[i] <= 'z' || p[i] == '.'
    ensures Contains(Normalized(Strip(content, PythonWhitespace)), p) <==> Contains(Folded(content), p)
  {
    WhitespaceIsNotText();
    FoldStripContains(content, p, PythonWhitespace);
  }

  /**
   * Independent statement of the verdict: a reply yields a label exactly when its
   * folded form mentions neither `skip` nor `none` and mentions both `.` and `dataset`.
   */
  lemma ReplyVerdict(content: string)
    ensures ReplyToLabel(content).Some? <==> Accepts(content)
  {
    NormalizedContains(content, "skip");
    NormalizedContains(content, "none");
    NormalizedContains(content, ".");
    NormalizedContains(content, "dataset");
  }

  /**
   * The label is not checked against the list of Kedro dataset classes in the
   * prompt: any reply that passes the tests and has nothing to trim comes back
   * verbatim, whatever class name it invents.
   */
  lemma AcceptsAnyCleanLabel(content: string)
    requires content != []
    requires content[0] !in PythonWhitespace + LabelTrim
    requires content[|content| - 1] !in PythonWhitespace + LabelTrim
    requires Accepts(content)
    ensures ReplyToLabel(content) == Some(content)
  {
    StripClean(content, PythonWhitespace);
    StripClean(content, LabelTrim);
    ReplyVerdict(content);
  }

  /** `skip` and `none` take precedence: `pandas.NoneDataset` is rejected although it names a dataset class. */
  lemma NoneDatasetRejected()
    ensures ReplyToLabel("pandas.NoneDataset") == None
  {
    var reply := "pandas.NoneDataset";
    var l := Lower(reply);
    assert l[7] == 'n' && l[8] == 'o' && l[9] == 'n' && l[10] == 'e';
    assert l[7..11] == "none";
    RemoveAllKeepsOccurrence(l, "none", '`', 7);
    ReplyVerdict(reply);
  }
}
