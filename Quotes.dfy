/** The quote rules: straight double quotes become curly opening and closing
    quotes. The opening rule runs first, on the text before the closing rule. */
module Quotes {
  import opened Text
  import opened Rules
  import opened Scan

  /** `\"\b` matches at k: a straight quote with a word character after it. */
  predicate OpensQuote(s: string, k: nat)
    requires k < |s|
  {
    s[k] == '"' && Boundary(s, k + 1)
  }

  /** One step of the opening-quote scan. */
  lemma OpenQuoteStep(s: string, i: nat)
    requires i < |s| && Advances(Pattern(OpenQuote), s)
    ensures Subn(Pattern(OpenQuote), s, i).text
         == [if OpensQuote(s, i) then LeftDoubleQuote else s[i]] + Subn(Pattern(OpenQuote), s, i + 1).text
  {
    assert Pattern(OpenQuote)(s, i) == OpenQuoteAt(s, i);
  }

  /** The text with every opening straight quote of s from i on made curly. */
  function OpenQuoted(s: string, i: nat): (t: string)
    requires i <= |s|
    ensures |t| == |s| - i
  {
    seq(|s| - i, j requires 0 <= j < |s| - i => if OpensQuote(s, i + j) then LeftDoubleQuote else s[i + j])
  }

  lemma OpenQuotedCons(s: string, i: nat)
    requires i < |s|
    ensures OpenQuoted(s, i) == [if OpensQuote(s, i) then LeftDoubleQuote else s[i]] + OpenQuoted(s, i + 1)
  {
  }

  /** The scan from i replaces exactly the straight quotes that open a quote. */
  lemma {:induction false} OpenQuoteScan(s: string, i: nat)
    requires i <= |s| && Advances(Pattern(OpenQuote), s)
    ensures Subn(Pattern(OpenQuote), s, i).text == OpenQuoted(s, i)
    decreases |s| - i
  {
    if i < |s| {
      OpenQuoteScan(s, i + 1);
      OpenQuoteStep(s, i);
      OpenQuotedCons(s, i);
    }
  }

  /** Every opening-quote match is a point edit from " to “. */
  lemma OpenQuoteIsPointEdit(s: string)
    requires Advances(Pattern(OpenQuote), s)
    ensures AllPointEdits(Pattern(OpenQuote), s, 0, '"', LeftDoubleQuote)
  {
    forall p | 0 <= p < |s| && Pattern(OpenQuote)(s, p).Some?
      ensures PointEdit(s, p, Pattern(OpenQuote)(s, p).value, '"', LeftDoubleQuote)
    {
      var m := Pattern(OpenQuote)(s, p).value;
      assert m.repl == s[p..p] + [LeftDoubleQuote] + s[p + 1..m.end];
    }
  }

  /** `re.subn(r"\"\b", "“", s)`: every straight quote followed by a word
      character, and no other character, becomes “; the count is the number
      of “ added, which is the number of straight quotes removed. */
  lemma OpenQuotePass(s: string)
    ensures var c := Apply(OpenQuote, s);
      && |c.text| == |s|
      && (forall k :: 0 <= k < |s| ==> c.text[k] == if OpensQuote(s, k) then LeftDoubleQuote else s[k])
      && Occurrences(c.text, LeftDoubleQuote) == Occurrences(s, LeftDoubleQuote) + c.count
      && Occurrences(c.text, '"') + c.count == Occurrences(s, '"')
  {
    PatternAdvances(OpenQuote, s);
    OpenQuoteScan(s, 0);
    OpenQuoteIsPointEdit(s);
    PointPassCounts(Pattern(OpenQuote), s, 0, '"', LeftDoubleQuote);
    assert s[0..] == s;
  }

  /** A second opening-quote pass finds nothing: the quotes the first pass
      leaves are not followed by a word character, and turning " into “
      moves no word boundary. */
  lemma OpenQuoteSettles(s: string)
    ensures var t := Apply(OpenQuote, s).text; Apply(OpenQuote, t) == Correction(t, 0)
  {
    var t := Apply(OpenQuote, s).text;
    OpenQuotePass(s);
    OpenQuotePass(t);
    PatternAdvances(OpenQuote, s);
    OpenQuoteScan(s, 0);
    assert s[0..] == s;
    assert Retouched(t, s, '"', LeftDoubleQuote);
    RetouchKeepsBoundaries(t, s, '"', LeftDoubleQuote);
    forall k | 0 <= k < |t|
      ensures !OpensQuote(t, k)
    {
      assert Boundary(t, k + 1) == Boundary(s, k + 1);
    }
    var u := Apply(OpenQuote, t).text;
    assert u == t;
  }

  /** `(\b[\.\?,!]?)(\")` reaches the straight quote at k in a scan from i:
      the quote follows a word character, or a closing punctuation mark that
      follows a word character. */
  predicate ClosesQuote(s: string, i: nat, k: nat)
    requires k < |s|
  {
    s[k] == '"' && (Boundary(s, k) || (i < k && IsClosingPunct(s[k - 1]) && Boundary(s, k - 1)))
  }

  /** The text with every closing straight quote of s from i on made curly. */
  function CloseQuoted(s: string, i: nat): (t: string)
    requires i <= |s|
    ensures |t| == |s| - i
  {
    seq(|s| - i, j requires 0 <= j < |s| - i => if ClosesQuote(s, i, i + j) then RightDoubleQuote else s[i + j])
  }

  /** CloseQuoted advances as the scan does: the quotes it curls are exactly
      the ones the matcher finds at the scan position. */
  lemma CloseQuotedStep(s: string, i: nat)
    requires i < |s|
    ensures match CloseQuoteAt(s, i)
      case None => CloseQuoted(s, i) == [s[i]] + CloseQuoted(s, i + 1)
      case Some(m) => CloseQuoted(s, i) == m.repl + CloseQuoted(s, m.end)
  {
    if CloseQuoteAt(s, i).None? {
      CloseQuotedSkip(s, i);
    } else {
      CloseQuotedTake(s, i);
    }
  }

  lemma CloseQuotedSkip(s: string, i: nat)
    requires i < |s| && CloseQuoteAt(s, i).None?
    ensures CloseQuoted(s, i) == [s[i]] + CloseQuoted(s, i + 1)
  {
    var t, u := CloseQuoted(s, i), [s[i]] + CloseQuoted(s, i + 1);
    forall j | 0 <= j < |t|
      ensures t[j] == u[j]
    {
      if j > 0 {
        assert ClosesQuote(s, i, i + j) == ClosesQuote(s, i + 1, i + j);
      }
    }
  }

  lemma CloseQuotedTake(s: string, i: nat)
    requires i < |s| && CloseQuoteAt(s, i).Some?
    ensures var m := CloseQuoteAt(s, i).value; CloseQuoted(s, i) == m.repl + CloseQuoted(s, m.end)
  {
    var m := CloseQuoteAt(s, i).value;
    var t, u := CloseQuoted(s, i), m.repl + CloseQuoted(s, m.end);
    forall j | 0 <= j < |t|
      ensures t[j] == u[j]
    {
      if i + j >= m.end {
        assert ClosesQuote(s, i, i + j) == ClosesQuote(s, m.end, i + j);
      }
    }
  }

  /** The scan from i replaces exactly the straight quotes that close a quote. */
  lemma {:induction false} CloseQuoteScan(s: string, i: nat)
    requires i <= |s| && Advances(Pattern(CloseQuote), s)
    ensures Subn(Pattern(CloseQuote), s, i).text == CloseQuoted(s, i)
    decreases |s| - i
  {
    if i < |s| {
      assert Pattern(CloseQuote)(s, i) == CloseQuoteAt(s, i);
      CloseQuotedStep(s, i);
      match CloseQuoteAt(s, i)
      case None => CloseQuoteScan(s, i + 1);
      case Some(m) => CloseQuoteScan(s, m.end);
    }
  }

  /** Every closing-quote match is a point edit from " to ”. */
  lemma CloseQuoteIsPointEdit(s: string)
    requires Advances(Pattern(CloseQuote), s)
    ensures AllPointEdits(Pattern(CloseQuote), s, 0, '"', RightDoubleQuote)
  {
    forall p | 0 <= p < |s| && Pattern(CloseQuote)(s, p).Some?
      ensures PointEdit(s, p, Pattern(CloseQuote)(s, p).value, '"', RightDoubleQuote)
    {
      var m := Pattern(CloseQuote)(s, p).value;
      if m.end == p + 2 {
        assert m.repl == s[p..p + 1] + [RightDoubleQuote] + s[p + 2..m.end];
      } else {
        assert m.repl == s[p..p] + [RightDoubleQuote] + s[p + 1..m.end];
      }
    }
  }

  /** `re.subn(r"(\b[\.\?,!]?)(\")", r"\1”", s)`: every straight quote after a
      word character, directly or across one of . ? , !, and no other
      character, becomes ”; the count is the number of ” added. */
  lemma CloseQuotePass(s: string)
    ensures var c := Apply(CloseQuote, s);
      && |c.text| == |s|
      && (forall k :: 0 <= k < |s| ==> c.text[k] == if ClosesQuote(s, 0, k) then RightDoubleQuote else s[k])
      && Occurrences(c.text, RightDoubleQuote) == Occurrences(s, RightDoubleQuote) + c.count
      && Occurrences(c.text, '"') + c.count == Occurrences(s, '"')
  {
    PatternAdvances(CloseQuote, s);
    CloseQuoteScan(s, 0);
    CloseQuoteIsPointEdit(s);
    PointPassCounts(Pattern(CloseQuote), s, 0, '"', RightDoubleQuote);
    assert s[0..] == s;
  }

  /** A second closing-quote pass finds nothing. */
  lemma CloseQuoteSettles(s: string)
    ensures var t := Apply(CloseQuote, s).text; Apply(CloseQuote, t) == Correction(t, 0)
  {
    var t := Apply(CloseQuote, s).text;
    CloseQuotePass(s);
    CloseQuotePass(t);
    assert Retouched(t, s, '"', RightDoubleQuote);
    RetouchKeepsBoundaries(t, s, '"', RightDoubleQuote);
    forall k | 0 <= k < |t|
      ensures !ClosesQuote(t, 0, k)
    {
      assert Boundary(t, k) == Boundary(s, k);
      if 0 < k {
        assert Boundary(t, k - 1) == Boundary(s, k - 1);
      }
    }
    var u := Apply(CloseQuote, t).text;
    assert u == t;
  }
}
