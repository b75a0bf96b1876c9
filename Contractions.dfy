/** The contraction rules: a straight quote inside a contraction becomes an
    apostrophe. */
module Contractions {
  import opened Text
  import opened Rules
  import opened Scan

  /** The rules built from CONTRACTIONS. */
  predicate IsContraction(r: Rule) {
    r.StemContraction? || r.WordContraction?
  }

  lemma ContractionsAreContractions()
    ensures forall r :: r in Contractions ==> IsContraction(r)
  {
  }

  /** What `(\b[a-zA-Z]+)(')(suffix\b)` asks of the text around a straight
      quote at q, for a stem starting at p: a word boundary at p, ASCII
      letters from p up to the quote (with `afterN`, `[a-zA-Z]+n`: at least
      two, the last an `n`), the suffix right after the quote, and a word
      boundary after the suffix. */
  predicate StemContext(afterN: bool, suffix: string, s: string, p: nat, q: nat) {
    && p < q && q + 1 + |suffix| <= |s|
    && Boundary(s, p)
    && (forall k :: p <= k < q ==> IsAsciiLetter(s[k]))
    && s[q] == '\''
    && (afterN ==> q - p >= 2 && s[q - 1] == 'n')
    && s[q + 1..q + 1 + |suffix|] == suffix
    && Boundary(s, q + 1 + |suffix|)
  }

  /** A stem contraction rule matches at p exactly when a straight quote
      after p stands in its context; the match then runs to the end of the
      suffix and puts an apostrophe in place of the quote. */
  lemma StemContractionAtIff(afterN: bool, suffix: string, s: string, p: nat)
    requires p < |s|
    ensures StemContractionAt(afterN, suffix, s, p).Some? <==> exists q: nat :: StemContext(afterN, suffix, s, p, q)
    ensures forall q: nat :: StemContext(afterN, suffix, s, p, q) ==>
      StemContractionAt(afterN, suffix, s, p) == Some(Match(q + 1 + |suffix|, s[p..q] + [Apostrophe] + suffix))
  {
    forall q: nat | StemContext(afterN, suffix, s, p, q)
      ensures StemContractionAt(afterN, suffix, s, p) == Some(Match(q + 1 + |suffix|, s[p..q] + [Apostrophe] + suffix))
    {
      RunEndUnique(s, p, q, IsAsciiLetter);
      LiteralAtIsSlice(s, q + 1, suffix);
    }
    if StemContractionAt(afterN, suffix, s, p).Some? {
      var e := RunEnd(s, p, IsAsciiLetter);
      LiteralAtIsSlice(s, e + 1, suffix);
      assert StemContext(afterN, suffix, s, p, e);
    }
  }

  /** What `\b[initials]pre'post\b` asks of the text from p: a word
      boundary, one of the initials, pre, a straight quote, post, and a word
      boundary. */
  predicate WordContext(initials: string, pre: string, post: string, s: string, p: nat) {
    var q := p + 1 + |pre|;
    && q + 1 + |post| <= |s|
    && Boundary(s, p) && s[p] in initials
    && s[p + 1..q] == pre && s[q] == '\'' && s[q + 1..q + 1 + |post|] == post
    && Boundary(s, q + 1 + |post|)
  }

  /** A fixed-word contraction rule matches at p exactly when the text from
      p is in its context; the match is the word with an apostrophe in place
      of the quote. */
  lemma WordContractionAtIff(initials: string, pre: string, post: string, s: string, p: nat)
    requires p < |s|
    ensures WordContractionAt(initials, pre, post, s, p).Some? <==> WordContext(initials, pre, post, s, p)
    ensures WordContext(initials, pre, post, s, p) ==>
      WordContractionAt(initials, pre, post, s, p)
        == Some(Match(p + 2 + |pre| + |post|, s[p..p + 1 + |pre|] + [Apostrophe] + post))
  {
    var q := p + 1 + |pre|;
    LiteralAtIsSlice(s, p + 1, pre + "'" + post);
    if q + 1 + |post| <= |s| {
      var w := s[p + 1..q + 1 + |post|];
      assert |w| == |pre| + 1 + |post|;
      assert s[p + 1..q] == w[..|pre|];
      assert w[|pre|] == s[p + 1 + |pre|] == s[q];
      assert s[q + 1..q + 1 + |post|] == w[|pre| + 1..];
      if w == pre + "'" + post {
        assert w[..|pre|] == pre && w[|pre|] == '\'' && w[|pre| + 1..] == post;
      }
      if s[p + 1..q] == pre && s[q] == '\'' && s[q + 1..q + 1 + |post|] == post {
        assert w == pre + "'" + post;
        assert s[p..q] == [s[p]] + pre;
      }
    }
  }

  /** The straight quote at q stands where contraction rule r asks for one. */
  predicate QuoteInContext(r: Rule, s: string, q: nat)
    requires IsContraction(r)
  {
    match r
    case StemContraction(afterN, suffix) => exists p: nat :: p < q && StemContext(afterN, suffix, s, p, q)
    case WordContraction(initials, pre, post) => q >= 1 + |pre| && WordContext(initials, pre, post, s, q - 1 - |pre|)
  }

  /** A position a contraction match changes holds a straight quote in the
      rule's context, and the match writes an apostrophe there. */
  lemma ChangeInContext(r: Rule, s: string, p: nat, k: nat)
    requires IsContraction(r) && ChangesAt(Pattern(r), s, p, k)
    ensures s[k] == '\'' && Pattern(r)(s, p).value.repl[k - p] == Apostrophe && QuoteInContext(r, s, k)
  {
    assert Pattern(r)(s, p) == MatchAt(r, s, p);
    match r
    case StemContraction(afterN, suffix) =>
      StemChangeInContext(afterN, suffix, s, p, k);
    case WordContraction(initials, pre, post) =>
      WordChangeInContext(initials, pre, post, s, p, k);
  }

  lemma StemChangeInContext(afterN: bool, suffix: string, s: string, p: nat, k: nat)
    requires p <= k < |s| && StemContractionAt(afterN, suffix, s, p).Some?
    requires var m := StemContractionAt(afterN, suffix, s, p).value;
      k < m.end && |m.repl| == m.end - p && m.repl[k - p] != s[k]
    ensures s[k] == '\'' && StemContractionAt(afterN, suffix, s, p).value.repl[k - p] == Apostrophe
    ensures StemContext(afterN, suffix, s, p, k)
  {
    StemContractionAtIff(afterN, suffix, s, p);
    var q: nat :| StemContext(afterN, suffix, s, p, q);
    var repl := s[p..q] + [Apostrophe] + suffix;
    assert StemContractionAt(afterN, suffix, s, p).value.repl == repl;
  }

  lemma WordChangeInContext(initials: string, pre: string, post: string, s: string, p: nat, k: nat)
    requires p <= k < |s| && WordContractionAt(initials, pre, post, s, p).Some?
    requires var m := WordContractionAt(initials, pre, post, s, p).value;
      k < m.end && |m.repl| == m.end - p && m.repl[k - p] != s[k]
    ensures s[k] == '\'' && WordContractionAt(initials, pre, post, s, p).value.repl[k - p] == Apostrophe
    ensures k == p + 1 + |pre| && WordContext(initials, pre, post, s, p)
  {
    WordContractionAtIff(initials, pre, post, s, p);
    var q := p + 1 + |pre|;
    var repl := s[p..q] + [Apostrophe] + post;
    assert WordContractionAt(initials, pre, post, s, p).value.repl == repl;
  }

  /** A straight quote in the context of contraction rule r lets r match at
      or before it. */
  lemma ContextMatches(r: Rule, s: string, q: nat)
    requires IsContraction(r) && QuoteInContext(r, s, q)
    ensures q < |s| && s[q] == '\''
    ensures exists p: nat :: p <= q && p < |s| && MatchAt(r, s, p).Some?
  {
    match r
    case StemContraction(afterN, suffix) =>
      var p: nat :| p < q && StemContext(afterN, suffix, s, p, q);
      StemContractionAtIff(afterN, suffix, s, p);
      assert MatchAt(r, s, p).Some?;
    case WordContraction(initials, pre, post) =>
      WordContractionAtIff(initials, pre, post, s, q - 1 - |pre|);
      assert MatchAt(r, s, q - 1 - |pre|).Some?;
  }

  /** A stem contraction match is the matched word with its straight quote,
      and only that, turned into an apostrophe. */
  lemma StemMatchIsPointEdit(afterN: bool, suffix: string, s: string, p: nat)
    requires p < |s| && StemContractionAt(afterN, suffix, s, p).Some?
    ensures PointEdit(s, p, StemContractionAt(afterN, suffix, s, p).value, '\'', Apostrophe)
  {
    var m := StemContractionAt(afterN, suffix, s, p).value;
    var e := RunEnd(s, p, IsAsciiLetter);
    LiteralAtIsSlice(s, e + 1, suffix);
    assert m.end == e + 1 + |suffix|;
    assert m.repl == s[p..e] + [Apostrophe] + s[e + 1..m.end];
    assert p <= e < m.end && s[e] == '\'';
  }

  /** The same for the fixed-word contractions. */
  lemma WordMatchIsPointEdit(initials: string, pre: string, post: string, s: string, p: nat)
    requires p < |s| && WordContractionAt(initials, pre, post, s, p).Some?
    ensures PointEdit(s, p, WordContractionAt(initials, pre, post, s, p).value, '\'', Apostrophe)
  {
    var m := WordContractionAt(initials, pre, post, s, p).value;
    var q := p + 1 + |pre|;
    LiteralAtIsSlice(s, p + 1, pre + "'" + post);
    var w := s[p + 1..q + 1 + |post|];
    assert w == pre + "'" + post;
    assert w[..|pre|] == pre && w[|pre|] == '\'' && w[|pre| + 1..] == post;
    assert s[p..q] == [s[p]] + w[..|pre|];
    assert s[q + 1..m.end] == w[|pre| + 1..];
    assert m.repl == s[p..q] + [Apostrophe] + s[q + 1..m.end];
    assert p <= q < m.end && s[q] == '\'';
  }

  /** Every match of a contraction rule is a point edit from ' to ’. */
  lemma ContractionMatchIsPointEdit(r: Rule, s: string, p: nat)
    requires IsContraction(r) && p < |s| && MatchAt(r, s, p).Some?
    ensures PointEdit(s, p, MatchAt(r, s, p).value, '\'', Apostrophe)
  {
    match r
    case StemContraction(afterN, suffix) => StemMatchIsPointEdit(afterN, suffix, s, p);
    case WordContraction(initials, pre, post) => WordMatchIsPointEdit(initials, pre, post, s, p);
  }

  /** A contraction pass keeps the length of the text and every character
      except straight quotes, some of which become apostrophes; each
      substitution turns exactly one straight quote into one apostrophe, and
      every quote turned stands in the rule's context. */
  lemma ContractionPass(r: Rule, s: string)
    requires IsContraction(r)
    ensures var c := Apply(r, s);
      && Retouched(c.text, s, '\'', Apostrophe)
      && Occurrences(c.text, Apostrophe) == Occurrences(s, Apostrophe) + c.count
      && Occurrences(c.text, '\'') + c.count == Occurrences(s, '\'')
      && (forall k :: 0 <= k < |s| && c.text[k] != s[k] ==>
            s[k] == '\'' && c.text[k] == Apostrophe && QuoteInContext(r, s, k))
  {
    PatternAdvances(r, s);
    ContractionPointEdits(r, s);
    PointPass(Pattern(r), s, 0, '\'', Apostrophe);
    PointPassCounts(Pattern(r), s, 0, '\'', Apostrophe);
    PointPassSites(Pattern(r), s, 0, '\'', Apostrophe);
    var t := Subn(Pattern(r), s, 0).text;
    forall k | 0 <= k < |s| && t[k] != s[k]
      ensures QuoteInContext(r, s, k)
    {
      assert t[k - 0] != s[k];
      var p :| 0 <= p <= k && ChangesAt(Pattern(r), s, p, k);
      ChangeInContext(r, s, p, k);
    }
    assert s[0..] == s;
  }

  lemma ContractionPointEdits(r: Rule, s: string)
    requires IsContraction(r)
    ensures Advances(Pattern(r), s) && AllPointEdits(Pattern(r), s, 0, '\'', Apostrophe)
  {
    PatternAdvances(r, s);
    forall p | 0 <= p < |s| && Pattern(r)(s, p).Some?
      ensures PointEdit(s, p, Pattern(r)(s, p).value, '\'', Apostrophe)
    {
      ContractionMatchIsPointEdit(r, s, p);
    }
  }

  /** Conversely, the one straight quote of a text, standing in the context
      of contraction rule r, becomes an apostrophe, with one issue counted. */
  lemma ContractionTurnsLoneQuote(r: Rule, s: string, q: nat)
    requires IsContraction(r) && QuoteInContext(r, s, q)
    requires forall k :: 0 <= k < |s| && s[k] == '\'' ==> k == q
    ensures q < |s| && Apply(r, s) == Correction(s[..q] + [Apostrophe] + s[q + 1..], 1)
  {
    var c := Apply(r, s);
    LoneQuoteTurned(r, s, q);
    ContractionRetouch(r, s);
    LoneQuoteText(c.text, s, q);
    LoneQuoteCount(s, q);
  }

  /** The part of ContractionPass the lone quote needs. */
  lemma ContractionRetouch(r: Rule, s: string)
    requires IsContraction(r)
    ensures var c := Apply(r, s);
      && Retouched(c.text, s, '\'', Apostrophe)
      && Occurrences(c.text, '\'') + c.count == Occurrences(s, '\'')
  {
    ContractionPass(r, s);
  }

  /** The pass turns the lone quote, so it counts at least one issue. */
  lemma LoneQuoteTurned(r: Rule, s: string, q: nat)
    requires IsContraction(r) && QuoteInContext(r, s, q)
    requires forall k :: 0 <= k < |s| && s[k] == '\'' ==> k == q
    ensures q < |s| && q < |Apply(r, s).text| && Apply(r, s).text[q] == Apostrophe && Apply(r, s).count > 0
  {
    var p := ContextSite(r, s, q);
    LoneQuoteTurnedFrom(r, s, p, q);
    ContractionCounts(r, s, p);
  }

  /** A position at or before a quote in context where the rule matches. */
  lemma ContextSite(r: Rule, s: string, q: nat) returns (p: nat)
    requires IsContraction(r) && QuoteInContext(r, s, q)
    ensures p <= q < |s| && s[q] == '\'' && Pattern(r)(s, p).Some?
  {
    ContextMatches(r, s, q);
    p :| p <= q && p < |s| && MatchAt(r, s, p).Some?;
    assert Pattern(r)(s, p) == MatchAt(r, s, p);
  }

  lemma LoneQuoteTurnedFrom(r: Rule, s: string, p: nat, q: nat)
    requires IsContraction(r) && p <= q < |s| && Pattern(r)(s, p).Some?
    requires forall k :: 0 <= k < |s| && s[k] == '\'' ==> k == q
    ensures q < |Apply(r, s).text| && Apply(r, s).text[q] == Apostrophe
  {
    ContractionPointEdits(r, s);
    PointPassTurnsLone(Pattern(r), s, 0, p, q, '\'', Apostrophe);
  }

  /** A pass where the rule matches somewhere counts an issue. */
  lemma ContractionCounts(r: Rule, s: string, p: nat)
    requires IsContraction(r) && p < |s| && Pattern(r)(s, p).Some?
    ensures Apply(r, s).count > 0
  {
    PatternAdvances(r, s);
    NoCountIffNoMatch(Pattern(r), s, 0);
  }

  /** A retouch of s whose one straight quote, at q, is turned. */
  lemma LoneQuoteText(t: string, s: string, q: nat)
    requires q < |s| && Retouched(t, s, '\'', Apostrophe) && t[q] == Apostrophe
    requires forall k :: 0 <= k < |s| && s[k] == '\'' ==> k == q
    ensures t == s[..q] + [Apostrophe] + s[q + 1..]
  {
    var u := s[..q] + [Apostrophe] + s[q + 1..];
    forall k | 0 <= k < |s|
      ensures t[k] == u[k]
    {
      if k != q {
        assert t[k] == s[k];
      }
    }
  }

  /** Turning the one straight quote of s leaves none. */
  lemma LoneQuoteCount(s: string, q: nat)
    requires q < |s| && s[q] == '\''
    requires forall k :: 0 <= k < |s| && s[k] == '\'' ==> k == q
    ensures Occurrences(s, '\'') == Occurrences(s[..q] + [Apostrophe] + s[q + 1..], '\'') + 1
  {
    assert s == s[..q] + ['\''] + s[q + 1..];
    OccurrencesAppend(s[..q] + ['\''], s[q + 1..], '\'');
    OccurrencesAppend(s[..q], ['\''], '\'');
    OccurrencesAppend(s[..q] + [Apostrophe], s[q + 1..], '\'');
    OccurrencesAppend(s[..q], [Apostrophe], '\'');
    OccurrencesSingle('\'', '\'');
    OccurrencesSingle(Apostrophe, '\'');
  }
}
