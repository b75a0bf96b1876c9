/** Families of texts on which the whole rule list is worked out once and
    for all: a text no rule has anything to do in, and texts where a single
    spot is corrected. The examples instantiate them. */
module Families {
  import opened Text
  import opened Rules
  import opened Scan
  import opened Contractions
  import opened Dashes
  import opened Quotes
  import opened Ellipses
  import opened Whitespace
  import opened Keys
  import opened Progress
  import opened Engine

  /** Not the key character of a contraction, the spelling rule, a dash rule
      or a quote rule. */
  predicate Plain(c: char) {
    c != '\'' && c != 'H' && c != '-' && c != '"'
  }

  /** Plain characters, never two periods in a row. */
  predicate Smooth(t: string) {
    && (forall k :: 0 <= k < |t| ==> Plain(t[k]))
    && (forall k :: 0 <= k < |t| - 1 ==> !(t[k] == '.' && t[k + 1] == '.'))
  }

  /** Smooth, and no blank before a newline or at the end. */
  predicate Settled(t: string) {
    Smooth(t) && NoTrailingBlanks(t)
  }

  /** Settled from k on, decided one character at a time. From 0 it is
      Settled itself (SettledFromIff); it exists because on a concrete text
      it unfolds into checks on single characters, where the quantifiers of
      Settled would need instances the solver does not find by itself. */
  predicate SettledFrom(t: string, k: nat)
    decreases |t| - k
  {
    k >= |t| || (SettledAt(t, k) && SettledFrom(t, k + 1))
  }

  /** What SettledFrom checks at one position. */
  predicate SettledAt(t: string, j: nat)
    requires j < |t|
  {
    && Plain(t[j])
    && (t[j] == '.' ==> j + 1 == |t| || t[j + 1] != '.')
    && (IsBlank(t[j]) ==> j + 1 < |t| && t[j + 1] != '\n')
  }

  lemma {:induction false} SettledFromSuffix(t: string, k: nat)
    requires SettledFrom(t, k)
    ensures forall j :: k <= j < |t| ==> SettledAt(t, j)
    decreases |t| - k
  {
    if k < |t| {
      SettledFromSuffix(t, k + 1);
      assert SettledAt(t, k);
    }
  }

  lemma SettledFromIsSettled(t: string)
    requires SettledFrom(t, 0)
    ensures Settled(t)
  {
    SettledFromSuffix(t, 0);
    forall k | 0 <= k < |t| - 1
      ensures !(t[k] == '.' && t[k + 1] == '.')
    {
      assert SettledAt(t, k);
    }
    forall k | 0 <= k < |t|
      ensures Plain(t[k])
    {
      assert SettledAt(t, k);
    }
    forall k | 0 <= k < |t| && IsBlank(t[k])
      ensures k + 1 < |t| && t[k + 1] != '\n'
    {
      assert SettledAt(t, k);
    }
  }
  lemma {:induction false} SettledSuffixFrom(t: string, k: nat)
    requires Settled(t)
    ensures SettledFrom(t, k)
    decreases |t| - k
  {
    if k < |t| {
      SettledSuffixFrom(t, k + 1);
      assert SettledAt(t, k);
    }
  }

  /** The two readings of "settled" agree. */
  lemma SettledFromIff(t: string)
    ensures SettledFrom(t, 0) <==> Settled(t)
  {
    if SettledFrom(t, 0) {
      SettledFromIsSettled(t);
    }
    if Settled(t) {
      SettledSuffixFrom(t, 0);
    }
  }


  /** A smooth text holds none of the plain-excluded keys. */
  lemma SmoothLacks(t: string)
    requires Smooth(t)
    ensures '\'' !in t && 'H' !in t && '-' !in t && '"' !in t
  {
  }

  /** A settled text does not end in a blank. */
  lemma SettledEnd(t: string)
    requires Settled(t) && t != []
    ensures !IsBlank(t[|t| - 1])
  {
    assert !(|t| - 1 + 1 < |t|);
  }

  lemma SmoothJoin(a: string, b: string)
    requires Smooth(a) && Smooth(b)
    requires a == [] || b == [] || a[|a| - 1] != '.' || b[0] != '.'
    ensures Smooth(a + b)
  {
    var t := a + b;
    forall k | 0 <= k < |t| - 1
      ensures !(t[k] == '.' && t[k + 1] == '.')
    {
      if k + 1 < |a| {
        assert t[k] == a[k] && t[k + 1] == a[k + 1];
      } else if k >= |a| {
        assert t[k] == b[k - |a|] && t[k + 1] == b[k + 1 - |a|];
      } else {
        assert t[k] == a[|a| - 1] && t[k + 1] == b[0];
      }
    }
    assert forall k :: 0 <= k < |t| ==> t[k] == if k < |a| then a[k] else b[k - |a|];
  }

  /** Settled texts joined where no two periods meet give a settled text. */
  lemma SettledJoin(a: string, b: string)
    requires Settled(a) && Settled(b)
    requires a == [] || b == [] || a[|a| - 1] != '.' || b[0] != '.'
    ensures Settled(a + b)
  {
    SmoothJoin(a, b);
    if a != [] {
      SettledEnd(a);
    }
    NoTrailingBlanksAppend(a, b);
  }

  /** One plain character that is not a blank is settled. */
  lemma SettledChar(c: char)
    requires Plain(c) && !IsBlank(c)
    ensures Settled([c])
  {
  }

  /** `a`, then `c`, then `b`, with a single character between two settled
      texts. */
  lemma SettledAround(a: string, c: char, b: string)
    requires Settled(a) && Settled(b) && Plain(c) && !IsBlank(c) && c != '.'
    ensures Settled(a + [c] + b)
  {
    SettledChar(c);
    SettledJoin(a, [c]);
    SettledJoin(a + [c], b);
  }

  /** Text without a straight single quote passes the contraction rules unchanged. */
  lemma ContractionsIgnore(t: string)
    requires '\'' !in t
    ensures ApplyAll(Rules.Contractions, t) == Correction(t, 0)
  {
    ContractionsAreContractions();
    NoKeysUnchanged(Rules.Contractions, t);
  }

  /** Text without a capital H passes the spelling rule unchanged. */
  lemma SpellingIgnore(t: string)
    requires 'H' !in t
    ensures ApplyAll(Rules.Spelling, t) == Correction(t, 0)
  {
    NoKeysUnchanged(Rules.Spelling, t);
  }

  /** No punctuation rule changes a settled text. */
  lemma SettledPunctuation(r: Rule, t: string)
    requires r in Rules.Punctuation && Settled(t)
    ensures Apply(r, t) == Correction(t, 0)
  {
    if r == TrailingWhitespace {
      CleanSettles(t);
    } else if r == EllipsisRule {
      NoTripleSettles(t);
    } else {
      NoKeyUnchanged(r, t);
    }
  }

  /** No rule at all changes a settled text: a second run over the result of
      one of the families below finds nothing. */
  lemma SettledUnchanged(t: string)
    requires Settled(t)
    ensures ApplyAll(AllRules, t) == Correction(t, 0)
  {
    SmoothLacks(t);
    ContractionsIgnore(t);
    SpellingIgnore(t);
    forall r | r in Rules.Punctuation
      ensures Apply(r, t) == Correction(t, 0)
    {
      SettledPunctuation(r, t);
    }
    AllUnchanged(Rules.Punctuation, t);
    RuleGroups(t, t, t, t, 0, 0, 0);
  }

  /** The punctuation rules when only the k-th acts, leaving a settled text. */
  lemma PunctuationOnce(k: nat, s: string, t: string, n: nat)
    requires k < |Rules.Punctuation|
    requires forall j :: 0 <= j < k ==> Apply(Rules.Punctuation[j], s) == Correction(s, 0)
    requires Apply(Rules.Punctuation[k], s) == Correction(t, n)
    requires Settled(t)
    ensures ApplyAll(Rules.Punctuation, s) == Correction(t, n)
  {
    var P := Rules.Punctuation;
    forall r | r in P[..k]
      ensures Apply(r, s) == Correction(s, 0)
    {
      var j :| 0 <= j < k && P[j] == r;
    }
    forall r | r in P[k + 1..]
      ensures Apply(r, t) == Correction(t, 0)
    {
      assert r in P;
      SettledPunctuation(r, t);
    }
    OnlyOneActs(P, k, s, t, n);
  }

  lemma {:induction false} OccurrencesAbsent(t: string, x: char)
    requires x !in t
    ensures Occurrences(t, x) == 0
  {
    if t != [] {
      assert t == [t[0]] + t[1..];
      OccurrencesAbsent(t[1..], x);
    }
  }

  lemma {:induction false} OccurrencesZero(t: string, x: char)
    requires Occurrences(t, x) == 0
    ensures x !in t
  {
    if t != [] {
      assert t == [t[0]] + t[1..];
      OccurrencesZero(t[1..], x);
    }
  }

  /** A text holding x once, between two pieces without it. */
  lemma OccurrencesOnce(a: string, x: char, b: string)
    requires x !in a && x !in b
    ensures Occurrences(a + [x] + b, x) == 1
  {
    OccurrencesAbsent(a, x);
    OccurrencesAbsent(b, x);
    OccurrencesSingle(x, x);
    OccurrencesAppend(a, [x], x);
    OccurrencesAppend(a + [x], b, x);
  }

  // Contractions

  /** On a text with one straight quote, a contraction pass either changes
      nothing or turns that quote into an apostrophe, counting one issue. */
  lemma SingleQuotePass(r: Rule, a: string, b: string)
    requires IsContraction(r) && '\'' !in a && '\'' !in b
    ensures var c := Apply(r, a + "'" + b);
      c == Correction(a + "'" + b, 0) || c == Correction(a + [Apostrophe] + b, 1)
  {
    var s := a + "'" + b;
    var c := Apply(r, s);
    ContractionPass(r, s);
    PassProgress(r, s);
    OccurrencesOnce(a, '\'', b);
    if c.count != 0 {
      OccurrencesZero(c.text, '\'');
      RetouchedQuote(c.text, a, b);
    }
  }

  /** Retouching the one straight quote of a text, leaving none, gives the
      text with an apostrophe in its place. */
  lemma RetouchedQuote(t: string, a: string, b: string)
    requires Retouched(t, a + "'" + b, '\'', Apostrophe)
    requires '\'' !in t && '\'' !in a && '\'' !in b
    ensures t == a + [Apostrophe] + b
  {
    var s := a + "'" + b;
    forall k | 0 <= k < |s|
      ensures t[k] == (a + [Apostrophe] + b)[k]
    {
      assert t[k] in t;
      if k < |a| {
        assert s[k] == a[k];
      } else if k > |a| {
        assert s[k] == b[k - |a| - 1];
      }
    }
  }

  /** Running contraction rules over a text with one straight quote leaves it
      alone, every rule finding nothing, or turns the quote into an
      apostrophe with one issue. */
  lemma {:induction false} SingleQuoteRun(rules: seq<Rule>, a: string, b: string)
    requires forall r :: r in rules ==> IsContraction(r)
    requires '\'' !in a && '\'' !in b
    ensures var s := a + "'" + b; var c := ApplyAll(rules, s);
      && (c == Correction(s, 0) || c == Correction(a + [Apostrophe] + b, 1))
      && (c == Correction(s, 0) ==> forall r :: r in rules ==> Apply(r, s) == Correction(s, 0))
    decreases |rules|
  {
    if rules != [] {
      var s := a + "'" + b;
      var t := a + [Apostrophe] + b;
      var init := rules[..|rules| - 1];
      var last := rules[|rules| - 1];
      assert rules == init + [last];
      SingleQuoteRun(init, a, b);
      if ApplyAll(init, s) == Correction(s, 0) {
        SingleQuotePass(last, a, b);
      } else {
        assert IsContraction(last);
        forall j | 0 <= j < |t|
          ensures !IsKey(last, t[j])
        {
          assert t[j] in t;
        }
        NoKeyUnchanged(last, t);
      }
    }
  }

  /** A contraction rule leaves alone a text none of whose straight quotes
      stands in its context. */
  lemma ContractionIdle(r: Rule, s: string)
    requires IsContraction(r)
    requires forall k :: 0 <= k < |s| && s[k] == '\'' ==> !QuoteInContext(r, s, k)
    ensures Apply(r, s) == Correction(s, 0)
  {
    ContractionPass(r, s);
    PassProgress(r, s);
    assert Apply(r, s).text == s;
  }

  /** A stem contraction rule leaves alone a text where no straight quote is
      followed by the first character of its suffix. */
  lemma StemIdle(afterN: bool, suffix: string, s: string)
    requires suffix != []
    requires forall q :: 0 <= q < |s| && s[q] == '\'' ==> q + 1 + |suffix| > |s| || s[q + 1] != suffix[0]
    ensures Apply(StemContraction(afterN, suffix), s) == Correction(s, 0)
  {
    var r := StemContraction(afterN, suffix);
    forall k | 0 <= k < |s| && s[k] == '\''
      ensures !QuoteInContext(r, s, k)
    {
      if k + 1 + |suffix| <= |s| {
        assert s[k + 1..k + 1 + |suffix|][0] == s[k + 1];
      }
    }
    ContractionIdle(r, s);
  }

  /** A fixed-word contraction rule leaves alone a text where no straight
      quote has one of its initials at the right distance before it. */
  lemma WordIdle(initials: string, pre: string, post: string, s: string)
    requires forall q :: 0 <= q < |s| && s[q] == '\'' ==> q < 1 + |pre| || s[q - 1 - |pre|] !in initials
    ensures Apply(WordContraction(initials, pre, post), s) == Correction(s, 0)
  {
    ContractionIdle(WordContraction(initials, pre, post), s);
  }

  /** When the one straight quote of a text stands in the context of some
      contraction rule, the contraction rules turn it into an apostrophe and
      count one issue. */
  lemma ContractionFires(a: string, b: string, k: nat)
    requires '\'' !in a && '\'' !in b
    requires k < |Rules.Contractions| && QuoteInContext(Rules.Contractions[k], a + "'" + b, |a|)
    ensures ApplyAll(Rules.Contractions, a + "'" + b) == Correction(a + [Apostrophe] + b, 1)
  {
    var s := a + "'" + b;
    var r := Rules.Contractions[k];
    ContractionsAreContractions();
    SingleQuoteRun(Rules.Contractions, a, b);
    ContextMatches(r, s, |a|);
    var p: nat :| p <= |a| && p < |s| && MatchAt(r, s, p).Some?;
    PatternAdvances(r, s);
    NoCountIffNoMatch(Pattern(r), s, 0);
    assert Pattern(r)(s, p).Some?;
    assert Apply(r, s).count != 0;
  }

  /** A sentence whose one straight quote stands in the context of a
      contraction rule: the whole rule list turns it into an apostrophe,
      counting one issue, and leaves a settled text. */
  lemma ContractionSentence(s: string, a: string, b: string, k: nat)
    requires s == a + "'" + b && Settled(a) && Settled(b)
    requires k < |Rules.Contractions| && QuoteInContext(Rules.Contractions[k], s, |a|)
    ensures ApplyAll(AllRules, s) == Correction(a + [Apostrophe] + b, 1)
    ensures Settled(a + [Apostrophe] + b)
  {
    var t := a + [Apostrophe] + b;
    SmoothLacks(a);
    SmoothLacks(b);
    ContractionFires(a, b, k);
    SettledAround(a, Apostrophe, b);
    SmoothLacks(t);
    SpellingIgnore(t);
    forall r | r in Rules.Punctuation
      ensures Apply(r, t) == Correction(t, 0)
    {
      SettledPunctuation(r, t);
    }
    AllUnchanged(Rules.Punctuation, t);
    RuleGroups(s, t, t, t, 1, 0, 0);
  }

  // Em dash

  /** Two or three hyphens at p, between two word characters, are an em dash
      match. */
  lemma EmDashMatch(s: string, p: nat, q: nat, h: string)
    requires h == "--" || h == "---"
    requires 0 < p && q == p + |h| < |s| && s[p..q] == h
    requires IsWord(s[p - 1]) && IsWord(s[q])
    ensures Pattern(EmDashRule)(s, p) == Some(Match(q, [EmDash]))
  {
    assert s[p] == h[0] && s[p + 1] == h[1];
    assert s[p..p + 2] == "--";
    LiteralAtIsSlice(s, p, "--");
    if h == "---" {
      assert s[p + 2] == h[2];
    }
  }

  /** Two or three hyphens between two words, with no other hyphen around,
      become one em dash. */
  lemma EmDashBetweenWords(a: string, h: string, c: string)
    requires h == "--" || h == "---"
    requires a != [] && IsWord(a[|a| - 1]) && c != [] && IsWord(c[0])
    requires '-' !in a && '-' !in c
    ensures Apply(EmDashRule, a + h + c) == Correction(a + [EmDash] + c, 1)
  {
    var s := a + h + c;
    var p, q := |a|, |a| + |h|;
    DashPieces(s, a, h, c, p, q);
    KeyFreeSkip(EmDashRule, s, 0, p, a);
    EmDashMatch(s, p, q, h);
    KeyFreeSkip(EmDashRule, s, q, |s|, c);
    assert Subn(Pattern(EmDashRule), s, p) == Correction([EmDash] + c, 1);
  }

  lemma DashPieces(s: string, a: string, h: string, c: string, p: nat, q: nat)
    requires s == a + h + c && p == |a| && q == p + |h| && a != [] && c != []
    ensures q < |s| && s[0..p] == a && s[p..q] == h && s[q..|s|] == c
    ensures s[p - 1] == a[|a| - 1] && s[q] == c[0]
  {
  }

  /** Two or three hyphens between two words of a settled sentence: the
      whole rule list makes them one em dash, counting one issue, and leaves
      a settled text. */
  lemma EmDashSentence(a: string, h: string, c: string)
    requires h == "--" || h == "---"
    requires Settled(a) && Settled(c)
    requires a != [] && IsWord(a[|a| - 1]) && c != [] && IsWord(c[0])
    ensures ApplyAll(AllRules, a + h + c) == Correction(a + [EmDash] + c, 1)
    ensures Settled(a + [EmDash] + c)
  {
    var s := a + h + c;
    var t := a + [EmDash] + c;
    SmoothLacks(a);
    SmoothLacks(c);
    ContractionsIgnore(s);
    SpellingIgnore(s);
    EmDashBetweenWords(a, h, c);
    SettledAround(a, EmDash, c);
    PunctuationOnce(0, s, t, 1);
    RuleGroups(s, s, s, t, 0, 0, 1);
  }

  /** The em dash rule needs two hyphens in a row. */
  lemma EmDashNeedsPair(s: string)
    requires forall p :: 0 <= p < |s| - 1 ==> !(s[p] == '-' && s[p + 1] == '-')
    ensures Apply(EmDashRule, s) == Correction(s, 0)
  {
    PatternAdvances(EmDashRule, s);
    forall p | 0 <= p < |s|
      ensures Pattern(EmDashRule)(s, p).None?
    {
      assert Pattern(EmDashRule)(s, p) == EmDashAt(s, p);
      LiteralAtIsSlice(s, p, "--");
      if p + 2 <= |s| {
        assert s[p..p + 2][0] == s[p] && s[p..p + 2][1] == s[p + 1];
      }
    }
    NoCountIffNoMatch(Pattern(EmDashRule), s, 0);
    assert s[0..] == s;
  }

  // En dash

  /** In a + c with one character between, the characters of a and c keep
      their places. */
  lemma AroundIndex(a: string, x: char, c: string, k: nat)
    requires k < |a + [x] + c|
    ensures (a + [x] + c)[k] == if k < |a| then a[k] else if k == |a| then x else c[k - |a| - 1]
  {
  }

  /** A hyphen between two digit runs of a settled sentence: the whole rule
      list makes it an en dash, counting one issue, and leaves a settled
      text. */
  lemma EnDashSentence(s: string, a: string, c: string)
    requires s == a + "-" + c && Settled(a) && Settled(c)
    requires a != [] && IsDigit(a[|a| - 1]) && c != [] && IsDigit(c[0])
    ensures ApplyAll(AllRules, s) == Correction(a + [EnDash] + c, 1)
    ensures Settled(a + [EnDash] + c)
  {
    var t := a + [EnDash] + c;
    SmoothLacks(a);
    SmoothLacks(c);
    ContractionsIgnore(s);
    SpellingIgnore(s);
    OnlyHyphen(s, a, c);
    EnDashStep1(s, a, c);
    SettledAround(a, EnDash, c);
    OneHyphenNoEmDash(s, |a|);
    EnDashPunctuation(s, t);
    RuleGroups(s, s, s, t, 0, 0, 1);
  }

  /** The punctuation rules over a text with one hyphen, which the en dash
      rule acts on. */
  lemma EnDashPunctuation(s: string, t: string)
    requires Apply(EmDashRule, s) == Correction(s, 0)
    requires Apply(EnDashRule, s) == Correction(t, 1) && Settled(t)
    ensures ApplyAll(Rules.Punctuation, s) == Correction(t, 1)
  {
    PunctuationOnce(1, s, t, 1);
  }

  lemma OneHyphenNoEmDash(s: string, q: nat)
    requires forall k :: 0 <= k < |s| ==> (s[k] == '-' <==> k == q)
    ensures Apply(EmDashRule, s) == Correction(s, 0)
  {
    forall p | 0 <= p < |s| - 1
      ensures !(s[p] == '-' && s[p + 1] == '-')
    {
    }
    EmDashNeedsPair(s);
  }

  /** The one hyphen of a + "-" + c. */
  lemma OnlyHyphen(s: string, a: string, c: string)
    requires s == a + "-" + c && '-' !in a && '-' !in c
    ensures forall k :: 0 <= k < |s| ==> (s[k] == '-' <==> k == |a|)
  {
    forall k | 0 <= k < |s|
      ensures s[k] == '-' <==> k == |a|
    {
      AroundIndex(a, '-', c, k);
      if k < |a| {
        assert s[k] in a;
      } else if k > |a| {
        assert s[k] in c;
      }
    }
  }

  /** The en dash pass over a + "-" + c, between digits. */
  lemma EnDashStep1(s: string, a: string, c: string)
    requires s == a + "-" + c && '-' !in a && '-' !in c
    requires a != [] && IsDigit(a[|a| - 1]) && c != [] && IsDigit(c[0])
    requires forall k :: 0 <= k < |s| ==> (s[k] == '-' <==> k == |a|)
    ensures Apply(EnDashRule, s) == Correction(a + [EnDash] + c, 1)
  {
    var t := a + [EnDash] + c;
    EnDashHere(s, a, c);
    EnDashPass(s);
    var u := Apply(EnDashRule, s);
    forall k | 0 <= k < |s|
      ensures u.text[k] == t[k]
    {
      AroundIndex(a, '-', c, k);
      AroundIndex(a, EnDash, c, k);
    }
    assert u.text == t;
    OccurrencesOnce(a, '-', c);
    OccurrencesAbsent(t, '-');
  }

  /** The hyphen of a + "-" + c, between digits, is a range hyphen, and it is
      the only one. */
  lemma EnDashHere(s: string, a: string, c: string)
    requires s == a + "-" + c && '-' !in a && '-' !in c
    requires a != [] && IsDigit(a[|a| - 1]) && c != [] && IsDigit(c[0])
    requires forall k :: 0 <= k < |s| ==> (s[k] == '-' <==> k == |a|)
    ensures forall k :: 0 <= k < |s| ==> (EnDashSite(s, 0, k) <==> k == |a|)
  {
    var q := |a|;
    var j := RunStart(s, q, IsDigit);
    var b := RunEnd(s, q + 1, IsDigit);
    assert s[q - 1] == a[|a| - 1] && s[q + 1] == c[0];
    assert j < q && b > q + 1;
    assert j == 0 || s[j - 1] != '-';
    assert b == |s| || s[b] != '-';
    assert EnDashSite(s, 0, q);
  }

  // A date

  /** Digits only. */
  predicate Digits(t: string) {
    forall k :: 0 <= k < |t| ==> IsDigit(t[k])
  }

  /** Digits from k on, decided one character at a time: from 0 it is
      Digits itself (DigitsFromIff), kept for concrete texts as SettledFrom
      is. */
  predicate DigitsFrom(t: string, k: nat)
    decreases |t| - k
  {
    k >= |t| || (IsDigit(t[k]) && DigitsFrom(t, k + 1))
  }

  lemma {:induction false} DigitsFromSuffix(t: string, k: nat)
    requires DigitsFrom(t, k)
    ensures forall j :: k <= j < |t| ==> IsDigit(t[j])
    decreases |t| - k
  {
    if k < |t| {
      DigitsFromSuffix(t, k + 1);
    }
  }

  lemma {:induction false} DigitsSuffixFrom(t: string, k: nat)
    requires Digits(t)
    ensures DigitsFrom(t, k)
    decreases |t| - k
  {
    if k < |t| {
      DigitsSuffixFrom(t, k + 1);
    }
  }

  /** The two readings of "digits only" agree. */
  lemma DigitsFromIff(t: string)
    ensures DigitsFrom(t, 0) <==> Digits(t)
  {
    if DigitsFrom(t, 0) {
      DigitsFromSuffix(t, 0);
    }
    if Digits(t) {
      DigitsSuffixFrom(t, 0);
    }
  }

  /** Three digit runs joined by two hyphens, as in a date: no rule changes
      them, since a range hyphen may not touch a second hyphen. */
  lemma DateUnchanged(s: string, a: string, b: string, c: string)
    requires s == a + "-" + b + "-" + c && Digits(a) && Digits(b) && Digits(c) && b != []
    ensures ApplyAll(AllRules, s) == Correction(s, 0)
  {
    var q1 := |a|;
    var q2 := |a| + 1 + |b|;
    forall k | 0 <= k < |s|
      ensures IsDigit(s[k]) || ((k == q1 || k == q2) && s[k] == '-')
    {
      if k < q1 {
        assert s[k] == a[k];
      } else if q1 < k < q2 {
        assert s[k] == b[k - q1 - 1];
      } else if k > q2 {
        assert s[k] == c[k - q2 - 1];
      }
    }
    forall r | r in AllRules
      ensures Apply(r, s) == Correction(s, 0)
    {
      if r == EmDashRule {
        EmDashNeedsPair(s);
      } else if r == EnDashRule {
        DateNoRange(s, q1, q2);
      } else {
        NoKeyUnchanged(r, s);
      }
    }
    AllUnchanged(AllRules, s);
  }

  /** Neither hyphen of a date is a range hyphen. */
  lemma DateNoRange(s: string, q1: nat, q2: nat)
    requires q1 + 1 < q2 < |s| && s[q1] == '-' && s[q2] == '-'
    requires forall k :: 0 <= k < |s| ==> IsDigit(s[k]) || ((k == q1 || k == q2) && s[k] == '-')
    ensures Apply(EnDashRule, s) == Correction(s, 0)
  {
    DateSites(s, q1, q2);
    EnDashPass(s);
    PassProgress(EnDashRule, s);
    assert Apply(EnDashRule, s).text == s;
  }

  lemma DateSites(s: string, q1: nat, q2: nat)
    requires q1 + 1 < q2 < |s| && s[q1] == '-' && s[q2] == '-'
    requires forall k :: 0 <= k < |s| ==> IsDigit(s[k]) || ((k == q1 || k == q2) && s[k] == '-')
    ensures forall k :: 0 <= k < |s| ==> !EnDashSite(s, 0, k)
  {
    RunEndUnique(s, q1 + 1, q2, IsDigit);
    RunStartUnique(s, q1 + 1, q2, IsDigit);
    assert !EnDashSite(s, 0, q1) && !EnDashSite(s, 0, q2);
  }

  // Quotes

  lemma OccurrencesTwice(a: string, x: char, b: string, c: string)
    requires x !in a && x !in b && x !in c
    ensures Occurrences(a + [x] + b + [x] + c, x) == 2
  {
    OccurrencesOnce(a, x, b);
    OccurrencesOnce([], x, c);
    assert [] + [x] + c == [x] + c;
    OccurrencesAppend(a + [x] + b, [x] + c, x);
    assert a + [x] + b + [x] + c == (a + [x] + b) + ([x] + c);
  }

  /** Where the pieces of a + [x] + b + [y] + c sit. */
  lemma QuotedIndex(a: string, x: char, b: string, y: char, c: string, k: nat)
    requires k < |a + [x] + b + [y] + c|
    ensures var q := |a| + 1 + |b|;
      (a + [x] + b + [y] + c)[k] ==
        if k < |a| then a[k] else if k == |a| then x else if k < q then b[k - |a| - 1]
        else if k == q then y else c[k - q - 1]
  {
  }

  /** A quotation of settled words in a settled sentence: the whole rule
      list curls both straight quotes, counting two issues, and leaves a
      settled text. The text before the quotation may end in a blank, as the
      opening quote follows it. */
  lemma QuoteSentence(s: string, a: string, b: string, c: string)
    requires s == a + "\"" + b + "\"" + c && Settled(a + [LeftDoubleQuote]) && Settled(b) && Settled(c)
    requires a == [] || !IsWord(a[|a| - 1])
    requires b != [] && IsWord(b[0]) && IsWord(b[|b| - 1])
    requires c == [] || !IsWord(c[0])
    ensures ApplyAll(AllRules, s) == Correction(a + [LeftDoubleQuote] + b + [RightDoubleQuote] + c, 2)
    ensures Settled(a + [LeftDoubleQuote] + b + [RightDoubleQuote] + c)
  {
    SmoothPrefix(a, LeftDoubleQuote);
    SmoothLacks(a);
    SmoothLacks(b);
    SmoothLacks(c);
    assert '\'' !in s && 'H' !in s;
    ContractionsIgnore(s);
    SpellingIgnore(s);
    SettledJoin(a + [LeftDoubleQuote], b);
    SettledAround(a + [LeftDoubleQuote] + b, RightDoubleQuote, c);
    QuotePunctuation(s, a, b, c);
    RuleGroups(s, s, s, a + [LeftDoubleQuote] + b + [RightDoubleQuote] + c, 0, 0, 2);
  }

  /** What a smooth text begins with is smooth. */
  lemma SmoothPrefix(a: string, x: char)
    requires Smooth(a + [x])
    ensures Smooth(a)
  {
    assert forall k :: 0 <= k < |a| ==> a[k] == (a + [x])[k];
  }

  /** The punctuation rules over a quotation: only the two quote rules act. */
  lemma QuotePunctuation(s: string, a: string, b: string, c: string)
    requires s == a + "\"" + b + "\"" + c
    requires '"' !in a && '"' !in b && '"' !in c && '-' !in a && '-' !in b && '-' !in c
    requires a == [] || !IsWord(a[|a| - 1])
    requires b != [] && IsWord(b[0]) && IsWord(b[|b| - 1])
    requires c == [] || !IsWord(c[0])
    requires Settled(a + [LeftDoubleQuote] + b + [RightDoubleQuote] + c)
    ensures ApplyAll(Rules.Punctuation, s) == Correction(a + [LeftDoubleQuote] + b + [RightDoubleQuote] + c, 2)
  {
    var u := a + [LeftDoubleQuote] + b + ['"'] + c;
    var v := a + [LeftDoubleQuote] + b + [RightDoubleQuote] + c;
    assert s == a + ['"'] + b + ['"'] + c;
    OpenQuoteStep1(s, a, b, c);
    CloseQuoteStep1(u, a, b, c);
    forall r | r in Rules.Punctuation[..2]
      ensures Apply(r, s) == Correction(s, 0)
    {
      NoKeyUnchanged(r, s);
    }
    forall r | r in Rules.Punctuation[4..]
      ensures Apply(r, v) == Correction(v, 0)
    {
      assert r in Rules.Punctuation;
      SettledPunctuation(r, v);
    }
    TwoAct(Rules.Punctuation, 2, s, u, v, 1, 1);
  }

  /** The opening-quote pass over a + " + b + " + c curls the first quote only. */
  lemma OpenQuoteStep1(s: string, a: string, b: string, c: string)
    requires s == a + ['"'] + b + ['"'] + c && '"' !in a && '"' !in b && '"' !in c
    requires a == [] || !IsWord(a[|a| - 1])
    requires b != [] && IsWord(b[0])
    requires c == [] || !IsWord(c[0])
    ensures Apply(OpenQuote, s) == Correction(a + [LeftDoubleQuote] + b + ['"'] + c, 1)
  {
    var u := a + [LeftDoubleQuote] + b + ['"'] + c;
    var q := |a| + 1 + |b|;
    OpenQuotePass(s);
    var o := Apply(OpenQuote, s);
    forall k | 0 <= k < |s|
      ensures o.text[k] == u[k]
    {
      QuotedIndex(a, '"', b, '"', c, k);
      QuotedIndex(a, LeftDoubleQuote, b, '"', c, k);
      if k < |a| {
        assert s[k] in a;
      } else if |a| < k < q {
        assert s[k] in b;
        assert !OpensQuote(s, k);
      } else if k > q {
        assert s[k] in c;
      } else if k == |a| {
        assert s[k + 1] == b[0];
      }
    }
    assert o.text == u;
    OccurrencesTwice(a, '"', b, c);
    assert u == (a + [LeftDoubleQuote] + b) + ['"'] + c;
    OccurrencesOnce(a + [LeftDoubleQuote] + b, '"', c);
  }

  /** The closing-quote pass then curls the second quote. */
  lemma CloseQuoteStep1(u: string, a: string, b: string, c: string)
    requires u == a + [LeftDoubleQuote] + b + ['"'] + c && '"' !in a && '"' !in b && '"' !in c
    requires b != [] && IsWord(b[|b| - 1])
    ensures Apply(CloseQuote, u) == Correction(a + [LeftDoubleQuote] + b + [RightDoubleQuote] + c, 1)
  {
    var v := a + [LeftDoubleQuote] + b + [RightDoubleQuote] + c;
    var q := |a| + 1 + |b|;
    var w := a + [LeftDoubleQuote] + b;
    assert u == w + ['"'] + c && v == w + [RightDoubleQuote] + c;
    CloseQuotePass(u);
    var o := Apply(CloseQuote, u);
    forall k | 0 <= k < |u|
      ensures o.text[k] == v[k]
    {
      AroundIndex(w, '"', c, k);
      AroundIndex(w, RightDoubleQuote, c, k);
      if k < q {
        assert u[k] == w[k];
        QuotedIndex(a, LeftDoubleQuote, b, '"', c, k);
        if k != |a| {
          assert u[k] in a || u[k] in b;
        }
      } else if k > q {
        assert u[k] in c;
      } else {
        assert u[k - 1] == b[|b| - 1];
      }
    }
    assert o.text == v;
    OccurrencesOnce(w, '"', c);
    OccurrencesAbsent(v, '"');
  }

  // Trailing whitespace

  /** Blanks only, at least one. */
  predicate Blanks(w: string) {
    w != [] && forall k :: 0 <= k < |w| ==> IsBlank(w[k])
  }

  /** Between i and j, every blank has a character after it, before j, that
      is not a newline. */
  predicate CleanStretch(s: string, i: nat, j: nat) {
    i <= j <= |s| && forall k :: i <= k < j && IsBlank(s[k]) ==> k + 1 < j && s[k + 1] != '\n'
  }

  /** The reference keeps a clean stretch as it is. */
  lemma StrippedKeeps(s: string, i: nat, j: nat)
    requires CleanStretch(s, i, j)
    ensures Stripped(s, i) == s[i..j] + Stripped(s, j)
    ensures TrailingRuns(s, i) == TrailingRuns(s, j)
  {
    StrippedKeepsText(s, i, j);
    StrippedKeepsRuns(s, i, j);
  }

  lemma {:induction false} StrippedKeepsText(s: string, i: nat, j: nat)
    requires CleanStretch(s, i, j)
    ensures Stripped(s, i) == s[i..j] + Stripped(s, j)
    decreases j - i
  {
    if i == j {
      assert s[i..j] == [];
    } else {
      var b := StretchStep(s, i, j);
      StrippedKeepsText(s, b, j);
      var rest := Stripped(s, j);
      assert s[i..j] == s[i..b] + s[b..j];
      assert s[i..b] + (s[b..j] + rest) == (s[i..b] + s[b..j]) + rest;
    }
  }

  lemma {:induction false} StrippedKeepsRuns(s: string, i: nat, j: nat)
    requires CleanStretch(s, i, j)
    ensures TrailingRuns(s, i) == TrailingRuns(s, j)
    decreases j - i
  {
    if i < j {
      var b := StretchStep(s, i, j);
      StrippedKeepsRuns(s, b, j);
    }
  }

  /** The first step of the reference over a clean stretch: one character
      other than a blank, or a run of blanks that the stretch continues. */
  lemma StretchStep(s: string, i: nat, j: nat) returns (b: nat)
    requires CleanStretch(s, i, j) && i < j
    ensures i < b <= j && CleanStretch(s, b, j)
    ensures Stripped(s, i) == s[i..b] + Stripped(s, b)
    ensures TrailingRuns(s, i) == TrailingRuns(s, b)
  {
    if IsBlank(s[i]) {
      b := RunEnd(s, i, IsBlank);
      assert !IsBlank(s[j - 1]);
      assert IsBlank(s[b - 1]);
      BlanksKept(s, i, b);
    } else {
      b := i + 1;
      NonBlankPrefix(s, i, b);
    }
  }

  /** Blanks followed by a character other than a newline are kept. */
  lemma BlanksKept(s: string, i: nat, b: nat)
    requires i < b < |s| && (forall k :: i <= k < b ==> IsBlank(s[k]))
    requires !IsBlank(s[b]) && s[b] != '\n'
    ensures Stripped(s, i) == s[i..b] + Stripped(s, b)
    ensures TrailingRuns(s, i) == TrailingRuns(s, b)
  {
    RunEndUnique(s, i, b, IsBlank);
    assert IsBlank(s[i]);
  }

  /** A run of blanks before a newline or the end is dropped, and counted. */
  lemma StrippedDrops(s: string, j: nat, b: nat)
    requires j < b <= |s| && (forall k :: j <= k < b ==> IsBlank(s[k]))
    requires b == |s| || s[b] == '\n'
    ensures Stripped(s, j) == Stripped(s, b)
    ensures TrailingRuns(s, j) == 1 + TrailingRuns(s, b)
  {
    RunEndUnique(s, j, b, IsBlank);
  }

  /** A settled piece at i of s is a clean stretch there. */
  lemma SettledStretch(s: string, i: nat, a: string)
    requires i + |a| <= |s| && s[i..i + |a|] == a && Settled(a)
    ensures CleanStretch(s, i, i + |a|)
  {
    forall k | i <= k < i + |a| && IsBlank(s[k])
      ensures k + 1 < i + |a| && s[k + 1] != '\n'
    {
      assert s[k] == a[k - i];
      if k + 1 < i + |a| {
        assert s[k + 1] == a[k + 1 - i];
      }
    }
  }

  /** A settled piece, then blanks before a newline or the end: the
      reference keeps the piece, drops the blanks and counts one run. */
  lemma StripPiece(s: string, i: nat, n: nat, a: string, w: string)
    requires n == i + |a| + |w| <= |s| && s[i..i + |a|] == a && s[i + |a|..n] == w
    requires Settled(a) && Blanks(w)
    requires n == |s| || s[n] == '\n'
    ensures Stripped(s, i) == a + Stripped(s, n)
    ensures TrailingRuns(s, i) == 1 + TrailingRuns(s, n)
  {
    var j := i + |a|;
    KeepPiece(s, i, j, a);
    DropBlanks(s, j, n, w);
  }

  /** A settled piece is kept as it is, with no run counted. */
  lemma KeepPiece(s: string, i: nat, j: nat, a: string)
    requires j == i + |a| <= |s| && s[i..j] == a && Settled(a)
    ensures Stripped(s, i) == a + Stripped(s, j)
    ensures TrailingRuns(s, i) == TrailingRuns(s, j)
  {
    SettledStretch(s, i, a);
    StrippedKeeps(s, i, j);
  }

  /** Blanks before a newline or the end are dropped, and counted. */
  lemma DropBlanks(s: string, j: nat, n: nat, w: string)
    requires n == j + |w| <= |s| && s[j..n] == w && Blanks(w)
    requires n == |s| || s[n] == '\n'
    ensures Stripped(s, j) == Stripped(s, n)
    ensures TrailingRuns(s, j) == 1 + TrailingRuns(s, n)
  {
    BlanksAt(s, j, w);
    StrippedDrops(s, j, n);
  }

  lemma BlanksAt(s: string, i: nat, w: string)
    requires i + |w| <= |s| && s[i..i + |w|] == w && Blanks(w)
    ensures forall k :: i <= k < i + |w| ==> IsBlank(s[k])
  {
    forall k | i <= k < i + |w|
      ensures IsBlank(s[k])
    {
      assert s[k] == w[k - i];
    }
  }

  /** A settled piece that ends the text is kept, with no run counted. */
  lemma StripEnd(s: string, i: nat, e: string)
    requires i + |e| == |s| && s[i..] == e && Settled(e)
    ensures Stripped(s, i) == e && TrailingRuns(s, i) == 0
  {
    assert s[i..i + |e|] == e;
    SettledStretch(s, i, e);
    StrippedKeeps(s, i, |s|);
  }

  /** The punctuation rules over a smooth text that only the trailing
      whitespace rule changes. */
  lemma TrailingPunctuation(s: string, t: string, n: nat)
    requires Smooth(s) && Apply(TrailingWhitespace, s) == Correction(t, n) && Settled(t)
    ensures ApplyAll(AllRules, s) == Correction(t, n)
  {
    SmoothLacks(s);
    ContractionsIgnore(s);
    SpellingIgnore(s);
    forall j | 0 <= j < 5
      ensures Apply(Rules.Punctuation[j], s) == Correction(s, 0)
    {
      if j == 4 {
        NoTripleSettles(s);
      } else {
        NoKeyUnchanged(Rules.Punctuation[j], s);
      }
    }
    PunctuationOnce(5, s, t, n);
    RuleGroups(s, s, s, t, 0, 0, n);
  }

  /** Blanks before the end, or before a newline that starts a settled
      remainder: the whole rule list drops them, counting one issue. */
  lemma TrailingOnce(s: string, a: string, w: string, e: string)
    requires s == a + w + e && Settled(a) && Blanks(w) && Settled(e) && (e == [] || e[0] == '\n')
    ensures ApplyAll(AllRules, s) == Correction(a + e, 1)
    ensures Settled(a + e)
  {
    TrailingOnceText(s, a, w, e);
    SmoothJoin(a, w);
    SmoothJoin(a + w, e);
    SettledJoin(a, e);
    TrailingPunctuation(s, a + e, 1);
  }

  lemma TrailingOnceText(s: string, a: string, w: string, e: string)
    requires s == a + w + e && Settled(a) && Blanks(w) && Settled(e) && (e == [] || e[0] == '\n')
    ensures Apply(TrailingWhitespace, s) == Correction(a + e, 1)
  {
    assert s[0..] == a + w + e;
    StripTail(s, 0, a, w, e);
    TrailingPass(s);
  }

  /** Two such runs of blanks, the second after a newline. */
  lemma TrailingTwice(s: string, a: string, w: string, b: string, x: string, e: string)
    requires s == a + w + b + x + e && Settled(a) && Blanks(w) && Settled(b) && Blanks(x) && Settled(e)
    requires b != [] && b[0] == '\n' && (e == [] || e[0] == '\n')
    ensures ApplyAll(AllRules, s) == Correction(a + b + e, 2)
    ensures Settled(a + b + e)
  {
    TrailingTwiceText(s, a, w, b, x, e);
    SmoothJoin(a, w);
    SmoothJoin(a + w, b);
    SmoothJoin(a + w + b, x);
    SmoothJoin(a + w + b + x, e);
    SettledJoin(a, b);
    SettledJoin(a + b, e);
    TrailingPunctuation(s, a + b + e, 2);
  }

  lemma TrailingTwiceText(s: string, a: string, w: string, b: string, x: string, e: string)
    requires s == a + w + b + x + e && Settled(a) && Blanks(w) && Settled(b) && Blanks(x) && Settled(e)
    requires b != [] && b[0] == '\n' && (e == [] || e[0] == '\n')
    ensures Apply(TrailingWhitespace, s) == Correction(a + b + e, 2)
  {
    TwiceStripped(s, a, w, b, x, e);
    TrailingPass(s);
  }

  lemma TwiceStripped(s: string, a: string, w: string, b: string, x: string, e: string)
    requires s == a + w + b + x + e && Settled(a) && Blanks(w) && Settled(b) && Blanks(x) && Settled(e)
    requires b != [] && b[0] == '\n' && (e == [] || e[0] == '\n')
    ensures Stripped(s, 0) == a + b + e && TrailingRuns(s, 0) == 2
  {
    var n1 := |a| + |w|;
    TwicePieces(s, a, w, b, x, e, n1);
    StripPiece(s, 0, n1, a, w);
    StripTail(s, n1, b, x, e);
    assert a + (b + e) == a + b + e;
  }

  lemma TwicePieces(s: string, a: string, w: string, b: string, x: string, e: string, n1: nat)
    requires s == a + w + b + x + e && n1 == |a| + |w| && b != []
    ensures n1 <= |s| && s[0..|a|] == a && s[|a|..n1] == w && s[n1] == b[0] && s[n1..] == b + x + e
  {
    assert s == (a + w) + (b + x + e);
  }

  /** A settled piece, blanks, and a settled end starting with a newline,
      from i to the end of s. */
  lemma StripTail(s: string, i: nat, a: string, w: string, e: string)
    requires i <= |s| && s[i..] == a + w + e && Settled(a) && Blanks(w) && Settled(e)
    requires e == [] || e[0] == '\n'
    ensures Stripped(s, i) == a + e && TrailingRuns(s, i) == 1
  {
    var n := i + |a| + |w|;
    TailPieces(s, i, n, a, w, e);
    StripPiece(s, i, n, a, w);
    StripEnd(s, n, e);
  }

  lemma TailPieces(s: string, i: nat, n: nat, a: string, w: string, e: string)
    requires i <= |s| && s[i..] == a + w + e && n == i + |a| + |w|
    ensures n <= |s| && s[i..i + |a|] == a && s[i + |a|..n] == w && s[n..] == e && (e != [] ==> s[n] == e[0])
  {
    var t := s[i..];
    assert t[0..|a|] == a && t[|a|..|a| + |w|] == w && t[|a| + |w|..] == e;
  }
}
