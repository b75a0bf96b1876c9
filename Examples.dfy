/** Input, output and count triples from the project's tests of
    `apply_count_issues`, each with the fact that a second run over the
    output changes nothing and counts no issue; and two inputs where a second
    run does find more. */
module Examples {
  import opened Text
  import opened Rules
  import opened Scan
  import opened Keys
  import opened Engine
  import opened Families
  import opened Contractions
  import opened Whitespace
  import opened Dashes
  import opened Progress

  // Contractions

  lemma CantSettled()
    ensures Settled("this can") && Settled("t be right")
  {
    assert SettledFrom("this can", 0);
    SettledFromIsSettled("this can");
    assert SettledFrom("t be right", 0);
    SettledFromIsSettled("t be right");
  }

  lemma CantPieces(s: string)
    requires s == "this can't be right"
    ensures s == "this can" + "'" + "t be right"
  {
  }

  lemma CantContext(s: string)
    requires s == "this can't be right"
    ensures QuoteInContext(Rules.Contractions[0], s, 8)
  {
    assert Rules.Contractions[0] == StemContraction(true, "t");
    assert s[9..10] == "t";
    assert StemContext(true, "t", s, 5, 8);
  }

  /** "this can't be right" becomes "this can’t be right", one issue. */
  lemma CantExample(s: string, t: string)
    requires s == "this can't be right" && t == "this can" + [Apostrophe] + "t be right"
    ensures ApplyAll(AllRules, s) == Correction(t, 1)
    ensures ApplyAll(AllRules, t) == Correction(t, 0)
  {
    CantSettled();
    CantPieces(s);
    CantContext(s);
    ContractionSentence(s, "this can", "t be right", 0);
    SettledUnchanged(t);
  }

  lemma CouldveSettled()
    ensures Settled("could") && Settled("ve been")
  {
    assert SettledFrom("could", 0);
    SettledFromIsSettled("could");
    assert SettledFrom("ve been", 0);
    SettledFromIsSettled("ve been");
  }

  lemma CouldvePieces(s: string)
    requires s == "could've been"
    ensures s == "could" + "'" + "ve been"
  {
  }

  lemma CouldveContext(s: string)
    requires s == "could've been"
    ensures QuoteInContext(Rules.Contractions[1], s, 5)
  {
    assert Rules.Contractions[1] == StemContraction(false, "ve");
    assert s[6..8] == "ve";
    assert StemContext(false, "ve", s, 0, 5);
  }

  /** "could've been" becomes "could’ve been", one issue. */
  lemma CouldveExample(s: string, t: string)
    requires s == "could've been" && t == "could" + [Apostrophe] + "ve been"
    ensures ApplyAll(AllRules, s) == Correction(t, 1)
    ensures ApplyAll(AllRules, t) == Correction(t, 0)
  {
    CouldveSettled();
    CouldvePieces(s);
    CouldveContext(s);
    ContractionSentence(s, "could", "ve been", 1);
    SettledUnchanged(t);
  }

  lemma HesSettled()
    ensures Settled("he") && Settled("s cooking")
  {
    assert SettledFrom("he", 0);
    SettledFromIsSettled("he");
    assert SettledFrom("s cooking", 0);
    SettledFromIsSettled("s cooking");
  }

  lemma HesPieces(s: string)
    requires s == "he's cooking"
    ensures s == "he" + "'" + "s cooking"
  {
  }

  lemma HesContext(s: string)
    requires s == "he's cooking"
    ensures QuoteInContext(Rules.Contractions[2], s, 2)
  {
    assert Rules.Contractions[2] == StemContraction(false, "s");
    assert s[3..4] == "s";
    assert StemContext(false, "s", s, 0, 2);
  }

  /** "he's cooking" becomes "he’s cooking", one issue. */
  lemma HesExample(s: string, t: string)
    requires s == "he's cooking" && t == "he" + [Apostrophe] + "s cooking"
    ensures ApplyAll(AllRules, s) == Correction(t, 1)
    ensures ApplyAll(AllRules, t) == Correction(t, 0)
  {
    HesSettled();
    HesPieces(s);
    HesContext(s);
    ContractionSentence(s, "he", "s cooking", 2);
    SettledUnchanged(t);
  }

  lemma IdSettled()
    ensures Settled("I") && Settled("d rather not")
  {
    assert SettledFrom("I", 0);
    SettledFromIsSettled("I");
    assert SettledFrom("d rather not", 0);
    SettledFromIsSettled("d rather not");
  }

  lemma IdPieces(s: string)
    requires s == "I'd rather not"
    ensures s == "I" + "'" + "d rather not"
  {
  }

  lemma IdContext(s: string)
    requires s == "I'd rather not"
    ensures QuoteInContext(Rules.Contractions[3], s, 1)
  {
    assert Rules.Contractions[3] == StemContraction(false, "d");
    assert s[2..3] == "d";
    assert StemContext(false, "d", s, 0, 1);
  }

  /** "I'd rather not" becomes "I’d rather not", one issue. */
  lemma IdExample(s: string, t: string)
    requires s == "I'd rather not" && t == "I" + [Apostrophe] + "d rather not"
    ensures ApplyAll(AllRules, s) == Correction(t, 1)
    ensures ApplyAll(AllRules, t) == Correction(t, 0)
  {
    IdSettled();
    IdPieces(s);
    IdContext(s);
    ContractionSentence(s, "I", "d rather not", 3);
    SettledUnchanged(t);
  }

  lemma WhatllSettled()
    ensures Settled("what") && Settled("ll it take")
  {
    assert SettledFrom("what", 0);
    SettledFromIsSettled("what");
    assert SettledFrom("ll it take", 0);
    SettledFromIsSettled("ll it take");
  }

  lemma WhatllPieces(s: string)
    requires s == "what'll it take"
    ensures s == "what" + "'" + "ll it take"
  {
  }

  lemma WhatllContext(s: string)
    requires s == "what'll it take"
    ensures QuoteInContext(Rules.Contractions[4], s, 4)
  {
    assert Rules.Contractions[4] == StemContraction(false, "ll");
    assert s[5..7] == "ll";
    assert StemContext(false, "ll", s, 0, 4);
  }

  /** "what'll it take" becomes "what’ll it take", one issue. */
  lemma WhatllExample(s: string, t: string)
    requires s == "what'll it take" && t == "what" + [Apostrophe] + "ll it take"
    ensures ApplyAll(AllRules, s) == Correction(t, 1)
    ensures ApplyAll(AllRules, t) == Correction(t, 0)
  {
    WhatllSettled();
    WhatllPieces(s);
    WhatllContext(s);
    ContractionSentence(s, "what", "ll it take", 4);
    SettledUnchanged(t);
  }

  lemma ImSettled()
    ensures Settled(" I") && Settled("m livid")
  {
    assert SettledFrom(" I", 0);
    SettledFromIsSettled(" I");
    assert SettledFrom("m livid", 0);
    SettledFromIsSettled("m livid");
  }

  lemma ImPieces(s: string)
    requires s == " I'm livid"
    ensures s == " I" + "'" + "m livid"
  {
  }

  lemma ImContext(s: string)
    requires s == " I'm livid"
    ensures QuoteInContext(Rules.Contractions[5], s, 2)
  {
    assert Rules.Contractions[5] == WordContraction("I", "", "m");
    assert s[2..2] == "" && s[3..4] == "m";
    assert WordContext("I", "", "m", s, 1);
  }

  /** " I'm livid" becomes " I’m livid", one issue. */
  lemma ImExample(s: string, t: string)
    requires s == " I'm livid" && t == " I" + [Apostrophe] + "m livid"
    ensures ApplyAll(AllRules, s) == Correction(t, 1)
    ensures ApplyAll(AllRules, t) == Correction(t, 0)
  {
    ImSettled();
    ImPieces(s);
    ImContext(s);
    ContractionSentence(s, " I", "m livid", 5);
    SettledUnchanged(t);
  }

  lemma MaamSettled()
    ensures Settled("yes ma") && Settled("am")
  {
    assert SettledFrom("yes ma", 0);
    SettledFromIsSettled("yes ma");
    assert SettledFrom("am", 0);
    SettledFromIsSettled("am");
  }

  lemma MaamPieces(s: string)
    requires s == "yes ma'am"
    ensures s == "yes ma" + "'" + "am"
  {
  }

  lemma MaamContext(s: string)
    requires s == "yes ma'am"
    ensures QuoteInContext(Rules.Contractions[6], s, 6)
  {
    assert Rules.Contractions[6] == WordContraction("Mm", "a", "am");
    assert s[5..6] == "a" && s[7..9] == "am";
    assert WordContext("Mm", "a", "am", s, 4);
  }

  /** "yes ma'am" becomes "yes ma’am", one issue. */
  lemma MaamExample(s: string, t: string)
    requires s == "yes ma'am" && t == "yes ma" + [Apostrophe] + "am"
    ensures ApplyAll(AllRules, s) == Correction(t, 1)
    ensures ApplyAll(AllRules, t) == Correction(t, 0)
  {
    MaamSettled();
    MaamPieces(s);
    MaamContext(s);
    ContractionSentence(s, "yes ma", "am", 6);
    SettledUnchanged(t);
  }

  lemma CapitalMaamSettled()
    ensures Settled("Yes, Ma") && Settled("am.")
  {
    assert SettledFrom("Yes, Ma", 0);
    SettledFromIsSettled("Yes, Ma");
    assert SettledFrom("am.", 0);
    SettledFromIsSettled("am.");
  }

  lemma CapitalMaamPieces(s: string)
    requires s == "Yes, Ma'am."
    ensures s == "Yes, Ma" + "'" + "am."
  {
  }

  lemma CapitalMaamContext(s: string)
    requires s == "Yes, Ma'am."
    ensures QuoteInContext(Rules.Contractions[6], s, 7)
  {
    assert Rules.Contractions[6] == WordContraction("Mm", "a", "am");
    assert s[6..7] == "a" && s[8..10] == "am";
    assert WordContext("Mm", "a", "am", s, 5);
  }

  /** "Yes, Ma'am." becomes "Yes, Ma’am.", one issue. */
  lemma CapitalMaamExample(s: string, t: string)
    requires s == "Yes, Ma'am." && t == "Yes, Ma" + [Apostrophe] + "am."
    ensures ApplyAll(AllRules, s) == Correction(t, 1)
    ensures ApplyAll(AllRules, t) == Correction(t, 0)
  {
    CapitalMaamSettled();
    CapitalMaamPieces(s);
    CapitalMaamContext(s);
    ContractionSentence(s, "Yes, Ma", "am.", 6);
    SettledUnchanged(t);
  }

  lemma OclockSettled()
    ensures Settled("thirteen o") && Settled("clock")
  {
    assert SettledFrom("thirteen o", 0);
    SettledFromIsSettled("thirteen o");
    assert SettledFrom("clock", 0);
    SettledFromIsSettled("clock");
  }

  lemma OclockPieces(s: string)
    requires s == "thirteen o'clock"
    ensures s == "thirteen o" + "'" + "clock"
  {
  }

  lemma OclockContext(s: string)
    requires s == "thirteen o'clock"
    ensures QuoteInContext(Rules.Contractions[7], s, 10)
  {
    assert Rules.Contractions[7] == WordContraction("o", "", "clock");
    assert s[10..10] == "" && s[11..16] == "clock";
    assert WordContext("o", "", "clock", s, 9);
  }

  /** "thirteen o'clock" becomes "thirteen o’clock", one issue. */
  lemma OclockExample(s: string, t: string)
    requires s == "thirteen o'clock" && t == "thirteen o" + [Apostrophe] + "clock"
    ensures ApplyAll(AllRules, s) == Correction(t, 1)
    ensures ApplyAll(AllRules, t) == Correction(t, 0)
  {
    OclockSettled();
    OclockPieces(s);
    OclockContext(s);
    ContractionSentence(s, "thirteen o", "clock", 7);
    SettledUnchanged(t);
  }

  // Spelling

  /** Text without hyphens, double quotes, periods or blanks passes the
      punctuation rules unchanged. */
  lemma PunctuationIgnore(t: string)
    requires '-' !in t && '"' !in t && '.' !in t && ' ' !in t && '\t' !in t
    ensures ApplyAll(Rules.Punctuation, t) == Correction(t, 0)
  {
    NoKeysUnchanged(Rules.Punctuation, t);
  }

  lemma HawaiiMatch(s: string, t: string)
    requires s == "Hawaii" && t == "Hawai" + [Okina] + "i"
    ensures Apply(HawaiiSpelling, s) == Correction(t, 1)
  {
    PatternAdvances(HawaiiSpelling, s);
    assert Pattern(HawaiiSpelling)(s, 0) == HawaiiAt(s, 0);
    assert LiteralAt(s, 0, "Hawaii");
  }

  /** The corrected spelling is no match of the spelling rule. */
  lemma HawaiiSpellingSettled(t: string)
    requires t == "Hawai" + [Okina] + "i"
    ensures ApplyAll(Rules.Spelling, t) == Correction(t, 0)
  {
    assert Pattern(HawaiiSpelling)(t, 0) == HawaiiAt(t, 0);
    assert !LiteralAt(t, 0, "Hawai'i") && !LiteralAt(t, 0, "Hawaii");
    KeyFreeSkip(HawaiiSpelling, t, 1, |t|, t[1..]);
    assert [t[0]] + t[1..] == t;
  }

  lemma HawaiiKeys(s: string, t: string)
    requires s == "Hawaii" && t == "Hawai" + [Okina] + "i"
    ensures '\'' !in s && '\'' !in t
    ensures '-' !in t && '"' !in t && '.' !in t && ' ' !in t && '\t' !in t
  {
  }

  lemma HawaiiSpellingGroup(s: string, t: string)
    requires s == "Hawaii" && t == "Hawai" + [Okina] + "i"
    ensures ApplyAll(Rules.Spelling, s) == Correction(t, 1)
  {
    HawaiiMatch(s, t);
    assert Rules.Spelling == [HawaiiSpelling] && [HawaiiSpelling][..0] == [];
  }

  /** "Hawaii" becomes "Hawaiʻi", one issue. */
  lemma HawaiiExample(s: string, t: string)
    requires s == "Hawaii" && t == "Hawai" + [Okina] + "i"
    ensures ApplyAll(AllRules, s) == Correction(t, 1)
    ensures ApplyAll(AllRules, t) == Correction(t, 0)
  {
    HawaiiKeys(s, t);
    ContractionsIgnore(s);
    HawaiiSpellingGroup(s, t);
    PunctuationIgnore(t);
    RuleGroups(s, s, t, t, 0, 1, 0);
    ContractionsIgnore(t);
    HawaiiSpellingSettled(t);
    RuleGroups(t, t, t, t, 0, 0, 0);
  }

  // Punctuation

  lemma OneWaySettled()
    ensures Settled("One way") && Settled("to em dash")
  {
    assert SettledFrom("One way", 0);
    SettledFromIsSettled("One way");
    assert SettledFrom("to em dash", 0);
    SettledFromIsSettled("to em dash");
  }

  lemma OneWayPieces(s: string)
    requires s == "One way--to em dash"
    ensures s == "One way" + "--" + "to em dash"
  {
  }

  /** "One way--to em dash" becomes "One way—to em dash", one issue. */
  lemma OneWayExample(s: string, t: string)
    requires s == "One way--to em dash" && t == "One way" + [EmDash] + "to em dash"
    ensures ApplyAll(AllRules, s) == Correction(t, 1)
    ensures ApplyAll(AllRules, t) == Correction(t, 0)
  {
    OneWaySettled();
    OneWayPieces(s);
    EmDashSentence("One way", "--", "to em dash");
    SettledUnchanged(t);
  }

  lemma AnotherWaySettled()
    ensures Settled("Another") && Settled("way")
  {
    assert SettledFrom("Another", 0);
    SettledFromIsSettled("Another");
    assert SettledFrom("way", 0);
    SettledFromIsSettled("way");
  }

  lemma AnotherWayPieces(s: string)
    requires s == "Another---way"
    ensures s == "Another" + "---" + "way"
  {
  }

  /** "Another---way" becomes "Another—way", one issue. */
  lemma AnotherWayExample(s: string, t: string)
    requires s == "Another---way" && t == "Another" + [EmDash] + "way"
    ensures ApplyAll(AllRules, s) == Correction(t, 1)
    ensures ApplyAll(AllRules, t) == Correction(t, 0)
  {
    AnotherWaySettled();
    AnotherWayPieces(s);
    EmDashSentence("Another", "---", "way");
    SettledUnchanged(t);
  }

  lemma RangeSettled()
    ensures Settled("Range: 25") && Settled("28")
  {
    assert SettledFrom("Range: 25", 0);
    SettledFromIsSettled("Range: 25");
    assert SettledFrom("28", 0);
    SettledFromIsSettled("28");
  }

  lemma RangePieces(s: string)
    requires s == "Range: 25-28"
    ensures s == "Range: 25" + "-" + "28"
  {
  }

  /** "Range: 25-28" becomes "Range: 25–28", one issue. */
  lemma RangeExample(s: string, t: string)
    requires s == "Range: 25-28" && t == "Range: 25" + [EnDash] + "28"
    ensures ApplyAll(AllRules, s) == Correction(t, 1)
    ensures ApplyAll(AllRules, t) == Correction(t, 0)
  {
    RangeSettled();
    RangePieces(s);
    EnDashSentence(s, "Range: 25", "28");
    SettledUnchanged(t);
  }

  lemma DateDigits()
    ensures Digits("2025") && Digits("01")
  {
    assert DigitsFrom("2025", 0);
    DigitsFromSuffix("2025", 0);
    assert DigitsFrom("01", 0);
    DigitsFromSuffix("01", 0);
  }

  lemma DatePieces(s: string)
    requires s == "2025-01-01"
    ensures s == "2025" + "-" + "01" + "-" + "01"
  {
  }

  /** "2025-01-01" is left as it is, with no issue: a date is not a range. */
  lemma DateExample(s: string)
    requires s == "2025-01-01"
    ensures ApplyAll(AllRules, s) == Correction(s, 0)
  {
    DateDigits();
    DatePieces(s);
    DateUnchanged(s, "2025", "01", "01");
  }

  lemma OpeningSettled()
    ensures Settled("Time for \U{201C}")
  {
    assert SettledFrom("Time for \U{201C}", 0);
    SettledFromIsSettled("Time for \U{201C}");
  }

  lemma CurlySettled()
    ensures Settled("Time for " + [LeftDoubleQuote]) && Settled("curly quotes") && Settled("")
  {
    OpeningSettled();
    assert "Time for \U{201C}" == "Time for " + [LeftDoubleQuote];
    assert SettledFrom("curly quotes", 0);
    SettledFromIsSettled("curly quotes");
  }

  lemma CurlyPieces(s: string)
    requires s == "Time for \"curly quotes\""
    ensures s == "Time for " + "\"" + "curly quotes" + "\"" + ""
  {
  }

  /** 'Time for "curly quotes"' becomes "Time for “curly quotes”", two issues. */
  lemma CurlyExample(s: string, t: string)
    requires s == "Time for \"curly quotes\""
    requires t == "Time for " + [LeftDoubleQuote] + "curly quotes" + [RightDoubleQuote] + ""
    ensures ApplyAll(AllRules, s) == Correction(t, 2)
    ensures ApplyAll(AllRules, t) == Correction(t, 0)
  {
    CurlySettled();
    CurlyPieces(s);
    QuoteSentence(s, "Time for ", "curly quotes", "");
    SettledUnchanged(t);
  }

  // Trailing whitespace

  lemma WordsSettled()
    ensures Settled("Trailing") && Settled(" whitespace")
  {
    assert SettledFrom("Trailing", 0);
    SettledFromIsSettled("Trailing");
    assert SettledFrom(" whitespace", 0);
    SettledFromIsSettled(" whitespace");
  }

  lemma LineSettled()
    ensures Settled("Trailing whitespace")
  {
    WordsSettled();
    SettledJoin("Trailing", " whitespace");
    assert "Trailing" + " whitespace" == "Trailing whitespace";
  }

  lemma WhitespaceSettled()
    ensures Settled("Trailing whitespace") && Settled("") && Settled("\n\n") && Blanks("    ")
  {
    LineSettled();
    assert SettledFrom("\n\n", 0);
    SettledFromIsSettled("\n\n");
  }

  lemma WhitespacePieces(s: string, s': string)
    requires s == "Trailing whitespace    " && s' == "Trailing whitespace    \n\n"
    ensures s == "Trailing whitespace" + "    " + "" && s' == "Trailing whitespace" + "    " + "\n\n"
  {
  }

  /** "Trailing whitespace    " loses its trailing blanks, one issue, and so
      does the same line before two newlines. */
  lemma WhitespaceExample(s: string, s': string, t: string, t': string)
    requires s == "Trailing whitespace    " && t == "Trailing whitespace" + ""
    requires s' == "Trailing whitespace    \n\n" && t' == "Trailing whitespace" + "\n\n"
    ensures ApplyAll(AllRules, s) == Correction(t, 1)
    ensures ApplyAll(AllRules, t) == Correction(t, 0)
    ensures ApplyAll(AllRules, s') == Correction(t', 1)
    ensures ApplyAll(AllRules, t') == Correction(t', 0)
  {
    WhitespaceSettled();
    WhitespacePieces(s, s');
    TrailingOnce(s, "Trailing whitespace", "    ", "");
    SettledUnchanged(t);
    TrailingOnce(s', "Trailing whitespace", "    ", "\n\n");
    SettledUnchanged(t');
  }

  lemma IndentedSettled()
    ensures Settled("\n  whitespace")
  {
    var b := "\n  whitespace";
    assert SettledFrom(b, 6);
    assert SettledFrom(b, 0);
    SettledFromIsSettled(b);
  }

  lemma TwoLinesSettled()
    ensures Settled("Trailing") && Settled("\n  whitespace") && Settled("\n") && Blanks(" ") && Blanks("\t")
  {
    assert SettledFrom("Trailing", 0);
    SettledFromIsSettled("Trailing");
    IndentedSettled();
  }

  lemma TwoLinesPieces(s: string)
    requires s == "Trailing \n  whitespace\t\n"
    ensures s == "Trailing" + " " + "\n  whitespace" + "\t" + "\n"
  {
  }

  /** "Trailing \n  whitespace\t\n" becomes "Trailing\n  whitespace\n", two
      issues: the blank before each newline goes, the indentation stays. */
  lemma TwoLinesExample(s: string, t: string)
    requires s == "Trailing \n  whitespace\t\n" && t == "Trailing" + "\n  whitespace" + "\n"
    ensures ApplyAll(AllRules, s) == Correction(t, 2)
    ensures ApplyAll(AllRules, t) == Correction(t, 0)
  {
    TwoLinesSettled();
    TwoLinesPieces(s);
    TrailingTwice(s, "Trailing", " ", "\n  whitespace", "\t", "\n");
    SettledUnchanged(t);
  }

  // A second run that finds more

  /** In "a-- \n" a blank follows the hyphens, so the em dash rule finds
      nothing. */
  lemma BlankAfterHyphens(s: string)
    requires s == "a-- \n"
    ensures Apply(EmDashRule, s) == Correction(s, 0)
  {
    PatternAdvances(EmDashRule, s);
    forall p | 0 <= p < |s|
      ensures Pattern(EmDashRule)(s, p).None?
    {
      assert Pattern(EmDashRule)(s, p) == EmDashAt(s, p);
      EmDashAtIff(s, p);
    }
    NoCountIffNoMatch(Pattern(EmDashRule), s, 0);
    assert s[0..] == s;
  }

  /** A text without digits holds no numeric range. */
  lemma NoDigitsNoRange(s: string)
    requires forall k :: 0 <= k < |s| ==> !IsDigit(s[k])
    ensures Apply(EnDashRule, s) == Correction(s, 0)
  {
    EnDashPass(s);
    forall k | 0 <= k < |s|
      ensures !EnDashSite(s, 0, k)
    {
    }
    PassProgress(EnDashRule, s);
    assert Apply(EnDashRule, s).text == s;
  }

  /** The trailing whitespace rule drops the blank before the newline. */
  lemma FirstRunTrailing(s: string, t: string)
    requires s == "a-- \n" && t == "a--\n"
    ensures Apply(TrailingWhitespace, s) == Correction(t, 1)
  {
    assert RunEnd(s, 4, IsBlank) == 4;
    assert RunEnd(s, 3, IsBlank) == 4;
    TrailingToNewline(s, 0, 3, 4, 5);
    TrailingPass(s);
    assert s[0..3] + "\n" == t;
  }

  /** On "a-- \n" only the trailing whitespace rule acts. */
  lemma FirstRun(s: string, t: string)
    requires s == "a-- \n" && t == "a--\n"
    ensures ApplyAll(AllRules, s) == Correction(t, 1)
  {
    ContractionsIgnore(s);
    SpellingIgnore(s);
    FirstRunIdle(s);
    FirstRunTrailing(s, t);
    OnlyOneActs(Rules.Punctuation, 5, s, t, 1);
    RuleGroups(s, s, s, t, 0, 0, 1);
  }

  /** On "a-- \n" the punctuation rules before the last find nothing. */
  lemma FirstRunIdle(s: string)
    requires s == "a-- \n"
    ensures forall r :: r in Rules.Punctuation[..5] ==> Apply(r, s) == Correction(s, 0)
  {
    assert Rules.Punctuation[..5] == [EmDashRule, EnDashRule, OpenQuote, CloseQuote, EllipsisRule];
    BlankAfterHyphens(s);
    NoDigitsNoRange(s);
    NoKeyUnchanged(OpenQuote, s);
    NoKeyUnchanged(CloseQuote, s);
    NoKeyUnchanged(EllipsisRule, s);
  }

  /** In "a--\n" a newline follows the hyphens: an em dash, the newline kept. */
  lemma NewlineAfterHyphens(t: string, u: string)
    requires t == "a--\n" && u == "a" + [EmDash] + "\n"
    ensures Apply(EmDashRule, t) == Correction(u, 1)
  {
    PatternAdvances(EmDashRule, t);
    var f := Pattern(EmDashRule);
    assert LiteralAt(t, 1, "--");
    assert f(t, 0) == EmDashAt(t, 0) == None;
    assert f(t, 1) == EmDashAt(t, 1) == Some(Match(4, [EmDash, '\n']));
    assert Subn(f, t, 1) == Correction([EmDash, '\n'], 1);
  }

  lemma DashedLineSettled(u: string)
    requires u == "a" + [EmDash] + "\n"
    ensures Settled(u)
  {
    assert SettledFrom(u, 2);
    assert SettledFrom(u, 0);
    SettledFromIsSettled(u);
  }

  /** "a-- \n" gives "a--\n" with one issue, and a second run over that gives
      "a—\n" with one more: the blank kept the em dash rule from matching,
      and the trailing whitespace rule, which runs after it, removes the
      blank. A third run changes nothing. */
  lemma SecondRunExample(s: string, t: string, u: string)
    requires s == "a-- \n" && t == "a--\n" && u == "a" + [EmDash] + "\n"
    ensures ApplyAll(AllRules, s) == Correction(t, 1)
    ensures ApplyAll(AllRules, t) == Correction(u, 1) && t != u
    ensures ApplyAll(AllRules, u) == Correction(u, 0)
  {
    FirstRun(s, t);
    ContractionsIgnore(t);
    SpellingIgnore(t);
    NewlineAfterHyphens(t, u);
    DashedLineSettled(u);
    PunctuationOnce(0, t, u, 1);
    RuleGroups(t, t, t, u, 0, 0, 1);
    SettledUnchanged(u);
  }

  // A contraction whose match hides the next one

  lemma StackedQuotes(s: string, t: string)
    requires s == "a's's" && t == "a" + [Apostrophe] + "s's"
    ensures forall q :: 0 <= q < |s| && s[q] == '\'' ==> q == 1 || q == 3
    ensures forall q :: 0 <= q < |t| && t[q] == '\'' ==> q == 3
  {
  }

  /** In "a's's" the `'s` rule matches at 0 and resumes after "a's", past the
      stem of the second contraction: one quote turned. */
  lemma StackedPass(s: string, t: string)
    requires s == "a's's" && t == "a" + [Apostrophe] + "s's"
    ensures Apply(Rules.Contractions[2], s) == Correction(t, 1)
  {
    var r := StemContraction(false, "s");
    assert Rules.Contractions[2] == r;
    PatternAdvances(r, s);
    var f := Pattern(r);
    assert s[0..1] == "a" && s[2..3] == "s";
    assert StemContext(false, "s", s, 0, 1);
    StemContractionAtIff(false, "s", s, 0);
    assert f(s, 0) == StemContractionAt(false, "s", s, 0) == Some(Match(3, "a" + [Apostrophe] + "s"));
    assert f(s, 3) == None;
    assert RunEnd(s, 5, IsAsciiLetter) == 5;
    assert f(s, 4) == StemContractionAt(false, "s", s, 4) == None;
    assert Subn(f, s, 4) == Correction("s", 0);
    assert Subn(f, s, 3) == Correction("'s", 0);
  }

  /** The rules before the `'s` rule find nothing in "a's's". */
  lemma StackedBefore(s: string, t: string)
    requires s == "a's's" && t == "a" + [Apostrophe] + "s's"
    ensures forall r :: r in Rules.Contractions[..2] ==> Apply(r, s) == Correction(s, 0)
  {
    StackedQuotes(s, t);
    assert Rules.Contractions[..2] == [StemContraction(true, "t"), StemContraction(false, "ve")];
    StemIdle(true, "t", s);
    StemIdle(false, "ve", s);
  }

  /** The rules before the `'s` rule find nothing in "a’s's" either. */
  lemma StackedBeforeAgain(s: string, t: string)
    requires s == "a's's" && t == "a" + [Apostrophe] + "s's"
    ensures forall r :: r in Rules.Contractions[..2] ==> Apply(r, t) == Correction(t, 0)
  {
    StackedQuotes(s, t);
    assert Rules.Contractions[..2] == [StemContraction(true, "t"), StemContraction(false, "ve")];
    StemIdle(true, "t", t);
    StemIdle(false, "ve", t);
  }

  /** The rules after the `'s` rule find nothing in "a’s's". */
  lemma StackedAfter(s: string, t: string)
    requires s == "a's's" && t == "a" + [Apostrophe] + "s's"
    ensures forall r :: r in Rules.Contractions[3..] ==> Apply(r, t) == Correction(t, 0)
  {
    StackedQuotes(s, t);
    assert Rules.Contractions[3..] == [StemContraction(false, "d"), StemContraction(false, "ll"),
      WordContraction("I", "", "m"), WordContraction("Mm", "a", "am"), WordContraction("o", "", "clock")];
    StemIdle(false, "d", t);
    StemIdle(false, "ll", t);
    WordIdle("I", "", "m", t);
    WordIdle("Mm", "a", "am", t);
    WordIdle("o", "", "clock", t);
  }

  lemma StackedContractions(s: string, t: string)
    requires s == "a's's" && t == "a" + [Apostrophe] + "s's"
    ensures ApplyAll(Rules.Contractions, s) == Correction(t, 1)
  {
    StackedBefore(s, t);
    StackedPass(s, t);
    StackedAfter(s, t);
    OnlyOneActs(Rules.Contractions, 2, s, t, 1);
  }

  /** Neither the spelling rule nor a punctuation rule has a key in t. */
  lemma StackedRest(t: string)
    requires 'H' !in t && '-' !in t && '"' !in t && '.' !in t && ' ' !in t && '\t' !in t
    ensures ApplyAll(Rules.Spelling, t) == Correction(t, 0)
    ensures ApplyAll(Rules.Punctuation, t) == Correction(t, 0)
  {
    SpellingIgnore(t);
    PunctuationIgnore(t);
  }

  lemma StackedRestFirst(t: string)
    requires t == "a" + [Apostrophe] + "s's"
    ensures ApplyAll(Rules.Spelling, t) == Correction(t, 0)
    ensures ApplyAll(Rules.Punctuation, t) == Correction(t, 0)
  {
    StackedRest(t);
  }

  lemma StackedRestSecond(u: string)
    requires u == "a" + [Apostrophe] + "s" + [Apostrophe] + "s"
    ensures ApplyAll(Rules.Spelling, u) == Correction(u, 0)
    ensures ApplyAll(Rules.Punctuation, u) == Correction(u, 0)
  {
    StackedRest(u);
  }

  /** Nothing but the `'s` rule acts on "a's's" in the first run. */
  lemma StackedFirstRun(s: string, t: string)
    requires s == "a's's" && t == "a" + [Apostrophe] + "s's"
    ensures ApplyAll(AllRules, s) == Correction(t, 1)
  {
    StackedContractions(s, t);
    StackedRestFirst(t);
    RuleGroups(s, t, t, t, 1, 0, 0);
  }

  /** In the second run the quote left over is alone and in context. */
  lemma StackedTurn(s: string, t: string, u: string)
    requires s == "a's's" && t == "a" + [Apostrophe] + "s's"
    requires u == "a" + [Apostrophe] + "s" + [Apostrophe] + "s"
    ensures Apply(Rules.Contractions[2], t) == Correction(u, 1)
  {
    var r := StemContraction(false, "s");
    assert Rules.Contractions[2] == r;
    StackedQuotes(s, t);
    assert t[4..5] == "s";
    assert StemContext(false, "s", t, 2, 3);
    ContractionTurnsLoneQuote(r, t, 3);
    assert t[..3] + [Apostrophe] + t[4..] == u;
  }

  /** The contraction rules after the `'s` rule find no straight quote in
      "a’s’s". */
  lemma StackedAfterAgain(u: string)
    requires u == "a" + [Apostrophe] + "s" + [Apostrophe] + "s"
    ensures forall r :: r in Rules.Contractions[3..] ==> Apply(r, u) == Correction(u, 0)
  {
    forall r | r in Rules.Contractions[3..]
      ensures Apply(r, u) == Correction(u, 0)
    {
      NoKeyUnchanged(r, u);
    }
  }

  lemma StackedContractionsAgain(s: string, t: string, u: string)
    requires s == "a's's" && t == "a" + [Apostrophe] + "s's"
    requires u == "a" + [Apostrophe] + "s" + [Apostrophe] + "s"
    ensures ApplyAll(Rules.Contractions, t) == Correction(u, 1)
  {
    StackedBeforeAgain(s, t);
    StackedTurn(s, t, u);
    StackedAfterAgain(u);
    OnlyOneActs(Rules.Contractions, 2, t, u, 1);
  }

  lemma StackedSecondRun(s: string, t: string, u: string)
    requires s == "a's's" && t == "a" + [Apostrophe] + "s's"
    requires u == "a" + [Apostrophe] + "s" + [Apostrophe] + "s"
    ensures ApplyAll(AllRules, t) == Correction(u, 1)
  {
    StackedContractionsAgain(s, t, u);
    StackedRestSecond(u);
    RuleGroups(t, u, u, u, 1, 0, 0);
  }

  lemma StackedSettled(u: string)
    requires u == "a" + [Apostrophe] + "s" + [Apostrophe] + "s"
    ensures Settled(u)
  {
    assert SettledFrom(u, 3);
    assert SettledFrom(u, 0);
    SettledFromIsSettled(u);
  }

  /** "a's's" gives "a’s's" with one issue, and a second run gives "a’s’s"
      with one more: the match of the first contraction ends where the stem
      of the second begins, so the scan has passed it. A third run changes
      nothing. */
  lemma StackedContractionExample(s: string, t: string, u: string)
    requires s == "a's's" && t == "a" + [Apostrophe] + "s's"
    requires u == "a" + [Apostrophe] + "s" + [Apostrophe] + "s"
    ensures ApplyAll(AllRules, s) == Correction(t, 1)
    ensures ApplyAll(AllRules, t) == Correction(u, 1) && t != u
    ensures ApplyAll(AllRules, u) == Correction(u, 0)
  {
    StackedFirstRun(s, t);
    StackedSecondRun(s, t, u);
    StackedSettled(u);
    SettledUnchanged(u);
  }
}
