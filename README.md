# typography.py rule engine, in Dafny

`typography.py` flags ASCII typography that reads better as Unicode. Its core
is the list `RULES` of fifteen (regular expression, replacement) pairs and the
function `apply_count_issues`:

- `RULES` holds eight contraction rules (a straight `'` that should be ’), one
  spelling rule (the 'okina in Hawaiʻi) and six punctuation rules: em dash,
  en dash, opening quote, closing quote, ellipsis and trailing whitespace.
- `apply_count_issues` runs every rule over the text with `re.subn`, in list
  order, each rule on the previous rule's output. It returns the final text and
  the total number of substitutions.

This project models that core and proves what each rule does, what the engine
does with them, and the input/output/count examples of the project's tests.

The modules:

- `Text`: character classes (`\w`, `\d`, `[ \t]`), `\b`, and run scanning.
- `Rules`: the rule datatype, the three tables and `AllRules`. Each pattern has
  its own matcher that returns the match Python's backtracking engine finds at a
  position. `Subn` is the left-to-right scan of `re.subn`. Lookarounds and `\b`
  are read against the pass input, never against the partly rewritten text.
- `Scan`: generic facts about `Subn`:
  - when the count is zero;
  - the count as the number of match positions;
  - character-count bookkeeping;
  - single-character edits ("point edits").
- `Contractions`, `Spelling`, `Dashes`, `Quotes`, `Ellipses` and `Whitespace`:
  each rule's pass, proved against an independent reference definition
  (`EnDashed`, `OpenQuoted`, `CloseQuoted`, `Collapsed`/`Thirds`,
  `Stripped`/`TrailingRuns`) or against character counts. For the opening
  quote, closing quote, ellipsis and trailing whitespace rules, the module
  also proves that a second pass of the same rule finds nothing.
- `Keys` and `Progress`:
  - a rule changes nothing in a text that lacks its key character;
  - every substitution raises a weight (introduced typographic characters minus
    blanks). So a pass, and the whole engine, counts zero issues exactly when it
    returns its input unchanged.
- `Engine`:
  - `ApplyAll`, the fold over the rule list;
  - `ApplyCountIssues`, the loop of the source, proved equal to the fold;
  - lemmas on how runs over lists of rules compose.
- `Families`: what the whole engine does on families of sentences (one
  contraction, one em dash, one numeric range, a date, a quoted phrase, one or
  two trailing blank runs), for any "settled" surrounding text.
- `Examples`: the eighteen test triples. For each, the engine returns the
  expected text and count, and a second run over that text returns it unchanged
  with count 0. It also holds two inputs where a second run finds one more
  issue: "a-- \n" and "a's's".

## Model

| member | source | states |
|---|---|---|
| Rules.PatternAdvances | typography.py:25-56 | No rule matches the empty string: every match ends after its start and within the text, so the `re.subn` scan always moves forward. |
| Engine.ApplyCountIssues | typography.py:61-70 | The loop returns exactly the fold `ApplyAll(AllRules, contents)`: every rule in `RULES` order, each on the previous output, with the counts summed. The count is 0 exactly when the text is returned unchanged. The result has no blank before a newline or at its end. |
| Engine.ApplyAllExtend | typography.py:67-69 | One more loop iteration runs the next rule on the text so far and adds its count. |
| Engine.ApplyAllAppend | typography.py:34 | Running a concatenation of rule lists is running the first list, then the second on its output; the counts add up. |
| Engine.RuleGroups | typography.py:14-58 | Running `RULES` is running the contraction table, then the spelling table, then the punctuation table, each on the previous output; the counts add up. |
| Engine.RunProgress | typography.py:66-70 | Over any list of rules, the weight rises by at least the count. The count is 0 exactly when the text comes back unchanged. |
| Engine.EngineStripsTrailing | typography.py:56 | The engine's result has no blank before a newline or at its end, because the last rule strips them. |
| Engine.NoKeysUnchanged | typography.py:66-70 | A text that holds no key character of any rule comes back unchanged, with count 0. |
| Engine.OnlyOneActs | typography.py:67-69 | If only the k-th rule of a list changes the text it is given, the run returns that rule's result and count. |
| Engine.TwoAct | typography.py:67-69 | If only two consecutive rules act, the run returns the second rule's result on the first's output, with the counts summed. |
| Scan.NoCountIffNoMatch | typography.py:68 | A `re.subn` scan counts 0 exactly when the pattern matches at no position, and then returns the text unchanged. |
| Scan.SubnSkip | typography.py:68 | Positions where the pattern does not match are copied through unchanged. |
| Scan.CountIsMatchPositions | typography.py:68 | When matches cannot overlap, the count is the number of positions where the pattern matches. |
| Scan.SubnShifts | typography.py:68 | If every match changes the number of x's by between lo and hi, the pass changes it by between lo·count and hi·count. |
| Scan.UnchangedIffNoCount | typography.py:68 | For a pattern whose every match raises the weight, the pass counts 0 exactly when the text is unchanged. |
| Scan.PointPass | typography.py:68 | If every match only turns one `from` character into `to`, the output has the input's length and differs from it only at such places. |
| Scan.PointPassSites | typography.py:68 | Every position where the output of such a pass differs from the input lies inside a match that starts at or before it and rewrites that position. |
| Scan.PointPassTurnsLone | typography.py:68 | If a match starts at or before the only `from` character, at q, the output has `to` at q. |
| Scan.PointPassCounts | typography.py:68 | For such a pattern, the output has `count` more `to` and `count` fewer `from` than the input. |
| Scan.RetouchKeepsBoundaries | typography.py:50-52 | Replacing non-word characters by non-word characters keeps every `\b`. The quote modules use it to show that a second opening- or closing-quote pass sees the same boundaries. |
| Keys.MatchHasKey | typography.py:25-56 | Every match of a rule covers at least one character of the rule's key: `'`, `H`, `-`, `"`, `.`, or a blank. |
| Keys.NoKeyUnchanged | typography.py:68 | A rule leaves a text with none of its key characters unchanged, with count 0. |
| Keys.MatchStartsAtKey | typography.py:39 | Matches of the spelling, em dash, opening-quote and ellipsis rules start at a key character. |
| Keys.KeyFreeSkip | typography.py:68 | For those rules, a piece of text free of key characters is copied through unchanged. |
| Progress.MatchRaisesWeight | typography.py:25-56 | Every match of every rule strictly raises the weight. |
| Progress.PassProgress | typography.py:68 | One pass raises the weight by at least its count. It counts 0 exactly when the text is unchanged. |
| Contractions.ContractionsAreContractions | typography.py:24-33 | Every entry of the contraction table is a stem or fixed-word contraction rule. |
| Contractions.StemContractionAtIff | typography.py:25-29 | A stem contraction pattern matches at p exactly when there is a quote position q with: a word boundary at p, letters from p to q (ending in `n` for `'t`), a `'` at q, the suffix after it, and a word boundary after the suffix. The match then ends after the suffix and replaces the quote by ’. |
| Contractions.WordContractionAtIff | typography.py:30-32 | A fixed-word pattern matches at p exactly when there is a word boundary at p, one of its initials, the rest of the word before the quote, a `'`, the rest after it, and a word boundary. The match then replaces the quote by ’. |
| Contractions.ContractionMatchIsPointEdit | typography.py:25-32 | A contraction match turns exactly one `'` into ’ and copies the rest of the word. |
| Contractions.ContractionPass | typography.py:25-32 | A contraction pass keeps the length and changes only `'` into ’. It adds `count` ’ and removes `count` straight quotes. Every position it changes is a `'` standing in the rule's context (`QuoteInContext`, the condition of the two lemmas above). |
| Contractions.ContractionTurnsLoneQuote | typography.py:25-32 | Conversely, when the only `'` of a text stands in the rule's context, the pass turns it into ’ and counts 1. |
| Spelling.HawaiiAtIff | typography.py:39 | The spelling pattern matches at p exactly when "Hawaii" or "Hawai'i" starts there as a whole word, with a word boundary before and after. |
| Spelling.HawaiiShape | typography.py:39 | A match is the whole word "Hawaii" or "Hawai'i", replaced by "Hawaiʻi" with the 'okina (U+02BB). |
| Spelling.HawaiiNoOverlap | typography.py:39 | Matches of the spelling rule cannot overlap. |
| Spelling.HawaiiPass | typography.py:39 | The pass adds one 'okina per match and removes at most one straight quote per match; every other character keeps its count. The count is the number of positions where "Hawaii" or "Hawai'i" starts as a whole word (`HawaiiWords`). |
| Dashes.EmDashAtIff | typography.py:45 | The em dash pattern matches at p exactly when a word character precedes two hyphens that a word character or newline follows, or three hyphens that one of those follows. |
| Dashes.EmDashForms | typography.py:45 | A match is "--", "---", "--\n" or "---\n", replaced by — (and the newline, which is kept). |
| Dashes.EmDashNoOverlap | typography.py:45 | Em dash matches cannot overlap. |
| Dashes.EmDashPass | typography.py:45 | The pass adds one — per match and removes two or three hyphens per match; every other character keeps its count. The count is the number of match positions. |
| Dashes.EnDashScan | typography.py:48 | The en dash pass returns `EnDashed`: every hyphen between two maximal digit runs that touch no other hyphen becomes –, and nothing else changes. |
| Dashes.EnDashPass | typography.py:48 | Same length; exactly the range hyphens become –. The count is the number of – added and of hyphens removed. |
| Quotes.OpenQuoteScan | typography.py:50 | The opening-quote pass returns `OpenQuoted`: every `"` followed by a word character becomes “, nothing else changes. |
| Quotes.OpenQuotePass | typography.py:50 | Same length, the positionwise rule above, and `count` more “ and `count` fewer `"`. |
| Quotes.OpenQuoteSettles | typography.py:50 | A second opening-quote pass finds nothing. |
| Quotes.CloseQuoteScan | typography.py:52 | The closing-quote pass returns `CloseQuoted`. A `"` becomes ” when a word character precedes it, directly or through one of `. ? , !`. |
| Quotes.CloseQuotePass | typography.py:52 | Same length, the positionwise rule above, and `count` more ” and `count` fewer `"`. |
| Quotes.CloseQuoteSettles | typography.py:52 | A second closing-quote pass finds nothing. |
| Ellipses.DotRunScan | typography.py:54 | Inside a maximal run of n periods, the scan emits n/3 ellipses, then the n%3 periods left over. |
| Ellipses.EllipsisScan | typography.py:54 | The ellipsis pass returns `Collapsed`, with count `Thirds`: the sum over maximal period runs of a third of their length, rounded down. |
| Ellipses.CollapsedNoTriple | typography.py:54 | The collapsed text has no three periods in a row. |
| Ellipses.EllipsisPass | typography.py:54 | The pass equals the reference, leaves no "...", adds `count` … and removes 3·`count` periods. Every other character keeps its count. |
| Ellipses.NoTripleSettles | typography.py:54 | A text with no three periods in a row is left unchanged, with count 0. |
| Ellipses.EllipsisSettles | typography.py:54 | A second ellipsis pass finds nothing. |
| Whitespace.TrailingScan | typography.py:56 | The trailing-whitespace pass returns `Stripped`, with count `TrailingRuns`. Every maximal run of spaces and tabs followed by a newline or the end is deleted, and the count is the number of such runs. |
| Whitespace.TrailingMatchCase | typography.py:56 | Where the pattern matches, the reference keeps the characters other than blanks and the newline, and counts one run. |
| Whitespace.StrippedClean | typography.py:56 | The stripped text has no blank before a newline or at its end. |
| Whitespace.CleanSettles | typography.py:56 | A text with no such blank is left unchanged, with count 0. |
| Whitespace.TrailingPass | typography.py:56 | The pass equals the reference and leaves no trailing blank. Every character other than a space or tab keeps its count, so newlines and indentation are kept. |
| Whitespace.TrailingSettles | typography.py:56 | A second trailing-whitespace pass finds nothing. |
| Families.SettledFromIff | typography.py:66-70 | The character-by-character check `SettledFrom(t, 0)` holds exactly when `Settled(t)`. |
| Families.DigitsFromIff | typography.py:48 | The character-by-character check `DigitsFrom(t, 0)` holds exactly when `Digits(t)`. |
| Families.ContractionIdle | typography.py:25-32 | A contraction rule leaves a text unchanged, with count 0, when no `'` in it stands in the rule's context. |
| Families.StemIdle | typography.py:25-29 | A stem contraction rule leaves a text unchanged when no `'` is followed by the first character of its suffix. |
| Families.WordIdle | typography.py:30-32 | A fixed-word contraction rule leaves a text unchanged when no `'` has one of its initials at the right distance before it. |
| Families.SettledUnchanged | typography.py:66-70 | A settled text comes back from the engine unchanged, with count 0. Settled means: no `'`, `H`, `-` or `"`, no two periods in a row, no trailing blank. |
| Families.ContractionSentence | typography.py:25-32 | Settled text, one `'` that stands in a contraction rule's context, then settled text: the engine returns it with ’ in place of `'`, count 1, and the result is settled. |
| Families.EmDashSentence | typography.py:45 | A word, "--" or "---", then a word, in settled text: one —, count 1, and the result is settled. |
| Families.EmDashNeedsPair | typography.py:45 | Text with no two hyphens in a row is left alone by the em dash rule. |
| Families.EnDashSentence | typography.py:48 | Digits, one hyphen, then digits, in settled text: one –, count 1, and the result is settled. |
| Families.DateUnchanged | typography.py:46-48 | Three digit groups joined by two hyphens (a date) come back unchanged, with count 0. |
| Families.QuoteSentence | typography.py:50-52 | A phrase between straight double quotes, in settled text, gets “ and ”, with count 2, and the result is settled. |
| Families.TrailingOnce | typography.py:56 | Settled text, blanks, then the end or a newline: the blanks are removed, count 1. |
| Families.TrailingTwice | typography.py:56 | Two blank runs, each before a newline or the end: both are removed, count 2. |
| Examples.CantExample | test/test_apply_count_issues.py:10 | "this can't be right" gives "this can’t be right" with count 1; a second run changes nothing and counts 0. |
| Examples.CouldveExample | test/test_apply_count_issues.py:11 | "could've been" gives "could’ve been", 1; idempotent on the output. |
| Examples.HesExample | test/test_apply_count_issues.py:12 | "he's cooking" gives "he’s cooking", 1; idempotent on the output. |
| Examples.IdExample | test/test_apply_count_issues.py:13 | "I'd rather not" gives "I’d rather not", 1; idempotent on the output. |
| Examples.WhatllExample | test/test_apply_count_issues.py:14 | "what'll it take" gives "what’ll it take", 1; idempotent on the output. |
| Examples.ImExample | test/test_apply_count_issues.py:15 | " I'm livid" gives " I’m livid", 1; idempotent on the output. |
| Examples.MaamExample | test/test_apply_count_issues.py:16 | "yes ma'am" gives "yes ma’am", 1; idempotent on the output. |
| Examples.CapitalMaamExample | test/test_apply_count_issues.py:17 | "Yes, Ma'am." gives "Yes, Ma’am.", 1; idempotent on the output. |
| Examples.OclockExample | test/test_apply_count_issues.py:18 | "thirteen o'clock" gives "thirteen o’clock", 1; idempotent on the output. |
| Examples.HawaiiExample | test/test_apply_count_issues.py:20 | "Hawaii" gives "Hawaiʻi", 1; idempotent on the output. |
| Examples.OneWayExample | test/test_apply_count_issues.py:22 | "One way--to em dash" gives "One way—to em dash", 1; idempotent on the output. |
| Examples.AnotherWayExample | test/test_apply_count_issues.py:23 | "Another---way" gives "Another—way", 1; idempotent on the output. |
| Examples.RangeExample | test/test_apply_count_issues.py:24 | "Range: 25-28" gives "Range: 25–28", 1; idempotent on the output. |
| Examples.DateExample | test/test_apply_count_issues.py:25 | "2025-01-01" comes back unchanged with count 0, so it is also idempotent. |
| Examples.CurlyExample | test/test_apply_count_issues.py:26 | 'Time for "curly quotes"' gives "Time for “curly quotes”", 2; idempotent on the output. |
| Examples.WhitespaceExample | test/test_apply_count_issues.py:27-28 | "Trailing whitespace    " and the same followed by "\n\n" lose their trailing blanks, count 1 each; idempotent on the outputs. |
| Examples.TwoLinesExample | test/test_apply_count_issues.py:29 | "Trailing \n  whitespace\t\n" gives "Trailing\n  whitespace\n", 2; idempotent on the output. |
| Examples.SecondRunExample | typography.py:43-70 | "a-- \n" gives "a--\n" with count 1, but a second run over that gives "a—\n" with count 1 more, since the em dash rule (line 45) runs before the trailing whitespace rule (line 56) removes the blank that stopped it; a third run changes nothing. |
| Examples.StackedContractionExample | typography.py:27 | "a's's" gives "a’s's" with count 1: the `'s` match "a's" ends where the stem of the second contraction would begin, so the scan has passed it. A second run gives "a’s’s" with count 1 more, and a third changes nothing. |

## Left out

- `main` (typography.py:73-129): argument parsing, reading files or standard
  input, the coloured `difflib` diff and the exit status. These are I/O around
  the engine.
- `compile` and the `re` library (typography.py:17-20, 68). There is no general
  regular-expression engine. The five stem contractions (`'t`, `'ve`, `'s`,
  `'d`, `'ll`) share one matcher, `StemContractionAt`, with the suffix as a
  parameter. The three fixed-word contractions (I'm, ma'am, o'clock) share
  `WordContractionAt`. The other seven patterns have a matcher each. Every
  matcher follows Python's backtracking order, and `Subn`
  follows `re.subn`'s leftmost, non-overlapping scan.
- Unicode classes: Python's `\w`, `\b` and `\d` are Unicode-aware. Here:
  - a word character is an ASCII letter, an ASCII digit, `_` or the 'okina U+02BB;
  - a digit is an ASCII digit.

  Every character the rules introduce (’ “ ” — – …) is a non-word character, as
  in Python. Texts with other non-ASCII letters or digits next to a pattern may
  be judged differently from Python.
- Idempotence in general: the source promises it only for the test examples
  (test/test_apply_count_issues.py:39-40), and it does not hold for every input
  (`Examples.SecondRunExample` and `Examples.StackedContractionExample` give
  inputs where it fails). It is proved for
  each test example, and for every "settled" text (`Families.SettledUnchanged`).
- test/test_qa.py is not part of this model: it runs linters and holds no logic.
