/** The rule table of typography.py and the substitution pass each rule makes.

    A rule is one of the fifteen regular expressions of the source with its
    replacement template. Instead of a general regular-expression engine,
    each pattern has its own anchored matcher: `MatchAt(r, s, i)` is the
    match Python's backtracking engine finds when it tries pattern `r` at
    position `i` of the pass input `s` (or None). Lookarounds and `\b` look
    at `s` itself, never at the partly rewritten text. `Subn` then scans `s`
    from left to right as `re.subn` does: try the pattern at the current
    position; on a match emit the replacement and resume at the end of the
    match, otherwise copy one character and move on. None of the patterns can
    match the empty string, so every match consumes at least one character. */
module Rules {
  import opened Text

  datatype Option<T> = None | Some(value: T)

  /** A match starting at some position i: where it ends and what the
      replacement template expands to. */
  datatype Match = Match(end: nat, repl: string)

  /** The text after one pass (or after the whole engine) and the number of
      substitutions made, as `re.subn` and `apply_count_issues` return them. */
  datatype Correction = Correction(text: string, count: nat)

  datatype Rule =
      /** `(\b[a-zA-Z]+)(')(suffix\b)` -> `\1’\3`; with `afterN`, the stem is
          `[a-zA-Z]+n` (the `n't` rule). */
    | StemContraction(afterN: bool, suffix: string)
      /** `(\b[initials]pre)(')(post\b)` -> the same word with ’; covers
          `\bI'm\b`, `(\b[Mm]a)(')(am\b)` and `\bo'clock\b`. */
    | WordContraction(initials: string, pre: string, post: string)
      /** `\bHawai('?)i\b` -> `Hawaiʻi` */
    | HawaiiSpelling
      /** `\b\-\-\-?(\b|\n)` -> `—\1` */
    | EmDashRule
      /** `(?<![\d\-])(\d+)(\-)(\d+)(?![\-\d])` -> `\1–\3` */
    | EnDashRule
      /** `\"\b` -> `“` */
    | OpenQuote
      /** `(\b[\.\?,!]?)(\")` -> `\1”` */
    | CloseQuote
      /** `\.\.\.` -> `…` */
    | EllipsisRule
      /** `([^ \t]*)([ \t]+)(\n|$)` -> `\1\3` */
    | TrailingWhitespace

  /** Contractions: a straight quote that should be an apostrophe. */
  const Contractions: seq<Rule> := [
    StemContraction(true, "t"),
    StemContraction(false, "ve"),
    StemContraction(false, "s"),
    StemContraction(false, "d"),
    StemContraction(false, "ll"),
    WordContraction("I", "", "m"),
    WordContraction("Mm", "a", "am"),
    WordContraction("o", "", "clock")
  ]

  /** Spelling: the proper code point for the 'okina. */
  const Spelling: seq<Rule> := [HawaiiSpelling]

  /** Punctuation: dashes, quotes, ellipsis and trailing whitespace. */
  const Punctuation: seq<Rule> := [
    EmDashRule, EnDashRule, OpenQuote, CloseQuote, EllipsisRule, TrailingWhitespace
  ]

  /** `RULES`, assembled by extending an empty list with the three tables in turn. */
  const AllRules: seq<Rule> := [] + Contractions + Spelling + Punctuation

  /** The characters `[\.\?,!]` that may stand between a word and a closing quote. */
  predicate IsClosingPunct(c: char) {
    c == '.' || c == '?' || c == ',' || c == '!'
  }

  /** Does `lit` occur in s at position p? */
  predicate LiteralAt(s: string, p: nat, lit: string) {
    LiteralFrom(s, p, lit, 0)
  }

  /** The characters of `lit` from index k on occur in s from position p + k. */
  predicate LiteralFrom(s: string, p: nat, lit: string, k: nat)
    decreases |lit| - k
  {
    k >= |lit| || (p + k < |s| && s[p + k] == lit[k] && LiteralFrom(s, p, lit, k + 1))
  }

  /** Stem contraction: `\b` and a letter stem from i, a straight quote right
      after it, then the suffix and `\b`. `[a-zA-Z]+` is greedy and the quote
      is not a letter, so the only stem backtracking could offer is the whole
      letter run starting at i. */
  function StemContractionAt(afterN: bool, suffix: string, s: string, i: nat): (m: Option<Match>)
    requires i < |s|
    ensures m.Some? ==> i < m.value.end <= |s|
  {
    if !(Boundary(s, i) && IsAsciiLetter(s[i])) then None
    else
      var e := RunEnd(s, i, IsAsciiLetter);
      if e < |s| && s[e] == '\'' && (!afterN || (e - i >= 2 && s[e - 1] == 'n'))
         && LiteralAt(s, e + 1, suffix) && Boundary(s, e + 1 + |suffix|)
      then Some(Match(e + 1 + |suffix|, Slice(s, i, e) + [Apostrophe] + suffix))
      else None
  }

  /** Fixed-word contraction: `\b`, one of the initials, pre, a straight quote,
      post, `\b`. */
  function WordContractionAt(initials: string, pre: string, post: string, s: string, i: nat): (m: Option<Match>)
    requires i < |s|
    ensures m.Some? ==> i < m.value.end <= |s|
  {
    var q := i + 1 + |pre|;
    if Boundary(s, i) && s[i] in initials && LiteralAt(s, i + 1, pre + "'" + post)
       && Boundary(s, q + 1 + |post|)
    then Some(Match(q + 1 + |post|, [s[i]] + pre + [Apostrophe] + post))
    else None
  }

  /** `\bHawai('?)i\b`: the greedy `'?` tries the form with the quote first. */
  function HawaiiAt(s: string, i: nat): (m: Option<Match>)
    requires i < |s|
    ensures m.Some? ==> i < m.value.end <= |s|
  {
    if !Boundary(s, i) then None
    else if LiteralAt(s, i, "Hawai'i") && Boundary(s, i + 7) then Some(Match(i + 7, "Hawai" + [Okina] + "i"))
    else if LiteralAt(s, i, "Hawaii") && Boundary(s, i + 6) then Some(Match(i + 6, "Hawai" + [Okina] + "i"))
    else None
  }

  /** `(\b|\n)` tried at p, after the hyphens of an em dash starting at i. */
  function DashTail(s: string, i: nat, p: nat): (m: Option<Match>)
    requires i < p <= |s|
    ensures m.Some? ==> i < m.value.end <= |s|
  {
    if Boundary(s, p) then Some(Match(p, [EmDash]))
    else if p < |s| && s[p] == '\n' then Some(Match(p + 1, [EmDash, '\n']))
    else None
  }

  /** `\b\-\-\-?(\b|\n)`: the greedy `\-?` takes a third hyphen if there is one
      and gives it back if the tail does not match after it. */
  function EmDashAt(s: string, i: nat): (m: Option<Match>)
    requires i < |s|
    ensures m.Some? ==> i < m.value.end <= |s|
  {
    if !(Boundary(s, i) && LiteralAt(s, i, "--")) then None
    else if i + 2 < |s| && s[i + 2] == '-' && DashTail(s, i, i + 3).Some? then DashTail(s, i, i + 3)
    else DashTail(s, i, i + 2)
  }

  /** `(?<![\d\-])(\d+)(\-)(\d+)(?![\-\d])`. Both `\d+` are greedy; giving
      digits back cannot help, since the hyphen must follow the first run and
      a digit after the second run fails the lookahead. */
  function EnDashAt(s: string, i: nat): (m: Option<Match>)
    requires i < |s|
    ensures m.Some? ==> i < m.value.end <= |s|
  {
    if (i > 0 && (IsDigit(s[i - 1]) || s[i - 1] == '-')) || !IsDigit(s[i]) then None
    else
      var e := RunEnd(s, i, IsDigit);
      if e + 1 < |s| && s[e] == '-' && IsDigit(s[e + 1]) then
        var f := RunEnd(s, e + 1, IsDigit);
        if f == |s| || !(s[f] == '-' || IsDigit(s[f])) then Some(Match(f, Slice(s, i, e) + [EnDash] + Slice(s, e + 1, f)))
        else None
      else None
  }

  /** `\"\b` */
  function OpenQuoteAt(s: string, i: nat): (m: Option<Match>)
    requires i < |s|
    ensures m.Some? ==> i < m.value.end <= |s|
  {
    if s[i] == '"' && Boundary(s, i + 1) then Some(Match(i + 1, [LeftDoubleQuote])) else None
  }

  /** `(\b[\.\?,!]?)(\")`: the greedy `?` tries a punctuation mark first. */
  function CloseQuoteAt(s: string, i: nat): (m: Option<Match>)
    requires i < |s|
    ensures m.Some? ==> i < m.value.end <= |s|
  {
    if !Boundary(s, i) then None
    else if IsClosingPunct(s[i]) && i + 1 < |s| && s[i + 1] == '"' then Some(Match(i + 2, [s[i], RightDoubleQuote]))
    else if s[i] == '"' then Some(Match(i + 1, [RightDoubleQuote]))
    else None
  }

  /** `\.\.\.` */
  function EllipsisAt(s: string, i: nat): (m: Option<Match>)
    requires i < |s|
    ensures m.Some? ==> i < m.value.end <= |s|
  {
    if LiteralAt(s, i, "...") then Some(Match(i + 3, [Ellipsis])) else None
  }

  /** `([^ \t]*)([ \t]+)(\n|$)`. Group 1 takes every non-blank character from
      i, newlines included; backtracking cannot shorten it, since a blank must
      follow it. The blanks must then reach a newline (kept) or the end of the
      text; `$` also matches before a final newline, but the `\n` alternative
      is tried first and takes it. */
  function TrailingAt(s: string, i: nat): (m: Option<Match>)
    requires i < |s|
    ensures m.Some? ==> i < m.value.end <= |s|
  {
    var j := RunEnd(s, i, IsNotBlank);
    var b := RunEnd(s, j, IsBlank);
    if b == j then None
    else if b < |s| && s[b] == '\n' then Some(Match(b + 1, Slice(s, i, j) + "\n"))
    else if b == |s| then Some(Match(b, Slice(s, i, j)))
    else None
  }

  /** The match of rule r tried at position i of the pass input s. */
  function MatchAt(r: Rule, s: string, i: nat): (m: Option<Match>)
    requires i < |s|
    ensures m.Some? ==> i < m.value.end <= |s|
  {
    match r
    case StemContraction(afterN, suffix) => StemContractionAt(afterN, suffix, s, i)
    case WordContraction(initials, pre, post) => WordContractionAt(initials, pre, post, s, i)
    case HawaiiSpelling => HawaiiAt(s, i)
    case EmDashRule => EmDashAt(s, i)
    case EnDashRule => EnDashAt(s, i)
    case OpenQuote => OpenQuoteAt(s, i)
    case CloseQuote => CloseQuoteAt(s, i)
    case EllipsisRule => EllipsisAt(s, i)
    case TrailingWhitespace => TrailingAt(s, i)
  }

  /** A compiled pattern with its replacement template: tried at position i
      of a text, it yields the match Python's engine finds there, if any. */
  type Matcher = (string, nat) -> Option<Match>

  /** Rule r as a matcher. */
  function Pattern(r: Rule): Matcher {
    (s: string, i: nat) => if i < |s| then MatchAt(r, s, i) else None
  }

  /** No match of f in s is empty or runs past the end of s. */
  predicate Advances(f: Matcher, s: string) {
    forall p :: 0 <= p < |s| && f(s, p).Some? ==> p < f(s, p).value.end <= |s|
  }

  /** None of the rules can match the empty string. */
  lemma PatternAdvances(r: Rule, s: string)
    ensures Advances(Pattern(r), s)
  {
    forall p | 0 <= p < |s| && Pattern(r)(s, p).Some?
      ensures p < Pattern(r)(s, p).value.end <= |s|
    {
      assert Pattern(r)(s, p) == MatchAt(r, s, p);
    }
  }

  /** `re.subn(pattern, sub, s)` restricted to the suffix of s from i: replace
      every non-overlapping match, leftmost first, and count them. */
  function Subn(f: Matcher, s: string, i: nat): (c: Correction)
    requires i <= |s|
    requires Advances(f, s)
    ensures c.count <= |s| - i
    decreases |s| - i
  {
    if i == |s| then Correction("", 0)
    else match f(s, i)
      case Some(m) =>
        var rest := Subn(f, s, m.end);
        Correction(m.repl + rest.text, rest.count + 1)
      case None =>
        var rest := Subn(f, s, i + 1);
        Correction([s[i]] + rest.text, rest.count)
  }

  /** One pass of rule r over the whole text. */
  function Apply(r: Rule, s: string): (c: Correction)
    ensures c.count <= |s|
  {
    PatternAdvances(r, s);
    Subn(Pattern(r), s, 0)
  }
}
