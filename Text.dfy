/** Character classes and scanning helpers shared by the typography rules.

    The rules are Python regular expressions over `str`. `\w`, `\b` and `\d`
    are Unicode-aware there; this module fixes explicit, smaller classes
    (see IsWord and IsDigit) that agree with Python on every character the
    rules read or introduce. */
module Text {

  /** The characters the rules introduce. */
  const Apostrophe: char := '\U{2019}'        // ’ right single quotation mark
  const Okina: char := '\U{02BB}'             // ʻ modifier letter turned comma
  const EmDash: char := '\U{2014}'            // —
  const EnDash: char := '\U{2013}'            // –
  const LeftDoubleQuote: char := '\U{201C}'   // “
  const RightDoubleQuote: char := '\U{201D}'  // ”
  const Ellipsis: char := '\U{2026}'          // …

  /** `[a-zA-Z]` */
  predicate IsAsciiLetter(c: char) {
    'a' <= c <= 'z' || 'A' <= c <= 'Z'
  }

  /** `\d`, restricted to the ASCII digits. */
  predicate IsDigit(c: char) {
    '0' <= c <= '9'
  }

  /** `\w`: letters, digits and underscore. Of the non-ASCII characters only
      the 'okina is a word character here; all the punctuation the rules
      introduce is not, as in Python. */
  predicate IsWord(c: char) {
    IsAsciiLetter(c) || IsDigit(c) || c == '_' || c == Okina
  }

  /** `[ \t]` */
  predicate IsBlank(c: char) {
    c == ' ' || c == '\t'
  }

  /** `[^ \t]` */
  predicate IsNotBlank(c: char) {
    !IsBlank(c)
  }

  /** `\b` at position p (0 <= p <= |s|): a word character on exactly one
      side, where the outside of the text counts as non-word. */
  predicate Boundary(s: string, p: nat) {
    (0 < p <= |s| && IsWord(s[p - 1])) != (p < |s| && IsWord(s[p]))
  }

  /** The end of the longest run of characters satisfying `inRun` that starts at i. */
  function RunEnd(s: string, i: nat, inRun: char -> bool): (e: nat)
    requires i <= |s|
    ensures i <= e <= |s|
    ensures forall k :: i <= k < e ==> inRun(s[k])
    ensures e == |s| || !inRun(s[e])
    decreases |s| - i
  {
    if i == |s| || !inRun(s[i]) then i else RunEnd(s, i + 1, inRun)
  }

  /** The start of the longest run of characters satisfying `inRun` that ends at p. */
  function RunStart(s: string, p: nat, inRun: char -> bool): (j: nat)
    requires p <= |s|
    ensures j <= p
    ensures forall k :: j <= k < p ==> inRun(s[k])
    ensures j == 0 || !inRun(s[j - 1])
  {
    if p == 0 || !inRun(s[p - 1]) then p else RunStart(s, p - 1, inRun)
  }

  /** s[i..j], built one character at a time. */
  function Slice(s: string, i: nat, j: nat): (t: string)
    requires i <= j <= |s|
    ensures t == s[i..j]
    decreases j - i
  {
    if i == j then [] else [s[i]] + Slice(s, i + 1, j)
  }

  /** A run bounded on both sides is the longest one: RunEnd finds its end. */
  lemma {:induction false} RunEndUnique(s: string, i: nat, e: nat, inRun: char -> bool)
    requires i <= e <= |s|
    requires forall k :: i <= k < e ==> inRun(s[k])
    requires e == |s| || !inRun(s[e])
    ensures RunEnd(s, i, inRun) == e
    decreases e - i
  {
    if i < e {
      RunEndUnique(s, i + 1, e, inRun);
    }
  }

  /** A run bounded on both sides is the longest one: RunStart finds its start. */
  lemma RunStartUnique(s: string, j: nat, p: nat, inRun: char -> bool)
    requires j <= p <= |s|
    requires forall k :: j <= k < p ==> inRun(s[k])
    requires j == 0 || !inRun(s[j - 1])
    ensures RunStart(s, p, inRun) == j
  {
  }

  /** The number of occurrences of x in t. */
  function Occurrences(t: string, x: char): nat {
    if t == [] then 0 else (if t[0] == x then 1 else 0) + Occurrences(t[1..], x)
  }

  lemma {:induction false} OccurrencesAppend(a: string, b: string, x: char)
    ensures Occurrences(a + b, x) == Occurrences(a, x) + Occurrences(b, x)
  {
    if a == [] {
      assert a + b == b;
    } else {
      assert (a + b)[1..] == a[1..] + b;
      OccurrencesAppend(a[1..], b, x);
    }
  }

  /** Occurrences in a text of one character. */
  lemma OccurrencesSingle(c: char, x: char)
    ensures Occurrences([c], x) == if c == x then 1 else 0
  {
    assert [c][1..] == [];
  }
}
