/** The trailing-whitespace rule: blanks before a newline or the end of the
    text are removed. */
module Whitespace {
  import opened Text
  import opened Rules
  import opened Scan

  /** Reference for the pass from i: s with every maximal run of blanks that
      is followed by a newline or the end of the text removed. */
  function Stripped(s: string, i: nat): string
    requires i <= |s|
    decreases |s| - i
  {
    if i == |s| then []
    else if !IsBlank(s[i]) then [s[i]] + Stripped(s, i + 1)
    else
      var b := RunEnd(s, i, IsBlank);
      if b == |s| || s[b] == '\n' then Stripped(s, b) else s[i..b] + Stripped(s, b)
  }

  /** The number of maximal blank runs from i that a newline or the end of
      the text follows. */
  function TrailingRuns(s: string, i: nat): nat
    requires i <= |s|
    decreases |s| - i
  {
    if i == |s| then 0
    else if !IsBlank(s[i]) then TrailingRuns(s, i + 1)
    else
      var b := RunEnd(s, i, IsBlank);
      (if b == |s| || s[b] == '\n' then 1 else 0) + TrailingRuns(s, b)
  }

  /** Characters other than blanks pass through the reference unchanged. */
  lemma {:induction false} NonBlankPrefix(s: string, i: nat, j: nat)
    requires i <= j <= |s|
    requires forall k :: i <= k < j ==> !IsBlank(s[k])
    ensures Stripped(s, i) == s[i..j] + Stripped(s, j)
    ensures TrailingRuns(s, i) == TrailingRuns(s, j)
    decreases j - i
  {
    if i < j {
      NonBlankPrefix(s, i + 1, j);
      NonBlankStep(s, i, j, Stripped(s, i + 1), Stripped(s, j));
    } else {
      assert s[i..j] == [];
    }
  }

  /** One character other than a blank, in front of the rest. */
  lemma NonBlankStep(s: string, i: nat, j: nat, rest: string, tail: string)
    requires i < j <= |s| && !IsBlank(s[i]) && rest == Stripped(s, i + 1) && rest == s[i + 1..j] + tail
    ensures Stripped(s, i) == s[i..j] + tail
    ensures TrailingRuns(s, i) == TrailingRuns(s, i + 1)
  {
    assert Stripped(s, i) == [s[i]] + rest;
    assert s[i..j] == [s[i]] + s[i + 1..j];
  }

  /** Where the pattern matches, the reference drops the blanks it covers. */
  lemma TrailingMatchCase(s: string, i: nat)
    requires i < |s| && TrailingAt(s, i).Some?
    ensures var m := TrailingAt(s, i).value;
      && Stripped(s, i) == m.repl + Stripped(s, m.end)
      && TrailingRuns(s, i) == 1 + TrailingRuns(s, m.end)
  {
    var j, b := TrailingAtShape(s, i);
    if b < |s| {
      TrailingToNewline(s, i, j, b, b + 1);
    } else {
      TrailingToEnd(s, i, j, b);
    }
  }

  /** Characters other than blanks, then blanks up to a newline: the blanks
      are dropped and counted, the rest is kept. */
  lemma TrailingToNewline(s: string, i: nat, j: nat, b: nat, e: nat)
    requires i <= j < b < |s| && e == b + 1 && (forall k :: i <= k < j ==> !IsBlank(s[k]))
    requires b == RunEnd(s, j, IsBlank) && s[b] == '\n'
    ensures Stripped(s, i) == (s[i..j] + "\n") + Stripped(s, e)
    ensures TrailingRuns(s, i) == 1 + TrailingRuns(s, e)
  {
    NonBlankPrefix(s, i, j);
    BlankRunDropped(s, j, b);
    NewlineKept(s, b, e);
    Chain(Stripped(s, i), s[i..j], Stripped(s, j), Stripped(s, b), "\n", Stripped(s, e),
      TrailingRuns(s, i), TrailingRuns(s, j), TrailingRuns(s, b), TrailingRuns(s, e));
  }

  /** Characters other than blanks, then blanks up to the end: the blanks
      are dropped and counted. */
  lemma TrailingToEnd(s: string, i: nat, j: nat, b: nat)
    requires i <= j < b == |s| && (forall k :: i <= k < j ==> !IsBlank(s[k]))
    requires b == RunEnd(s, j, IsBlank)
    ensures Stripped(s, i) == s[i..j] + Stripped(s, b)
    ensures TrailingRuns(s, i) == 1 + TrailingRuns(s, b)
  {
    NonBlankPrefix(s, i, j);
    BlankRunDropped(s, j, b);
  }

  /** The steps of the reference over a match, put together. */
  lemma Chain(x0: string, p: string, x1: string, x2: string, nl: string, x3: string, n0: nat, n1: nat, n2: nat, n3: nat)
    requires x0 == p + x1 && x1 == x2 && x2 == nl + x3 && n0 == n1 && n1 == 1 + n2 && n2 == n3
    ensures x0 == (p + nl) + x3 && n0 == 1 + n3
  {
  }

  /** A match is the characters other than blanks from i, then blanks up to
      a newline, which the replacement keeps, or up to the end. */
  lemma TrailingAtShape(s: string, i: nat) returns (j: nat, b: nat)
    requires i < |s| && TrailingAt(s, i).Some?
    ensures i <= j < b <= |s| && (forall k :: i <= k < j ==> !IsBlank(s[k]))
    ensures b == RunEnd(s, j, IsBlank) && (b == |s| || s[b] == '\n')
    ensures var m := TrailingAt(s, i).value;
      if b < |s| then m.end == b + 1 && m.repl == s[i..j] + "\n" else m.end == b && m.repl == s[i..j]
  {
    j := RunEnd(s, i, IsNotBlank);
    b := RunEnd(s, j, IsBlank);
  }

  /** A maximal run of blanks before a newline or the end is dropped, and
      counted. */
  lemma BlankRunDropped(s: string, j: nat, b: nat)
    requires j < b <= |s| && b == RunEnd(s, j, IsBlank) && (b == |s| || s[b] == '\n')
    ensures Stripped(s, j) == Stripped(s, b) && TrailingRuns(s, j) == 1 + TrailingRuns(s, b)
  {
  }

  /** A newline is kept. */
  lemma NewlineKept(s: string, b: nat, e: nat)
    requires e == b + 1 <= |s| && s[b] == '\n'
    ensures Stripped(s, b) == "\n" + Stripped(s, e) && TrailingRuns(s, b) == TrailingRuns(s, e)
  {
  }

  /** Where it does not, the reference copies the character at i. */
  lemma TrailingCopyCase(s: string, i: nat)
    requires i < |s| && TrailingAt(s, i).None?
    ensures Stripped(s, i) == [s[i]] + Stripped(s, i + 1)
    ensures TrailingRuns(s, i) == TrailingRuns(s, i + 1)
  {
    if IsBlank(s[i]) {
      var b := RunEnd(s, i, IsBlank);
      assert RunEnd(s, i, IsNotBlank) == i;
      BlanksCopied(s, i, b);
    }
  }

  /** A run of blanks that a character other than a newline follows is
      kept, and not counted. */
  lemma BlanksCopied(s: string, i: nat, b: nat)
    requires i < b < |s| && IsBlank(s[i]) && b == RunEnd(s, i, IsBlank) && s[b] != '\n'
    ensures Stripped(s, i) == [s[i]] + Stripped(s, i + 1)
    ensures TrailingRuns(s, i) == TrailingRuns(s, i + 1)
  {
    assert Stripped(s, i) == s[i..b] + Stripped(s, b);
    if i + 1 < b {
      RunEndUnique(s, i + 1, b, IsBlank);
      assert Stripped(s, i + 1) == s[i + 1..b] + Stripped(s, b);
      assert s[i..b] == [s[i]] + s[i + 1..b];
    } else {
      assert s[i..b] == [s[i]];
    }
  }

  /** The pass from i is the reference: Stripped text, one substitution per
      trailing blank run. */
  lemma {:induction false} TrailingScan(s: string, i: nat)
    requires i <= |s| && Advances(Pattern(TrailingWhitespace), s)
    ensures Subn(Pattern(TrailingWhitespace), s, i) == Correction(Stripped(s, i), TrailingRuns(s, i))
    decreases |s| - i
  {
    if i < |s| {
      assert Pattern(TrailingWhitespace)(s, i) == TrailingAt(s, i);
      match TrailingAt(s, i)
      case Some(m) =>
        TrailingMatchCase(s, i);
        TrailingScan(s, m.end);
      case None =>
        TrailingCopyCase(s, i);
        TrailingScan(s, i + 1);
    }
  }

  /** Every blank is followed by a character other than a newline. */
  predicate NoTrailingBlanks(t: string) {
    forall k :: 0 <= k < |t| && IsBlank(t[k]) ==> k + 1 < |t| && t[k + 1] != '\n'
  }

  /** Text that starts with a character other than a blank or newline may
      follow blanks. */
  lemma NoTrailingBlanksAppend(a: string, b: string)
    requires NoTrailingBlanks(a) || (a != [] && (forall k :: 0 <= k < |a| ==> IsBlank(a[k])))
    requires NoTrailingBlanks(b)
    requires a == [] || !IsBlank(a[|a| - 1]) || (b != [] && !IsBlank(b[0]) && b[0] != '\n')
    ensures NoTrailingBlanks(a + b)
  {
    var t := a + b;
    forall k | 0 <= k < |t| && IsBlank(t[k])
      ensures k + 1 < |t| && t[k + 1] != '\n'
    {
      if k >= |a| {
        assert t[k] == b[k - |a|];
        if k + 1 < |t| {
          assert t[k + 1] == b[k + 1 - |a|];
        }
      } else if k + 1 < |a| {
        assert t[k] == a[k];
        assert t[k + 1] == a[k + 1];
        if !NoTrailingBlanks(a) {
          assert IsBlank(a[k + 1]);
        }
      } else {
        assert t[k] == a[k];
        assert t[k + 1] == b[0];
      }
    }
  }

  /** The reference leaves no blank before a newline or at the end. */
  lemma {:induction false} StrippedClean(s: string, i: nat)
    requires i <= |s|
    ensures NoTrailingBlanks(Stripped(s, i))
    decreases |s| - i
  {
    if i < |s| {
      if !IsBlank(s[i]) {
        StrippedClean(s, i + 1);
        NoTrailingBlanksAppend([s[i]], Stripped(s, i + 1));
      } else {
        var b := RunEnd(s, i, IsBlank);
        StrippedClean(s, b);
        if b < |s| && s[b] != '\n' {
          assert Stripped(s, b) == [s[b]] + Stripped(s, b + 1);
          NoTrailingBlanksAppend(s[i..b], Stripped(s, b));
        }
      }
    }
  }

  /** A text with no blank before a newline or at its end is left alone. */
  lemma CleanSettles(t: string)
    requires NoTrailingBlanks(t)
    ensures Apply(TrailingWhitespace, t) == Correction(t, 0)
  {
    PatternAdvances(TrailingWhitespace, t);
    forall p | 0 <= p < |t|
      ensures Pattern(TrailingWhitespace)(t, p).None?
    {
      assert Pattern(TrailingWhitespace)(t, p) == TrailingAt(t, p);
      var j := RunEnd(t, p, IsNotBlank);
      var b := RunEnd(t, j, IsBlank);
      if b > j {
        assert IsBlank(t[b - 1]);
      }
    }
    NoCountIffNoMatch(Pattern(TrailingWhitespace), t, 0);
    assert t[0..] == t;
  }

  /** Only blanks are removed: every other character keeps its count. */
  lemma TrailingShifts(s: string, x: char)
    requires !IsBlank(x) && Advances(Pattern(TrailingWhitespace), s)
    ensures ShiftsBy(Pattern(TrailingWhitespace), s, x, 0, 0)
  {
    forall p | 0 <= p < |s| && Pattern(TrailingWhitespace)(s, p).Some?
      ensures var m := Pattern(TrailingWhitespace)(s, p).value;
        Occurrences(m.repl, x) == Occurrences(s[p..m.end], x)
    {
      assert Pattern(TrailingWhitespace)(s, p) == TrailingAt(s, p);
      TrailingMatchKeeps(s, p, x);
    }
  }

  /** A match of the trailing-whitespace rule keeps every character other
      than a blank. */
  lemma TrailingMatchKeeps(s: string, p: nat, x: char)
    requires !IsBlank(x) && p < |s| && TrailingAt(s, p).Some?
    ensures var m := TrailingAt(s, p).value; Occurrences(m.repl, x) == Occurrences(s[p..m.end], x)
  {
    var j := RunEnd(s, p, IsNotBlank);
    var b := RunEnd(s, j, IsBlank);
    var m := TrailingAt(s, p).value;
    BlanksOnly(s[j..b], x);
    OccurrencesSplit(s, p, j, b, x);
    if b < |s| {
      OccurrencesSplit(s, p, b, m.end, x);
      assert s[b..m.end] == "\n";
      OccurrencesAppend(s[p..j], "\n", x);
    }
  }

  lemma OccurrencesSplit(s: string, i: nat, j: nat, e: nat, x: char)
    requires i <= j <= e <= |s|
    ensures Occurrences(s[i..e], x) == Occurrences(s[i..j], x) + Occurrences(s[j..e], x)
  {
    assert s[i..e] == s[i..j] + s[j..e];
    OccurrencesAppend(s[i..j], s[j..e], x);
  }

  /** Text made only of blanks holds no other character. */
  lemma {:induction false} BlanksOnly(t: string, x: char)
    requires !IsBlank(x) && forall k :: 0 <= k < |t| ==> IsBlank(t[k])
    ensures Occurrences(t, x) == 0
  {
    if t != [] {
      BlanksOnly(t[1..], x);
    }
  }

  /** `re.subn(r"([^ \t]*)([ \t]+)(\n|$)", r"\1\3", s)`: the text is the
      reference Stripped, which has no blank before a newline or at its end
      and keeps every other character's count; the count is the number of
      maximal blank runs a newline or the end of the text follows. */
  lemma TrailingPass(s: string)
    ensures var c := Apply(TrailingWhitespace, s);
      && c == Correction(Stripped(s, 0), TrailingRuns(s, 0))
      && NoTrailingBlanks(c.text)
      && (forall x :: !IsBlank(x) ==> Occurrences(c.text, x) == Occurrences(s, x))
  {
    PatternAdvances(TrailingWhitespace, s);
    TrailingScan(s, 0);
    StrippedClean(s, 0);
    var c := Apply(TrailingWhitespace, s);
    assert s[0..] == s;
    forall x | !IsBlank(x)
      ensures Occurrences(c.text, x) == Occurrences(s, x)
    {
      TrailingShifts(s, x);
      SubnShifts(Pattern(TrailingWhitespace), s, 0, x, 0, 0);
    }
  }

  /** Hence a second trailing-whitespace pass finds nothing. */
  lemma TrailingSettles(s: string)
    ensures var t := Apply(TrailingWhitespace, s).text; Apply(TrailingWhitespace, t) == Correction(t, 0)
  {
    TrailingPass(s);
    CleanSettles(Apply(TrailingWhitespace, s).text);
  }
}
