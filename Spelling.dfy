/** The spelling rule: the 'okina in "Hawaiʻi" is U+02BB. */
module Spelling {
  import opened Text
  import opened Rules
  import opened Scan

  /** A match of `\bHawai('?)i\b` is a whole word, "Hawai'i" or "Hawaii", and
      its replacement puts the 'okina where the straight quote was, or
      inserts it where there was none. */
  lemma HawaiiShape(s: string, p: nat)
    requires p < |s| && HawaiiAt(s, p).Some?
    ensures var m := HawaiiAt(s, p).value;
      && (s[p..m.end] == "Hawai'i" || s[p..m.end] == "Hawaii")
      && m.repl == "Hawai" + [Okina] + "i"
      && (p == 0 || !IsWord(s[p - 1])) && (m.end == |s| || !IsWord(s[m.end]))
      && (if m.end == p + 7 then s[p + 5] == '\'' && m.repl == s[p..p + 5] + [Okina] + s[p + 6..m.end]
          else m.end == p + 6 && m.repl == s[p..p + 5] + [Okina] + s[p + 5..m.end])
  {
    var m := HawaiiAt(s, p).value;
    LiteralAtIsSlice(s, p, "Hawai'i");
    LiteralAtIsSlice(s, p, "Hawaii");
    if m.end == p + 7 {
      assert s[p..p + 7] == "Hawai'i";
      assert s[p..p + 5] == "Hawai" && s[p + 5] == '\'' && s[p + 6..p + 7] == "i" by {
        assert s[p..p + 5] == s[p..p + 7][..5];
        assert s[p + 6..p + 7] == s[p..p + 7][6..];
      }
    } else {
      assert s[p..p + 6] == "Hawaii";
      assert s[p..p + 5] == "Hawai" && s[p + 5..p + 6] == "i" by {
        assert s[p..p + 5] == s[p..p + 6][..5];
        assert s[p + 5..p + 6] == s[p..p + 6][5..];
      }
    }
  }

  /** A whole word "Hawai'i" or "Hawaii" starts at p: `\b` before it, the
      word, and `\b` after it. */
  predicate WholeWordHawaii(s: string, p: nat) {
    && p < |s| && Boundary(s, p)
    && ((p + 7 <= |s| && s[p..p + 7] == "Hawai'i" && Boundary(s, p + 7))
        || (p + 6 <= |s| && s[p..p + 6] == "Hawaii" && Boundary(s, p + 6)))
  }

  /** The spelling rule matches at p exactly when a whole word "Hawai'i" or
      "Hawaii" starts there. */
  lemma HawaiiAtIff(s: string, p: nat)
    requires p < |s|
    ensures HawaiiAt(s, p).Some? <==> WholeWordHawaii(s, p)
  {
    LiteralAtIsSlice(s, p, "Hawai'i");
    LiteralAtIsSlice(s, p, "Hawaii");
  }

  /** The positions where a whole word "Hawai'i" or "Hawaii" starts. */
  function HawaiiWords(s: string): (ps: set<nat>)
    ensures forall p: nat :: p in ps <==> p < |s| && WholeWordHawaii(s, p)
  {
    set p: nat | p < |s| && WholeWordHawaii(s, p)
  }

  /** Matches of the spelling rule never overlap: no "H" follows inside a
      match. */
  lemma HawaiiNoOverlap(s: string)
    requires Advances(Pattern(HawaiiSpelling), s)
    ensures NoOverlap(Pattern(HawaiiSpelling), s)
  {
    forall p, q | 0 <= p < q < |s| && Pattern(HawaiiSpelling)(s, p).Some? && q < Pattern(HawaiiSpelling)(s, p).value.end
      ensures Pattern(HawaiiSpelling)(s, q).None?
    {
      var m := HawaiiAt(s, p).value;
      HawaiiShape(s, p);
      assert s[q] == s[p..m.end][q - p] != 'H';
      assert !LiteralAt(s, q, "Hawai'i") && !LiteralAt(s, q, "Hawaii");
    }
  }

  /** Each match adds one 'okina and removes at most one straight quote. */
  lemma HawaiiShifts(s: string, x: char)
    requires Advances(Pattern(HawaiiSpelling), s)
    ensures ShiftsBy(Pattern(HawaiiSpelling), s, x,
      if x == Okina then 1 else if x == '\'' then -1 else 0,
      if x == Okina then 1 else 0)
  {
    forall p | 0 <= p < |s| && Pattern(HawaiiSpelling)(s, p).Some?
      ensures var m := Pattern(HawaiiSpelling)(s, p).value;
        var d := Occurrences(m.repl, x) - Occurrences(s[p..m.end], x);
        (if x == Okina then 1 else if x == '\'' then -1 else 0) <= d <= (if x == Okina then 1 else 0)
    {
      var m := HawaiiAt(s, p).value;
      HawaiiShape(s, p);
      OccurrencesSingle(Okina, x);
      OccurrencesAppend(s[p..p + 5], [Okina], x);
      if m.end == p + 7 {
        assert s[p..m.end] == s[p..p + 5] + [s[p + 5]] + s[p + 6..m.end];
        OccurrencesSingle(s[p + 5], x);
        OccurrencesAppend(s[p..p + 5] + [Okina], s[p + 6..m.end], x);
        OccurrencesAppend(s[p..p + 5], [s[p + 5]], x);
        OccurrencesAppend(s[p..p + 5] + [s[p + 5]], s[p + 6..m.end], x);
      } else {
        assert s[p..m.end] == s[p..p + 5] + s[p + 5..m.end];
        OccurrencesAppend(s[p..p + 5] + [Okina], s[p + 5..m.end], x);
        OccurrencesAppend(s[p..p + 5], s[p + 5..m.end], x);
      }
    }
  }

  /** `re.subn(r"\bHawai('?)i\b", "Hawaiʻi", s)`: each substitution adds one
      'okina and removes at most one straight quote, no other character
      count changes, and the count is the number of positions where a whole
      word "Hawaii" or "Hawai'i" starts. */
  lemma HawaiiPass(s: string)
    ensures var c := Apply(HawaiiSpelling, s);
      && Occurrences(c.text, Okina) == Occurrences(s, Okina) + c.count
      && Occurrences(c.text, '\'') <= Occurrences(s, '\'') <= Occurrences(c.text, '\'') + c.count
      && (forall x :: x != Okina && x != '\'' ==> Occurrences(c.text, x) == Occurrences(s, x))
      && c.count == |MatchPositions(Pattern(HawaiiSpelling), s, 0)|
      && c.count == |HawaiiWords(s)|
  {
    PatternAdvances(HawaiiSpelling, s);
    var c := Apply(HawaiiSpelling, s);
    assert s[0..] == s;
    forall x
      ensures (if x == Okina then 1 else if x == '\'' then -1 else 0) * c.count
        <= Occurrences(c.text, x) - Occurrences(s, x)
        <= (if x == Okina then 1 else 0) * c.count
    {
      HawaiiShifts(s, x);
      SubnShifts(Pattern(HawaiiSpelling), s, 0, x, if x == Okina then 1 else if x == '\'' then -1 else 0,
        if x == Okina then 1 else 0);
    }
    assert Occurrences(c.text, Okina) - Occurrences(s, Okina) == c.count;
    assert -1 * c.count <= Occurrences(c.text, '\'') - Occurrences(s, '\'') <= 0;
    HawaiiNoOverlap(s);
    CountIsMatchPositions(Pattern(HawaiiSpelling), s, 0);
    forall p | 0 <= p < |s|
      ensures Pattern(HawaiiSpelling)(s, p).Some? <==> WholeWordHawaii(s, p)
    {
      assert Pattern(HawaiiSpelling)(s, p) == HawaiiAt(s, p);
      HawaiiAtIff(s, p);
    }
    assert MatchPositions(Pattern(HawaiiSpelling), s, 0) == HawaiiWords(s);
  }
}
