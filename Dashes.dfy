/** The dash rules: two or three hyphens between words become an em dash, and
    the hyphen of a numeric range becomes an en dash. */
module Dashes {
  import opened Text
  import opened Rules
  import opened Scan

  /** What `\b\-\-\-?(\b|\n)` asks, read directly: a word character, two or
      three hyphens, then a word character or a newline. */
  lemma EmDashAtIff(s: string, p: nat)
    requires p < |s|
    ensures EmDashAt(s, p).Some? <==>
      && 0 < p && IsWord(s[p - 1]) && p + 2 < |s| && s[p] == '-' && s[p + 1] == '-'
      && (IsWord(s[p + 2]) || s[p + 2] == '\n'
          || (s[p + 2] == '-' && p + 3 < |s| && (IsWord(s[p + 3]) || s[p + 3] == '\n')))
  {
    LiteralAtIsSlice(s, p, "--");
    if LiteralAt(s, p, "--") {
      assert s[p] == "--"[0] && s[p + 1] == "--"[1];
    }
    if p + 1 < |s| && s[p] == '-' && s[p + 1] == '-' {
      assert s[p..p + 2] == "--";
    }
  }

  /** The text an em dash match covers and what replaces it. */
  lemma EmDashForms(s: string, p: nat)
    requires p < |s| && EmDashAt(s, p).Some?
    ensures var m := EmDashAt(s, p).value;
      || (s[p..m.end] == "--" && m.repl == [EmDash])
      || (s[p..m.end] == "---" && m.repl == [EmDash])
      || (s[p..m.end] == "--\n" && m.repl == [EmDash, '\n'])
      || (s[p..m.end] == "---\n" && m.repl == [EmDash, '\n'])
  {
    LiteralAtIsSlice(s, p, "--");
    assert s[p] == '-' && s[p + 1] == '-' by {
      assert s[p..p + 2] == "--";
      assert s[p..p + 2][0] == s[p] && s[p..p + 2][1] == s[p + 1];
    }
    var m := EmDashAt(s, p).value;
    if m.end == p + 2 {
      assert s[p..m.end] == "--";
    } else if m.end == p + 3 && m.repl == [EmDash] {
      assert s[p..m.end] == "---";
    } else if m.end == p + 3 {
      assert s[p..m.end] == "--\n";
    } else {
      assert s[p..m.end] == "---\n";
    }
  }

  /** Matches of the em dash rule never overlap: a match cannot start right
      after a hyphen. */
  lemma EmDashNoOverlap(s: string)
    requires Advances(Pattern(EmDashRule), s)
    ensures NoOverlap(Pattern(EmDashRule), s)
  {
    forall p, q | 0 <= p < q < |s| && Pattern(EmDashRule)(s, p).Some? && q < Pattern(EmDashRule)(s, p).value.end
      ensures Pattern(EmDashRule)(s, q).None?
    {
      var m := EmDashAt(s, p).value;
      EmDashForms(s, p);
      assert s[q - 1] == s[p..m.end][q - 1 - p] == '-';
      assert s[q] == s[p..m.end][q - p];
      EmDashAtIff(s, q);
    }
  }

  /** Each em dash match trades two or three hyphens for one em dash. */
  lemma EmDashShifts(s: string, x: char)
    requires Advances(Pattern(EmDashRule), s)
    ensures ShiftsBy(Pattern(EmDashRule), s, x,
      if x == EmDash then 1 else if x == '-' then -3 else 0,
      if x == EmDash then 1 else if x == '-' then -2 else 0)
  {
    forall p | 0 <= p < |s| && Pattern(EmDashRule)(s, p).Some?
      ensures var m := Pattern(EmDashRule)(s, p).value;
        var d := Occurrences(m.repl, x) - Occurrences(s[p..m.end], x);
        (if x == EmDash then 1 else if x == '-' then -3 else 0) <= d
        <= (if x == EmDash then 1 else if x == '-' then -2 else 0)
    {
      assert Pattern(EmDashRule)(s, p) == EmDashAt(s, p);
      EmDashForms(s, p);
      DashFormCounts(x);
    }
  }

  /** How often x occurs in the texts an em dash match covers and in what
      replaces them. */
  lemma DashFormCounts(x: char)
    ensures Occurrences("--", x) == if x == '-' then 2 else 0
    ensures Occurrences("---", x) == if x == '-' then 3 else 0
    ensures Occurrences("--\n", x) == if x == '-' then 2 else if x == '\n' then 1 else 0
    ensures Occurrences("---\n", x) == if x == '-' then 3 else if x == '\n' then 1 else 0
    ensures Occurrences([EmDash], x) == if x == EmDash then 1 else 0
    ensures Occurrences([EmDash, '\n'], x) == if x == EmDash then 1 else if x == '\n' then 1 else 0
  {
    OccurrencesSingle(EmDash, x);
    OccurrencesSingle('-', x);
    OccurrencesSingle('\n', x);
    OccurrencesAppend([EmDash], ['\n'], x);
    OccurrencesAppend("-", "-", x);
    OccurrencesAppend("--", "-", x);
    OccurrencesAppend("--", "\n", x);
    OccurrencesAppend("---", "\n", x);
    assert "---" == "--" + "-" && "--\n" == "--" + "\n" && "---\n" == "---" + "\n";
    assert [EmDash, '\n'] == [EmDash] + ['\n'];
  }

  /** `re.subn(r"\b\-\-\-?(\b|\n)", r"—\1", s)`: each substitution adds one em
      dash and removes two or three hyphens, every other character is kept,
      and the count is the number of positions where the pattern matches. */
  lemma EmDashPass(s: string)
    ensures var c := Apply(EmDashRule, s);
      && Occurrences(c.text, EmDash) == Occurrences(s, EmDash) + c.count
      && 2 * c.count <= Occurrences(s, '-') - Occurrences(c.text, '-') <= 3 * c.count
      && (forall x :: x != '-' && x != EmDash ==> Occurrences(c.text, x) == Occurrences(s, x))
      && c.count == |MatchPositions(Pattern(EmDashRule), s, 0)|
  {
    PatternAdvances(EmDashRule, s);
    var c := Apply(EmDashRule, s);
    assert s[0..] == s;
    forall x
      ensures (if x == EmDash then 1 else if x == '-' then -3 else 0) * c.count
        <= Occurrences(c.text, x) - Occurrences(s, x)
        <= (if x == EmDash then 1 else if x == '-' then -2 else 0) * c.count
    {
      EmDashShifts(s, x);
      SubnShifts(Pattern(EmDashRule), s, 0, x, if x == EmDash then 1 else if x == '-' then -3 else 0,
        if x == EmDash then 1 else if x == '-' then -2 else 0);
    }
    assert Occurrences(c.text, EmDash) - Occurrences(s, EmDash) == c.count;
    assert -3 * c.count <= Occurrences(c.text, '-') - Occurrences(s, '-') <= -2 * c.count;
    EmDashNoOverlap(s);
    CountIsMatchPositions(Pattern(EmDashRule), s, 0);
  }

  /** The hyphen at k joins two digit runs into a numeric range that the
      en dash rule, scanning from i, replaces: the runs are maximal, the left
      one starts at or after i, and neither touches another hyphen. */
  predicate EnDashSite(s: string, i: nat, k: nat)
    requires k < |s|
  {
    s[k] == '-' &&
    var a := RunStart(s, k, IsDigit);
    var b := RunEnd(s, k + 1, IsDigit);
    i <= a < k && k + 1 < b && (a == 0 || s[a - 1] != '-') && (b == |s| || s[b] != '-')
  }

  /** The text with every range hyphen of s from i on made an en dash. */
  function EnDashed(s: string, i: nat): (t: string)
    requires i <= |s|
    ensures |t| == |s| - i
  {
    seq(|s| - i, j requires 0 <= j < |s| - i => if EnDashSite(s, i, i + j) then EnDash else s[i + j])
  }

  /** No match at i: the range hyphens from i on are those from i + 1 on. */
  lemma EnDashedSkip(s: string, i: nat)
    requires i < |s| && EnDashAt(s, i).None?
    ensures EnDashed(s, i) == [s[i]] + EnDashed(s, i + 1)
  {
    forall k | i < k < |s|
      ensures EnDashSite(s, i, k) == EnDashSite(s, i + 1, k)
    {
      if EnDashSite(s, i, k) && RunStart(s, k, IsDigit) == i {
        RunEndUnique(s, i, k, IsDigit);
      }
    }
    assert EnDashed(s, i) == [s[i]] + EnDashed(s, i + 1);
  }

  /** Within a match at i, the only range hyphen is the matched one. */
  lemma EnDashMatchSites(s: string, i: nat)
    requires i < |s| && EnDashAt(s, i).Some?
    ensures var e := RunEnd(s, i, IsDigit);
      && e < |s| && EnDashAt(s, i).value.end == RunEnd(s, e + 1, IsDigit)
      && EnDashAt(s, i).value.repl == s[i..e] + [EnDash] + s[e + 1..EnDashAt(s, i).value.end]
      && forall k :: i <= k < EnDashAt(s, i).value.end ==> (EnDashSite(s, i, k) <==> k == e)
  {
    var e := RunEnd(s, i, IsDigit);
    var f := EnDashAt(s, i).value.end;
    RunStartUnique(s, i, e, IsDigit);
    assert EnDashSite(s, i, e);
    assert forall k :: e < k < f ==> IsDigit(s[k]);
  }

  /** Past a match at f, the range hyphens are those of a scan resuming at f. */
  lemma EnDashSitesAfter(s: string, i: nat, f: nat)
    requires i <= f <= |s| && (f == |s| || !(s[f] == '-' || IsDigit(s[f])))
    ensures forall k :: f <= k < |s| ==> EnDashSite(s, i, k) == EnDashSite(s, f, k)
  {
    forall k | f <= k < |s|
      ensures EnDashSite(s, i, k) == EnDashSite(s, f, k)
    {
      if s[k] == '-' && k > f {
        assert RunStart(s, k, IsDigit) > f;
      }
    }
  }

  /** A match at i: its hyphen is a range hyphen, and the sites after the
      match are those of a scan resuming there. */
  lemma EnDashedMatch(s: string, i: nat)
    requires i < |s| && EnDashAt(s, i).Some?
    ensures var m := EnDashAt(s, i).value; EnDashed(s, i) == m.repl + EnDashed(s, m.end)
  {
    var m := EnDashAt(s, i).value;
    var t := EnDashed(s, i);
    EnDashedHead(s, i);
    EnDashedTail(s, i, m.end);
    assert t == t[..m.end - i] + t[m.end - i..];
  }

  lemma EnDashedHead(s: string, i: nat)
    requires i < |s| && EnDashAt(s, i).Some?
    ensures var m := EnDashAt(s, i).value; EnDashed(s, i)[..m.end - i] == m.repl
  {
    EnDashMatchSites(s, i);
    var m := EnDashAt(s, i).value;
    EnDashedPrefix(s, i, RunEnd(s, i, IsDigit), m.end, m.repl);
  }

  /** The part of the reference a match covers, given the match's one range
      hyphen at e. */
  lemma EnDashedPrefix(s: string, i: nat, e: nat, f: nat, repl: string)
    requires i <= e < f <= |s| && repl == s[i..e] + [EnDash] + s[e + 1..f]
    requires forall k :: i <= k < f ==> (EnDashSite(s, i, k) <==> k == e)
    ensures EnDashed(s, i)[..f - i] == repl
  {
    var t := EnDashed(s, i)[..f - i];
    forall k | 0 <= k < f - i
      ensures t[k] == repl[k]
    {
      if i + k < e {
        assert repl[k] == s[i..e][k];
      } else if i + k > e {
        assert repl[k] == s[e + 1..f][k - (e - i) - 1];
      }
    }
  }

  lemma EnDashedTail(s: string, i: nat, f: nat)
    requires i <= f <= |s| && (f == |s| || !(s[f] == '-' || IsDigit(s[f])))
    ensures EnDashed(s, i)[f - i..] == EnDashed(s, f)
  {
    EnDashSitesAfter(s, i, f);
  }

  /** The scan from i replaces exactly the range hyphens. */
  lemma {:induction false} EnDashScan(s: string, i: nat)
    requires i <= |s| && Advances(Pattern(EnDashRule), s)
    ensures Subn(Pattern(EnDashRule), s, i).text == EnDashed(s, i)
    decreases |s| - i
  {
    if i < |s| {
      assert Pattern(EnDashRule)(s, i) == EnDashAt(s, i);
      match EnDashAt(s, i)
      case None =>
        EnDashedSkip(s, i);
        EnDashScan(s, i + 1);
      case Some(m) =>
        EnDashedMatch(s, i);
        EnDashScan(s, m.end);
    }
  }

  /** Every en dash match is a point edit from - to –. */
  lemma EnDashIsPointEdit(s: string)
    requires Advances(Pattern(EnDashRule), s)
    ensures AllPointEdits(Pattern(EnDashRule), s, 0, '-', EnDash)
  {
    forall p | 0 <= p < |s| && Pattern(EnDashRule)(s, p).Some?
      ensures PointEdit(s, p, Pattern(EnDashRule)(s, p).value, '-', EnDash)
    {
      var m := EnDashAt(s, p).value;
      var e := RunEnd(s, p, IsDigit);
      assert m.repl == s[p..e] + [EnDash] + s[e + 1..m.end];
    }
  }

  /** `re.subn(r"(?<![\d\-])(\d+)(\-)(\d+)(?![\-\d])", r"\1–\3", s)`: exactly
      the hyphens between two digit runs that touch no further hyphen become
      en dashes, nothing else changes, and the count is the number of en
      dashes added. */
  lemma EnDashPass(s: string)
    ensures var c := Apply(EnDashRule, s);
      && |c.text| == |s|
      && (forall k :: 0 <= k < |s| ==> c.text[k] == if EnDashSite(s, 0, k) then EnDash else s[k])
      && Occurrences(c.text, EnDash) == Occurrences(s, EnDash) + c.count
      && Occurrences(c.text, '-') + c.count == Occurrences(s, '-')
  {
    PatternAdvances(EnDashRule, s);
    EnDashScan(s, 0);
    EnDashIsPointEdit(s);
    PointPassCounts(Pattern(EnDashRule), s, 0, '-', EnDash);
    assert s[0..] == s;
  }
}
