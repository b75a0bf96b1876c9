/** The ellipsis rule: each "..." found left to right becomes "…". */
module Ellipses {
  import opened Text
  import opened Rules
  import opened Scan

  predicate IsDot(c: char) {
    c == '.'
  }

  /** n copies of c. */
  function Repeat(c: char, n: nat): (t: string)
    ensures |t| == n
  {
    if n == 0 then [] else [c] + Repeat(c, n - 1)
  }

  /** What a run of n periods becomes: n / 3 ellipses, then the n % 3
      periods left over. */
  function DotsImage(n: nat): string {
    Repeat(Ellipsis, n / 3) + Repeat('.', n % 3)
  }

  /** Reference for the pass from i: each maximal run of n periods becomes
      n / 3 ellipses followed by the n % 3 periods left over. */
  function Collapsed(s: string, i: nat): string
    requires i <= |s|
    decreases |s| - i
  {
    if i == |s| then []
    else if !IsDot(s[i]) then [s[i]] + Collapsed(s, i + 1)
    else
      var e := RunEnd(s, i, IsDot);
      DotsImage(e - i) + Collapsed(s, e)
  }

  /** The sum over the maximal period runs from i of a third of their length,
      rounded down. */
  function Thirds(s: string, i: nat): nat
    requires i <= |s|
    decreases |s| - i
  {
    if i == |s| then 0
    else if !IsDot(s[i]) then Thirds(s, i + 1)
    else
      var e := RunEnd(s, i, IsDot);
      (e - i) / 3 + Thirds(s, e)
  }

  lemma RepeatCons(c: char, n: nat)
    requires n > 0
    ensures Repeat(c, n) == [c] + Repeat(c, n - 1)
  {
  }

  /** Three periods at p are a match. */
  lemma DotsMatch(s: string, p: nat)
    requires p + 3 <= |s| && IsDot(s[p]) && IsDot(s[p + 1]) && IsDot(s[p + 2])
    ensures Pattern(EllipsisRule)(s, p) == Some(Match(p + 3, [Ellipsis]))
  {
    assert Pattern(EllipsisRule)(s, p) == EllipsisAt(s, p);
    LiteralAtIsSlice(s, p, "...");
    assert s[p..p + 3] == "...";
  }

  /** Anything else at p is not. */
  lemma DotsMismatch(s: string, p: nat, q: nat)
    requires p <= q < p + 3 && q <= |s| && (q == |s| || !IsDot(s[q]))
    ensures Pattern(EllipsisRule)(s, p) == None
  {
    assert Pattern(EllipsisRule)(s, p) == (if p < |s| then EllipsisAt(s, p) else None);
    LiteralAtIsSlice(s, p, "...");
    if p + 3 <= |s| {
      assert s[p..p + 3][q - p] == s[q];
    }
  }

  /** Inside a run of periods ending at e, the ellipsis matcher matches
      exactly where at least three periods remain. */
  predicate RunMatches(f: Matcher, s: string, i: nat, e: nat) {
    && e <= |s|
    && (forall p :: i <= p < e ==> s[p] == '.')
    && (forall p :: i <= p < e ==> f(s, p) == if e - p >= 3 then Some(Match(p + 3, [Ellipsis])) else None)
  }

  lemma DotRunMatches(s: string, i: nat, e: nat)
    requires i <= e <= |s|
    requires forall k :: i <= k < e ==> IsDot(s[k])
    requires e == |s| || !IsDot(s[e])
    ensures RunMatches(Pattern(EllipsisRule), s, i, e)
  {
    forall p | i <= p < e
      ensures Pattern(EllipsisRule)(s, p) == if e - p >= 3 then Some(Match(p + 3, [Ellipsis])) else None
    {
      if e - p >= 3 {
        DotsMatch(s, p);
      } else {
        DotsMismatch(s, p, e);
      }
    }
  }

  /** A match at i puts one ellipsis in front of the rest of the scan. */
  lemma EllipsisStep(f: Matcher, s: string, i: nat, e: nat, tail: string, count: nat)
    requires i + 3 <= e <= |s| && Advances(f, s) && f(s, i) == Some(Match(i + 3, [Ellipsis]))
    requires Subn(f, s, i + 3) == Correction(DotsImage(e - (i + 3)) + tail, (e - (i + 3)) / 3 + count)
    ensures Subn(f, s, i) == Correction(DotsImage(e - i) + tail, (e - i) / 3 + count)
  {
    var n := e - i;
    assert e - (i + 3) == n - 3;
    ThirdsArith(n);
    var q, r := n / 3 - 1, n % 3;
    RepeatCons(Ellipsis, q + 1);
    assert [Ellipsis] + (Repeat(Ellipsis, q) + Repeat('.', r) + tail)
      == Repeat(Ellipsis, q + 1) + Repeat('.', r) + tail;
  }

  /** No match at a period puts that period in front of the rest of the scan. */
  lemma PeriodStep(f: Matcher, s: string, i: nat, e: nat, tail: string, count: nat)
    requires i < e < i + 3 && e <= |s| && Advances(f, s) && f(s, i) == None && s[i] == '.'
    requires Subn(f, s, i + 1) == Correction(DotsImage(e - (i + 1)) + tail, (e - (i + 1)) / 3 + count)
    ensures Subn(f, s, i) == Correction(DotsImage(e - i) + tail, (e - i) / 3 + count)
  {
    var n := e - i;
    assert e - (i + 1) == n - 1;
    ThirdsArith(n);
    RepeatCons('.', n);
    assert Repeat(Ellipsis, 0) == [];
    assert ['.'] + ([] + Repeat('.', n - 1) + tail) == [] + Repeat('.', n) + tail;
  }

  /** Inside a run of periods ending at e, the scan emits a third of the run
      as ellipses and the rest as periods. */
  lemma {:induction false} DotRunScan(f: Matcher, s: string, i: nat, e: nat)
    requires i <= e <= |s| && Advances(f, s) && RunMatches(f, s, i, e)
    ensures var c := Subn(f, s, i); var d := Subn(f, s, e);
      c == Correction(DotsImage(e - i) + d.text, (e - i) / 3 + d.count)
    decreases e - i, 1
  {
    if i == e {
      assert DotsImage(0) + Subn(f, s, e).text == Subn(f, s, e).text;
    } else if e - i >= 3 {
      DotRunEllipsis(f, s, i, e);
    } else {
      DotRunPeriod(f, s, i, e);
    }
  }

  /** Three or more periods left: an ellipsis, then the scan of the rest. */
  lemma {:induction false} DotRunEllipsis(f: Matcher, s: string, i: nat, e: nat)
    requires i + 3 <= e <= |s| && Advances(f, s) && RunMatches(f, s, i, e)
    ensures var c := Subn(f, s, i); var d := Subn(f, s, e);
      c == Correction(DotsImage(e - i) + d.text, (e - i) / 3 + d.count)
    decreases e - i, 0
  {
    var d := Subn(f, s, e);
    RunMatchesAt(f, s, i, i + 3, e);
    DotRunScan(f, s, i + 3, e);
    EllipsisStep(f, s, i, e, d.text, d.count);
  }

  /** One or two periods left: a period, then the scan of the rest. */
  lemma {:induction false} DotRunPeriod(f: Matcher, s: string, i: nat, e: nat)
    requires i < e < i + 3 && e <= |s| && Advances(f, s) && RunMatches(f, s, i, e)
    ensures var c := Subn(f, s, i); var d := Subn(f, s, e);
      c == Correction(DotsImage(e - i) + d.text, (e - i) / 3 + d.count)
    decreases e - i, 0
  {
    var d := Subn(f, s, e);
    RunMatchesAt(f, s, i, i + 1, e);
    DotRunScan(f, s, i + 1, e);
    PeriodStep(f, s, i, e, d.text, d.count);
  }

  /** What the matcher does at the start of a run, and the rest of the run. */
  lemma RunMatchesAt(f: Matcher, s: string, i: nat, j: nat, e: nat)
    requires i < j <= e && RunMatches(f, s, i, e)
    ensures s[i] == '.' && f(s, i) == if e - i >= 3 then Some(Match(i + 3, [Ellipsis])) else None
    ensures RunMatches(f, s, j, e)
  {
  }

  lemma ThirdsArith(n: nat)
    ensures n >= 3 ==> (n - 3) / 3 == n / 3 - 1 && (n - 3) % 3 == n % 3 && n / 3 > 0
    ensures 0 < n < 3 ==> n / 3 == 0 && n % 3 == n && (n - 1) / 3 == 0 && (n - 1) % 3 == n - 1
  {
  }

  /** The pass from i is the reference: Collapsed text, Thirds substitutions. */
  lemma {:induction false} EllipsisScan(s: string, i: nat)
    requires i <= |s| && Advances(Pattern(EllipsisRule), s)
    ensures Subn(Pattern(EllipsisRule), s, i) == Correction(Collapsed(s, i), Thirds(s, i))
    decreases |s| - i
  {
    if i < |s| {
      if IsDot(s[i]) {
        var e := RunEnd(s, i, IsDot);
        EllipsisScan(s, e);
        DotRunCase(s, i, e);
      } else {
        EllipsisScan(s, i + 1);
        OtherCase(s, i);
      }
    }
  }

  /** A maximal run of periods: the scan over it is the reference. */
  lemma DotRunCase(s: string, i: nat, e: nat)
    requires i < |s| && IsDot(s[i]) && e == RunEnd(s, i, IsDot) && Advances(Pattern(EllipsisRule), s)
    requires Subn(Pattern(EllipsisRule), s, e) == Correction(Collapsed(s, e), Thirds(s, e))
    ensures Subn(Pattern(EllipsisRule), s, i) == Correction(Collapsed(s, i), Thirds(s, i))
  {
    DotRunMatches(s, i, e);
    DotRunScan(Pattern(EllipsisRule), s, i, e);
    DotRunUnfold(s, i, e);
  }

  /** The reference over a maximal run of periods. */
  lemma {:induction false} DotRunUnfold(s: string, i: nat, e: nat)
    requires i < |s| && IsDot(s[i]) && e == RunEnd(s, i, IsDot)
    ensures Collapsed(s, i) == DotsImage(e - i) + Collapsed(s, e)
    ensures Thirds(s, i) == (e - i) / 3 + Thirds(s, e)
  {
    CollapsedAt(s, i);
  }

  lemma {:induction false} CollapsedAt(s: string, i: nat)
    requires i < |s| && IsDot(s[i])
    ensures Collapsed(s, i) == DotsImage(RunEnd(s, i, IsDot) - i) + Collapsed(s, RunEnd(s, i, IsDot))
  {
  }

  /** A character other than a period: the scan copies it. */
  lemma OtherCase(s: string, i: nat)
    requires i < |s| && !IsDot(s[i]) && Advances(Pattern(EllipsisRule), s)
    requires Subn(Pattern(EllipsisRule), s, i + 1) == Correction(Collapsed(s, i + 1), Thirds(s, i + 1))
    ensures Subn(Pattern(EllipsisRule), s, i) == Correction(Collapsed(s, i), Thirds(s, i))
  {
    DotsMismatch(s, i, i);
  }

  /** No three periods in a row. */
  predicate NoTripleDots(t: string) {
    forall k :: 0 <= k && k + 2 < |t| ==> !(t[k] == '.' && t[k + 1] == '.' && t[k + 2] == '.')
  }

  /** Text with periods only in its last two places, followed by text that
      does not start with a period, has no three periods in a row if the
      second part has none. */
  lemma NoTripleDotsAppend(a: string, b: string)
    requires forall k :: 0 <= k < |a| - 2 ==> a[k] != '.'
    requires b == [] || b[0] != '.'
    requires NoTripleDots(b)
    ensures NoTripleDots(a + b)
  {
    var t := a + b;
    forall k | 0 <= k && k + 2 < |t|
      ensures !(t[k] == '.' && t[k + 1] == '.' && t[k + 2] == '.')
    {
      if k >= |a| {
        assert t[k] == b[k - |a|] && t[k + 1] == b[k + 1 - |a|] && t[k + 2] == b[k + 2 - |a|];
      } else if k + 2 == |a| {
        assert t[k + 2] == b[0];
      } else if k + 1 == |a| {
        assert t[k + 1] == b[0];
      }
    }
  }

  /** A character other than a period, followed by text with no three
      periods in a row, starts no such run. */
  lemma NoTripleDotsCons(c: char, b: string)
    requires c != '.' && NoTripleDots(b)
    ensures NoTripleDots([c] + b)
  {
    var t := [c] + b;
    forall k | 1 <= k && k + 2 < |t|
      ensures !(t[k] == '.' && t[k + 1] == '.' && t[k + 2] == '.')
    {
      assert t[k] == b[k - 1] && t[k + 1] == b[k] && t[k + 2] == b[k + 1];
    }
  }

  /** The reference text from i has no three periods in a row, and it starts
      with a period only where s does. */
  lemma {:induction false} CollapsedNoTriple(s: string, i: nat)
    requires i <= |s|
    ensures NoTripleDots(Collapsed(s, i))
    ensures Collapsed(s, i) == [] || (Collapsed(s, i)[0] == '.' <==> IsDot(s[i]) && RunEnd(s, i, IsDot) - i < 3)
    decreases |s| - i
  {
    if i < |s| {
      if !IsDot(s[i]) {
        CollapsedNoTriple(s, i + 1);
        NoTripleDotsCons(s[i], Collapsed(s, i + 1));
      } else {
        var e := RunEnd(s, i, IsDot);
        CollapsedNoTriple(s, e);
        DotRunNoTriple(s, i, e);
      }
    }
  }

  /** A maximal run of periods in front of reference text with no three
      periods in a row adds none. */
  lemma DotRunNoTriple(s: string, i: nat, e: nat)
    requires i < |s| && IsDot(s[i]) && e == RunEnd(s, i, IsDot)
    requires NoTripleDots(Collapsed(s, e)) && (Collapsed(s, e) == [] || Collapsed(s, e)[0] != '.')
    ensures NoTripleDots(Collapsed(s, i))
    ensures Collapsed(s, i)[0] == '.' <==> RunEnd(s, i, IsDot) - i < 3
  {
    var a := DotsImage(e - i);
    DotsImageShape(e - i);
    NoTripleDotsAppend(a, Collapsed(s, e));
    assert Collapsed(s, i) == a + Collapsed(s, e);
    assert (a + Collapsed(s, e))[0] == a[0];
  }

  /** What a run of n periods becomes holds periods only in its last two
      places, and starts with a period exactly when the run is shorter than
      three. */
  lemma DotsImageShape(n: nat)
    requires n > 0
    ensures var a := DotsImage(n);
      && a != [] && (forall k :: 0 <= k < |a| - 2 ==> a[k] != '.')
      && (a[0] == '.' <==> n < 3)
  {
    RepeatAll(Ellipsis, n / 3);
    RepeatAll('.', n % 3);
    var a := DotsImage(n);
    assert forall k :: 0 <= k < |a| ==> a[k] == (if k < n / 3 then Ellipsis else '.');
  }

  /** n copies of c hold c at every place. */
  lemma {:induction false} RepeatAll(c: char, n: nat)
    ensures forall k :: 0 <= k < n ==> Repeat(c, n)[k] == c
  {
    if n > 0 {
      RepeatAll(c, n - 1);
      assert forall k :: 1 <= k < n ==> Repeat(c, n)[k] == Repeat(c, n - 1)[k - 1];
    }
  }

  /** Each match trades three periods for one ellipsis. */
  lemma EllipsisShifts(s: string, x: char)
    requires Advances(Pattern(EllipsisRule), s)
    ensures var d := if x == Ellipsis then 1 else if x == '.' then -3 else 0;
      ShiftsBy(Pattern(EllipsisRule), s, x, d, d)
  {
    forall p | 0 <= p < |s| && Pattern(EllipsisRule)(s, p).Some?
      ensures var m := Pattern(EllipsisRule)(s, p).value;
        Occurrences(m.repl, x) - Occurrences(s[p..m.end], x)
          == if x == Ellipsis then 1 else if x == '.' then -3 else 0
    {
      LiteralAtIsSlice(s, p, "...");
      OccurrencesSingle(Ellipsis, x);
      OccurrencesSingle('.', x);
      OccurrencesAppend(".", ".", x);
      OccurrencesAppend("..", ".", x);
      assert "..." == ".." + ".";
    }
  }

  /** `re.subn(r"\.\.\.", "…", s)`: the text is the reference Collapsed, in
      which no three periods remain in a row; the count is the sum over
      maximal period runs of a third of their length, rounded down; and each
      substitution trades three periods for one ellipsis. */
  lemma EllipsisPass(s: string)
    ensures var c := Apply(EllipsisRule, s);
      && c == Correction(Collapsed(s, 0), Thirds(s, 0))
      && NoTripleDots(c.text)
      && Occurrences(c.text, Ellipsis) == Occurrences(s, Ellipsis) + c.count
      && Occurrences(c.text, '.') + 3 * c.count == Occurrences(s, '.')
      && (forall x :: x != '.' && x != Ellipsis ==> Occurrences(c.text, x) == Occurrences(s, x))
  {
    PatternAdvances(EllipsisRule, s);
    EllipsisScan(s, 0);
    CollapsedNoTriple(s, 0);
    var c := Apply(EllipsisRule, s);
    assert s[0..] == s;
    forall x
      ensures var d := if x == Ellipsis then 1 else if x == '.' then -3 else 0;
        d * c.count <= Occurrences(c.text, x) - Occurrences(s, x) <= d * c.count
    {
      EllipsisShifts(s, x);
      var d := if x == Ellipsis then 1 else if x == '.' then -3 else 0;
      SubnShifts(Pattern(EllipsisRule), s, 0, x, d, d);
    }
    assert -3 * c.count <= Occurrences(c.text, '.') - Occurrences(s, '.') <= -3 * c.count;
  }

  /** A text with no three periods in a row is left alone. */
  lemma NoTripleSettles(t: string)
    requires NoTripleDots(t)
    ensures Apply(EllipsisRule, t) == Correction(t, 0)
  {
    PatternAdvances(EllipsisRule, t);
    forall p | 0 <= p < |t|
      ensures Pattern(EllipsisRule)(t, p).None?
    {
      LiteralAtIsSlice(t, p, "...");
      if p + 3 <= |t| {
        var w := t[p..p + 3];
        assert w[0] == t[p] && w[1] == t[p + 1] && w[2] == t[p + 2];
      }
    }
    NoCountIffNoMatch(Pattern(EllipsisRule), t, 0);
    assert t[0..] == t;
  }

  /** Hence a second ellipsis pass finds nothing. */
  lemma EllipsisSettles(s: string)
    ensures var t := Apply(EllipsisRule, s).text; Apply(EllipsisRule, t) == Correction(t, 0)
  {
    EllipsisPass(s);
    NoTripleSettles(Apply(EllipsisRule, s).text);
  }
}
