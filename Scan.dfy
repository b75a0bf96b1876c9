/** Properties of the `re.subn` scan that hold for every rule. */
module Scan {
  import opened Text
  import opened Rules

  /** LiteralAt is the slice comparison it abbreviates. */
  lemma LiteralAtIsSlice(s: string, p: nat, lit: string)
    requires p <= |s|
    ensures LiteralAt(s, p, lit) <==> p + |lit| <= |s| && s[p..p + |lit|] == lit
  {
    LiteralFromIsSlice(s, p, lit, 0);
    if p + |lit| <= |s| {
      var t := s[p..p + |lit|];
      assert forall j :: 0 <= j < |lit| ==> t[j] == s[p + j];
    }
  }

  lemma {:induction false} LiteralFromIsSlice(s: string, p: nat, lit: string, k: nat)
    requires k <= |lit| && p + k <= |s|
    ensures LiteralFrom(s, p, lit, k) <==>
      p + |lit| <= |s| && forall j :: k <= j < |lit| ==> s[p + j] == lit[j]
    decreases |lit| - k
  {
    if k < |lit| && p + k < |s| {
      LiteralFromIsSlice(s, p, lit, k + 1);
    }
  }

  /** re.subn makes no substitution exactly when the pattern matches at no
      position of the scanned text, and then the text comes back as it was. */
  lemma {:induction false} NoCountIffNoMatch(f: Matcher, s: string, i: nat)
    requires i <= |s| && Advances(f, s)
    ensures Subn(f, s, i).count == 0 <==> forall p :: i <= p < |s| ==> f(s, p).None?
    ensures Subn(f, s, i).count == 0 ==> Subn(f, s, i).text == s[i..]
    decreases |s| - i
  {
    if i < |s| {
      NoCountIffNoMatch(f, s, i + 1);
      if f(s, i).None? {
        assert s[i..] == [s[i]] + s[i + 1..];
      }
    }
  }

  /** A stretch of positions where the pattern does not match is copied. */
  lemma {:induction false} SubnSkip(f: Matcher, s: string, i: nat, j: nat)
    requires i <= j <= |s| && Advances(f, s)
    requires forall p :: i <= p < j ==> f(s, p).None?
    ensures Subn(f, s, i) == Correction(s[i..j] + Subn(f, s, j).text, Subn(f, s, j).count)
    decreases j - i
  {
    if i < j {
      SubnSkip(f, s, i + 1, j);
      assert s[i..j] == [s[i]] + s[i + 1..j];
    } else {
      assert s[i..j] == [];
    }
  }

  /** The positions from i on where the pattern matches the pass input. */
  function MatchPositions(f: Matcher, s: string, i: nat): (ps: set<nat>)
    requires i <= |s| && Advances(f, s)
    ensures forall p :: p in ps <==> i <= p < |s| && f(s, p).Some?
  {
    set p: nat | i <= p < |s| && f(s, p).Some?
  }

  /** No match starts strictly inside another match. */
  predicate NoOverlap(f: Matcher, s: string) {
    forall p, q :: 0 <= p < q < |s| && f(s, p).Some? && q < f(s, p).value.end
      ==> f(s, q).None?
  }

  /** When the matches of a pattern cannot overlap, the scan finds every one
      of them: the count is the number of positions where the pattern matches. */
  lemma {:induction false} CountIsMatchPositions(f: Matcher, s: string, i: nat)
    requires i <= |s| && Advances(f, s)
    requires NoOverlap(f, s)
    ensures Subn(f, s, i).count == |MatchPositions(f, s, i)|
    decreases |s| - i
  {
    if i < |s| {
      match f(s, i)
      case None =>
        CountIsMatchPositions(f, s, i + 1);
        assert MatchPositions(f, s, i) == MatchPositions(f, s, i + 1);
      case Some(m) =>
        CountIsMatchPositions(f, s, m.end);
        MatchPositionsTake(f, s, i, m.end);
    }
  }

  /** A match at i is the first of the positions from i; none follow
      inside it. */
  lemma MatchPositionsTake(f: Matcher, s: string, i: nat, e: nat)
    requires i < |s| && Advances(f, s) && NoOverlap(f, s)
    requires f(s, i).Some? && e == f(s, i).value.end
    ensures MatchPositions(f, s, i) == {i} + MatchPositions(f, s, e) && i !in MatchPositions(f, s, e)
  {
    forall p | i < p < e
      ensures f(s, p).None?
    {
    }
  }

  /** The introduced typographic characters. */
  predicate IsIntroduced(c: char) {
    c == Apostrophe || c == Okina || c == EmDash || c == EnDash
    || c == LeftDoubleQuote || c == RightDoubleQuote || c == Ellipsis
  }

  /** Progress measure of a text: one for each introduced character, minus
      one for each space or tab. Every substitution of every rule raises it. */
  function Weight(t: string): int {
    if t == [] then 0
    else (if IsIntroduced(t[0]) then 1 else if IsBlank(t[0]) then -1 else 0) + Weight(t[1..])
  }

  lemma {:induction false} WeightAppend(a: string, b: string)
    ensures Weight(a + b) == Weight(a) + Weight(b)
  {
    if a == [] {
      assert a + b == b;
    } else {
      assert (a + b)[1..] == a[1..] + b;
      WeightAppend(a[1..], b);
    }
  }

  /** Every match of f in s raises the weight of the text it replaces. */
  predicate RaisesWeight(f: Matcher, s: string)
    requires Advances(f, s)
  {
    forall p :: 0 <= p < |s| && f(s, p).Some? ==> Weight(f(s, p).value.repl) > Weight(s[p..f(s, p).value.end])
  }

  /** Each substitution of such a pass raises the weight by at least one. */
  lemma {:induction false} SubnRaisesWeight(f: Matcher, s: string, i: nat)
    requires i <= |s| && Advances(f, s) && RaisesWeight(f, s)
    ensures Weight(Subn(f, s, i).text) >= Weight(s[i..]) + Subn(f, s, i).count
    decreases |s| - i
  {
    if i < |s| {
      match f(s, i)
      case None =>
        SubnRaisesWeight(f, s, i + 1);
        assert s[i..i + 1] == [s[i]];
        WeightStep(s, i, i + 1, [s[i]], Subn(f, s, i + 1).text);
      case Some(m) =>
        SubnRaisesWeight(f, s, m.end);
        WeightStep(s, i, m.end, m.repl, Subn(f, s, m.end).text);
    }
  }

  /** The weight gained over s[i..] by writing repl for s[i..e] and rest for
      s[e..] is the sum of the two gains. */
  lemma WeightStep(s: string, i: nat, e: nat, repl: string, rest: string)
    requires i < e <= |s|
    ensures Weight(repl + rest) - Weight(s[i..]) == (Weight(repl) - Weight(s[i..e])) + (Weight(rest) - Weight(s[e..]))
  {
    assert s[i..] == s[i..e] + s[e..];
    WeightAppend(repl, rest);
    WeightAppend(s[i..e], s[e..]);
  }

  /** For such a pass, a zero count and an unchanged text go together. */
  lemma UnchangedIffNoCount(f: Matcher, s: string)
    requires Advances(f, s) && RaisesWeight(f, s)
    ensures Subn(f, s, 0).count == 0 <==> Subn(f, s, 0).text == s
  {
    NoCountIffNoMatch(f, s, 0);
    SubnRaisesWeight(f, s, 0);
    assert s[0..] == s;
  }

  /** Every match of f in s changes the number of occurrences of x by at
      least lo and at most hi. */
  predicate ShiftsBy(f: Matcher, s: string, x: char, lo: int, hi: int)
    requires Advances(f, s)
  {
    forall p :: 0 <= p < |s| && f(s, p).Some? ==>
      lo <= Occurrences(f(s, p).value.repl, x) - Occurrences(s[p..f(s, p).value.end], x) <= hi
  }

  /** The per-match changes of ShiftsBy add up over a pass. */
  lemma {:induction false} SubnShifts(f: Matcher, s: string, i: nat, x: char, lo: int, hi: int)
    requires i <= |s| && Advances(f, s) && ShiftsBy(f, s, x, lo, hi)
    ensures var c := Subn(f, s, i);
      lo * c.count <= Occurrences(c.text, x) - Occurrences(s[i..], x) <= hi * c.count
    decreases |s| - i
  {
    if i < |s| {
      match f(s, i)
      case None =>
        SubnShifts(f, s, i + 1, x, lo, hi);
        assert s[i..i + 1] == [s[i]];
        OccurrencesStep(s, i, i + 1, [s[i]], Subn(f, s, i + 1).text, x);
      case Some(m) =>
        var rest := Subn(f, s, m.end);
        SubnShifts(f, s, m.end, x, lo, hi);
        OccurrencesStep(s, i, m.end, m.repl, rest.text, x);
        ShiftArith(lo, hi, rest.count,
          Occurrences(rest.text, x) - Occurrences(s[m.end..], x),
          Occurrences(m.repl, x) - Occurrences(s[i..m.end], x));
    }
  }

  /** The change in occurrences of x over s[i..] from writing repl for
      s[i..e] and rest for s[e..] is the sum of the two changes. */
  lemma OccurrencesStep(s: string, i: nat, e: nat, repl: string, rest: string, x: char)
    requires i < e <= |s|
    ensures Occurrences(repl + rest, x) - Occurrences(s[i..], x)
      == (Occurrences(repl, x) - Occurrences(s[i..e], x)) + (Occurrences(rest, x) - Occurrences(s[e..], x))
  {
    assert s[i..] == s[i..e] + s[e..];
    OccurrencesAppend(repl, rest, x);
    OccurrencesAppend(s[i..e], s[e..], x);
  }

  lemma ShiftArith(lo: int, hi: int, n: nat, d: int, e: int)
    requires lo * n <= d <= hi * n && lo <= e <= hi
    ensures lo * (n + 1) <= d + e <= hi * (n + 1)
  {
  }

  /** A match that rewrites one character `from` into `to` and keeps the rest. */
  predicate PointEdit(s: string, p: nat, m: Match, from: char, to: char)
    requires p < m.end <= |s|
  {
    exists q :: p <= q < m.end && s[q] == from && m.repl == s[p..q] + [to] + s[q + 1..m.end]
  }

  /** Every match of r from i on is a point edit from `from` to `to`. */
  predicate AllPointEdits(f: Matcher, s: string, i: nat, from: char, to: char)
    requires Advances(f, s)
  {
    forall p :: i <= p < |s| && f(s, p).Some? ==> PointEdit(s, p, f(s, p).value, from, to)
  }

  /** A point edit that introduces a typographic character in place of an
      ordinary one raises the weight by one. */
  lemma PointEditRaisesWeight(s: string, p: nat, m: Match, from: char, to: char)
    requires p < m.end <= |s| && PointEdit(s, p, m, from, to)
    requires IsIntroduced(to) && !IsIntroduced(from) && !IsBlank(from)
    ensures Weight(m.repl) == Weight(s[p..m.end]) + 1
  {
    var q :| p <= q < m.end && s[q] == from && m.repl == s[p..q] + [to] + s[q + 1..m.end];
    assert s[p..m.end] == s[p..q] + [from] + s[q + 1..m.end];
    WeightAppend(s[p..q] + [to], s[q + 1..m.end]);
    WeightAppend(s[p..q], [to]);
    WeightAppend(s[p..q] + [from], s[q + 1..m.end]);
    WeightAppend(s[p..q], [from]);
    assert [to][1..] == [] && [from][1..] == [];
  }

  /** t is u with some occurrences of `from` turned into `to`. */
  predicate Retouched(t: string, u: string, from: char, to: char) {
    |t| == |u| && forall k :: 0 <= k < |t| ==> t[k] == u[k] || (u[k] == from && t[k] == to)
  }

  lemma RetouchedAppend(t1: string, u1: string, t2: string, u2: string, from: char, to: char)
    requires Retouched(t1, u1, from, to) && Retouched(t2, u2, from, to)
    ensures Retouched(t1 + t2, u1 + u2, from, to)
  {
    assert forall k :: |t1| <= k < |t1 + t2| ==> (t1 + t2)[k] == t2[k - |t1|] && (u1 + u2)[k] == u2[k - |t1|];
  }

  /** One point edit is a retouch of the text it replaces. */
  lemma PointEditRetouches(s: string, p: nat, m: Match, from: char, to: char)
    requires p < m.end <= |s| && PointEdit(s, p, m, from, to)
    ensures Retouched(m.repl, s[p..m.end], from, to)
  {
    var q :| p <= q < m.end && s[q] == from && m.repl == s[p..q] + [to] + s[q + 1..m.end];
    var a, b := s[p..q], s[q + 1..m.end];
    assert Retouched(a, a, from, to) && Retouched([to], [from], from, to) && Retouched(b, b, from, to);
    RetouchedAppend(a, a, [to], [from], from, to);
    RetouchedAppend(a + [to], a + [from], b, b, from, to);
    SliceAround(s, p, q, m.end);
  }

  /** A slice is its part before q, the character at q, and its part after. */
  lemma SliceAround(s: string, p: nat, q: nat, e: nat)
    requires p <= q < e <= |s|
    ensures s[p..e] == s[p..q] + [s[q]] + s[q + 1..e]
  {
  }

  /** A pass whose matches are point edits keeps the length and changes
      characters only from `from` into `to`. */
  lemma {:induction false} PointPass(f: Matcher, s: string, i: nat, from: char, to: char)
    requires i <= |s| && Advances(f, s)
    requires AllPointEdits(f, s, i, from, to)
    ensures Retouched(Subn(f, s, i).text, s[i..], from, to)
    decreases |s| - i
  {
    if i < |s| {
      match f(s, i)
      case None =>
        PointPass(f, s, i + 1, from, to);
        assert s[i..] == [s[i]] + s[i + 1..];
        RetouchedAppend([s[i]], [s[i]], Subn(f, s, i + 1).text, s[i + 1..], from, to);
      case Some(m) =>
        PointEditRetouches(s, i, m, from, to);
        PointPass(f, s, m.end, from, to);
        assert s[i..] == s[i..m.end] + s[m.end..];
        RetouchedAppend(m.repl, s[i..m.end], Subn(f, s, m.end).text, s[m.end..], from, to);
    }
  }

  /** The match of f at p covers position k and writes there a character
      other than the one s holds. */
  predicate ChangesAt(f: Matcher, s: string, p: nat, k: nat) {
    && p <= k < |s| && f(s, p).Some? && k < f(s, p).value.end
    && |f(s, p).value.repl| == f(s, p).value.end - p
    && f(s, p).value.repl[k - p] != s[k]
  }

  /** t, the output of a scan from i, has the length of s[i..], and every
      position where it differs from s is changed by a match at or after i. */
  predicate SitesFrom(f: Matcher, s: string, i: nat, t: string) {
    && |t| + i == |s|
    && forall k :: i <= k < |s| && t[k - i] != s[k] ==> exists p :: i <= p <= k && ChangesAt(f, s, p, k)
  }

  lemma SitesCopy(f: Matcher, s: string, i: nat, t: string)
    requires i < |s| && SitesFrom(f, s, i + 1, t)
    ensures SitesFrom(f, s, i, [s[i]] + t)
  {
    var u := [s[i]] + t;
    forall k | i <= k < |s| && u[k - i] != s[k]
      ensures exists p :: i <= p <= k && ChangesAt(f, s, p, k)
    {
      assert k != i && u[k - i] == t[k - (i + 1)];
      var p :| i + 1 <= p <= k && ChangesAt(f, s, p, k);
    }
  }

  lemma SitesTake(f: Matcher, s: string, i: nat, m: Match, t: string)
    requires i < m.end <= |s| && f(s, i) == Some(m) && |m.repl| == m.end - i
    requires SitesFrom(f, s, m.end, t)
    ensures SitesFrom(f, s, i, m.repl + t)
  {
    var u := m.repl + t;
    forall k | i <= k < |s| && u[k - i] != s[k]
      ensures exists p :: i <= p <= k && ChangesAt(f, s, p, k)
    {
      if k < m.end {
        assert u[k - i] == m.repl[k - i];
        assert ChangesAt(f, s, i, k);
      } else {
        assert u[k - i] == t[k - m.end];
        var p :| m.end <= p <= k && ChangesAt(f, s, p, k);
      }
    }
  }

  /** In a pass of point edits, every position the output changes is
      changed by the match the scan took over it. */
  lemma {:induction false} PointPassSites(f: Matcher, s: string, i: nat, from: char, to: char)
    requires i <= |s| && Advances(f, s)
    requires AllPointEdits(f, s, i, from, to)
    ensures SitesFrom(f, s, i, Subn(f, s, i).text)
    decreases |s| - i
  {
    if i < |s| {
      match f(s, i)
      case None =>
        PointPassSites(f, s, i + 1, from, to);
        SitesCopy(f, s, i, Subn(f, s, i + 1).text);
      case Some(m) =>
        var q :| i <= q < m.end && s[q] == from && m.repl == s[i..q] + [to] + s[q + 1..m.end];
        PointPassSites(f, s, m.end, from, to);
        SitesTake(f, s, i, m, Subn(f, s, m.end).text);
    }
  }

  /** When `from` occurs from i on only at q, and the pattern matches
      somewhere between i and q, a pass of point edits turns the character
      at q into `to`: the scan either reaches that match or takes an earlier
      one, and any match edits the one `from` there is. */
  lemma {:induction false} PointPassTurnsLone(f: Matcher, s: string, i: nat, p: nat, q: nat, from: char, to: char)
    requires i <= p <= q < |s| && Advances(f, s)
    requires AllPointEdits(f, s, i, from, to)
    requires forall k :: i <= k < |s| && s[k] == from ==> k == q
    requires f(s, p).Some?
    ensures q - i < |Subn(f, s, i).text| && Subn(f, s, i).text[q - i] == to
    decreases |s| - i
  {
    PointPass(f, s, i, from, to);
    var c := Subn(f, s, i);
    match f(s, i)
    case None =>
      PointPassTurnsLone(f, s, i + 1, p, q, from, to);
      assert c.text == [s[i]] + Subn(f, s, i + 1).text;
      assert c.text[q - i] == Subn(f, s, i + 1).text[q - (i + 1)];
    case Some(m) =>
      var r :| i <= r < m.end && s[r] == from && m.repl == s[i..r] + [to] + s[r + 1..m.end];
      assert r == q;
      assert c.text == m.repl + Subn(f, s, m.end).text;
      assert c.text[q - i] == m.repl[q - i];
  }

  /** A retouch between two non-word characters moves no word boundary. */
  lemma RetouchKeepsBoundaries(t: string, u: string, from: char, to: char)
    requires Retouched(t, u, from, to) && !IsWord(from) && !IsWord(to)
    ensures forall p :: Boundary(t, p) == Boundary(u, p)
  {
    assert forall k :: 0 <= k < |t| ==> IsWord(t[k]) == IsWord(u[k]);
  }

  /** t holds n more `to` and n fewer `from` than u. */
  predicate Traded(t: string, u: string, from: char, to: char, n: nat) {
    Occurrences(t, to) == Occurrences(u, to) + n && Occurrences(t, from) + n == Occurrences(u, from)
  }

  lemma TradedAppend(t1: string, u1: string, n1: nat, t2: string, u2: string, n2: nat, from: char, to: char)
    requires Traded(t1, u1, from, to, n1) && Traded(t2, u2, from, to, n2)
    ensures Traded(t1 + t2, u1 + u2, from, to, n1 + n2)
  {
    OccurrencesAppend(t1, t2, from);
    OccurrencesAppend(t1, t2, to);
    OccurrencesAppend(u1, u2, from);
    OccurrencesAppend(u1, u2, to);
  }

  /** One point edit trades one `from` for one `to`. */
  lemma PointEditCounts(s: string, p: nat, m: Match, from: char, to: char)
    requires p < m.end <= |s| && from != to && PointEdit(s, p, m, from, to)
    ensures Traded(m.repl, s[p..m.end], from, to, 1)
  {
    var q :| p <= q < m.end && s[q] == from && m.repl == s[p..q] + [to] + s[q + 1..m.end];
    assert s[p..m.end] == s[p..q] + [from] + s[q + 1..m.end];
    OccurrencesAppend(s[p..q], [to], from);
    OccurrencesAppend(s[p..q], [to], to);
    OccurrencesAppend(s[p..q] + [to], s[q + 1..m.end], from);
    OccurrencesAppend(s[p..q] + [to], s[q + 1..m.end], to);
    OccurrencesAppend(s[p..q], [from], from);
    OccurrencesAppend(s[p..q], [from], to);
    OccurrencesAppend(s[p..q] + [from], s[q + 1..m.end], from);
    OccurrencesAppend(s[p..q] + [from], s[q + 1..m.end], to);
  }

  /** Each substitution of such a pass turns exactly one `from` into one `to`. */
  lemma {:induction false} PointPassCounts(f: Matcher, s: string, i: nat, from: char, to: char)
    requires i <= |s| && Advances(f, s) && from != to
    requires AllPointEdits(f, s, i, from, to)
    ensures Traded(Subn(f, s, i).text, s[i..], from, to, Subn(f, s, i).count)
    decreases |s| - i
  {
    if i < |s| {
      match f(s, i)
      case None =>
        PointPassCounts(f, s, i + 1, from, to);
        assert s[i..] == [s[i]] + s[i + 1..];
        TradedAppend([s[i]], [s[i]], 0, Subn(f, s, i + 1).text, s[i + 1..], Subn(f, s, i + 1).count, from, to);
      case Some(m) =>
        PointEditCounts(s, i, m, from, to);
        PointPassCounts(f, s, m.end, from, to);
        assert s[i..] == s[i..m.end] + s[m.end..];
        TradedAppend(m.repl, s[i..m.end], 1, Subn(f, s, m.end).text, s[m.end..], Subn(f, s, m.end).count, from, to);
    }
  }
}
