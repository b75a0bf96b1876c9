/** Every rule needs a particular character inside each of its matches: a
    text without it is left alone by that rule. */
module Keys {
  import opened Text
  import opened Rules
  import opened Scan
  import opened Contractions
  import opened Quotes
  import opened Dashes
  import opened Spelling

  /** The characters one of which every match of r covers. */
  predicate IsKey(r: Rule, c: char) {
    match r
    case StemContraction(_, _) => c == '\''
    case WordContraction(_, _, _) => c == '\''
    case HawaiiSpelling => c == 'H'
    case EmDashRule => c == '-'
    case EnDashRule => c == '-'
    case OpenQuote => c == '"'
    case CloseQuote => c == '"'
    case EllipsisRule => c == '.'
    case TrailingWhitespace => IsBlank(c)
  }

  lemma PointEditHasKey(s: string, p: nat, m: Match, from: char, to: char)
    requires p < m.end <= |s| && PointEdit(s, p, m, from, to)
    ensures exists q :: p <= q < m.end && s[q] == from
  {
  }

  /** Every match covers a key character. */
  lemma MatchHasKey(r: Rule, s: string, p: nat)
    requires p < |s| && MatchAt(r, s, p).Some?
    ensures exists q :: p <= q < MatchAt(r, s, p).value.end && IsKey(r, s[q])
  {
    var q := KeyIn(r, s, p);
  }

  /** Where the key character of a match is. */
  lemma KeyIn(r: Rule, s: string, p: nat) returns (q: nat)
    requires p < |s| && MatchAt(r, s, p).Some?
    ensures p <= q < MatchAt(r, s, p).value.end && IsKey(r, s[q])
  {
    var m := MatchAt(r, s, p).value;
    match r
    case StemContraction(_, _) =>
      q := PointEditKey(r, s, p, '\'', Apostrophe);
    case WordContraction(_, _, _) =>
      q := PointEditKey(r, s, p, '\'', Apostrophe);
    case HawaiiSpelling =>
      HawaiiShape(s, p);
      assert s[p] == s[p..m.end][0];
      q := p;
    case EmDashRule =>
      EmDashForms(s, p);
      assert s[p] == s[p..m.end][0];
      q := p;
    case EnDashRule =>
      q := PointEditKey(r, s, p, '-', EnDash);
    case OpenQuote =>
      q := PointEditKey(r, s, p, '"', LeftDoubleQuote);
    case CloseQuote =>
      q := PointEditKey(r, s, p, '"', RightDoubleQuote);
    case EllipsisRule =>
      LiteralAtIsSlice(s, p, "...");
      assert s[p] == s[p..p + 3][0];
      q := p;
    case TrailingWhitespace =>
      var j := RunEnd(s, p, IsNotBlank);
      q := RunEnd(s, j, IsBlank) - 1;
  }

  /** The changed character of a rule whose matches are point edits. */
  lemma PointEditKey(r: Rule, s: string, p: nat, from: char, to: char) returns (q: nat)
    requires p < |s| && MatchAt(r, s, p).Some?
    requires r.StemContraction? || r.WordContraction? || r.EnDashRule? || r.OpenQuote? || r.CloseQuote?
    requires from == (if r.EnDashRule? then '-' else if r.OpenQuote? || r.CloseQuote? then '"' else '\'')
    requires to == (if r.EnDashRule? then EnDash else if r.OpenQuote? then LeftDoubleQuote
      else if r.CloseQuote? then RightDoubleQuote else Apostrophe)
    ensures p <= q < MatchAt(r, s, p).value.end && s[q] == from
  {
    var m := MatchAt(r, s, p).value;
    PatternAdvances(r, s);
    assert Pattern(r)(s, p) == MatchAt(r, s, p);
    if r.StemContraction? || r.WordContraction? {
      ContractionMatchIsPointEdit(r, s, p);
    } else if r.EnDashRule? {
      EnDashIsPointEdit(s);
    } else if r.OpenQuote? {
      OpenQuoteIsPointEdit(s);
    } else {
      CloseQuoteIsPointEdit(s);
    }
    PointEditHasKey(s, p, m, from, to);
    q :| p <= q < m.end && s[q] == from;
  }

  /** A rule leaves a text without its key characters unchanged and counts
      nothing. */
  lemma NoKeyUnchanged(r: Rule, s: string)
    requires forall k :: 0 <= k < |s| ==> !IsKey(r, s[k])
    ensures Apply(r, s) == Correction(s, 0)
  {
    PatternAdvances(r, s);
    forall p | 0 <= p < |s|
      ensures Pattern(r)(s, p).None?
    {
      assert Pattern(r)(s, p) == MatchAt(r, s, p);
      if MatchAt(r, s, p).Some? {
        MatchHasKey(r, s, p);
      }
    }
    NoCountIffNoMatch(Pattern(r), s, 0);
    assert s[0..] == s;
  }

  /** The rules whose matches start at a key character. */
  predicate StartsAtKey(r: Rule) {
    r.HawaiiSpelling? || r.EmDashRule? || r.OpenQuote? || r.EllipsisRule?
  }

  lemma MatchStartsAtKey(r: Rule, s: string, p: nat)
    requires StartsAtKey(r) && p < |s| && MatchAt(r, s, p).Some?
    ensures IsKey(r, s[p])
  {
    var m := MatchAt(r, s, p).value;
    match r
    case HawaiiSpelling =>
      HawaiiShape(s, p);
      assert s[p] == s[p..m.end][0];
    case EmDashRule =>
      EmDashForms(s, p);
      assert s[p] == s[p..m.end][0];
    case OpenQuote =>
    case EllipsisRule =>
      LiteralAtIsSlice(s, p, "...");
      assert s[p] == s[p..p + 3][0];
  }

  /** Such a rule copies a stretch of text without its key characters. */
  lemma KeyFreeSkip(r: Rule, s: string, i: nat, j: nat, piece: string)
    requires StartsAtKey(r) && j == i + |piece| <= |s| && s[i..j] == piece
    requires forall c :: c in piece ==> !IsKey(r, c)
    ensures Advances(Pattern(r), s)
    ensures var rest := Subn(Pattern(r), s, j);
      Subn(Pattern(r), s, i) == Correction(piece + rest.text, rest.count)
  {
    PatternAdvances(r, s);
    KeyFreeNoMatch(r, s, i, j, piece);
    SubnSkip(Pattern(r), s, i, j);
  }

  /** Such a rule matches nowhere in a stretch without its key characters. */
  lemma KeyFreeNoMatch(r: Rule, s: string, i: nat, j: nat, piece: string)
    requires StartsAtKey(r) && j == i + |piece| <= |s| && s[i..j] == piece
    requires forall c :: c in piece ==> !IsKey(r, c)
    ensures forall p :: i <= p < j ==> Pattern(r)(s, p).None?
  {
    forall p | i <= p < j
      ensures Pattern(r)(s, p).None?
    {
      assert s[p] == piece[p - i];
      assert Pattern(r)(s, p) == MatchAt(r, s, p);
      if MatchAt(r, s, p).Some? {
        MatchStartsAtKey(r, s, p);
      }
    }
  }
}
