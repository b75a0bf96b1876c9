/** Every substitution of every rule makes progress: it raises the weight of
    the text (one point per typographic character, minus one per blank).
    Hence, for each pass, reporting no issue and leaving the text unchanged
    are the same thing. */
module Progress {
  import opened Text
  import opened Rules
  import opened Scan
  import opened Contractions
  import opened Quotes
  import opened Dashes
  import opened Spelling
  import opened Ellipses
  import opened Whitespace

  lemma WeightSingle(c: char)
    ensures Weight([c]) == if IsIntroduced(c) then 1 else if IsBlank(c) then -1 else 0
  {
    assert [c][1..] == [];
  }

  /** Text made only of blanks weighs minus its length. */
  lemma {:induction false} WeightBlanks(t: string)
    requires forall k :: 0 <= k < |t| ==> IsBlank(t[k])
    ensures Weight(t) == -|t|
  {
    if t != [] {
      WeightBlanks(t[1..]);
    }
  }

  lemma EmDashRaises(s: string, p: nat)
    requires p < |s| && EmDashAt(s, p).Some?
    ensures Weight(EmDashAt(s, p).value.repl) > Weight(s[p..EmDashAt(s, p).value.end])
  {
    EmDashForms(s, p);
    WeightSingle('-');
    WeightSingle('\n');
    WeightSingle(EmDash);
    WeightAppend("-", "-");
    WeightAppend("--", "-");
    WeightAppend("--", "\n");
    WeightAppend("---", "\n");
    WeightAppend([EmDash], "\n");
    assert "--" == "-" + "-" && "---" == "--" + "-";
    assert "--\n" == "--" + "\n" && "---\n" == "---" + "\n" && [EmDash, '\n'] == [EmDash] + "\n";
  }

  lemma HawaiiRaises(s: string, p: nat)
    requires p < |s| && HawaiiAt(s, p).Some?
    ensures Weight(HawaiiAt(s, p).value.repl) > Weight(s[p..HawaiiAt(s, p).value.end])
  {
    HawaiiShape(s, p);
    var m := HawaiiAt(s, p).value;
    if m.end == p + 7 {
      assert PointEdit(s, p, m, '\'', Okina);
      PointEditRaisesWeight(s, p, m, '\'', Okina);
    } else {
      WeightSingle(Okina);
      WeightAppend(s[p..p + 5] + [Okina], s[p + 5..m.end]);
      WeightAppend(s[p..p + 5], [Okina]);
      WeightAppend(s[p..p + 5], s[p + 5..m.end]);
      assert s[p..m.end] == s[p..p + 5] + s[p + 5..m.end];
    }
  }

  lemma EllipsisRaises(s: string, p: nat)
    requires p < |s| && EllipsisAt(s, p).Some?
    ensures Weight(EllipsisAt(s, p).value.repl) > Weight(s[p..EllipsisAt(s, p).value.end])
  {
    LiteralAtIsSlice(s, p, "...");
    WeightSingle('.');
    WeightSingle(Ellipsis);
    WeightAppend(".", ".");
    WeightAppend("..", ".");
    assert "..." == ".." + "." && ".." == "." + ".";
  }

  lemma TrailingRaises(s: string, p: nat)
    requires p < |s| && TrailingAt(s, p).Some?
    ensures Weight(TrailingAt(s, p).value.repl) > Weight(s[p..TrailingAt(s, p).value.end])
  {
    var j := RunEnd(s, p, IsNotBlank);
    var b := RunEnd(s, j, IsBlank);
    var m := TrailingAt(s, p).value;
    WeightBlanks(s[j..b]);
    WeightAppend(s[p..j], s[j..b]);
    if b < |s| && s[b] == '\n' {
      assert s[p..m.end] == s[p..j] + s[j..b] + "\n";
      WeightAppend(s[p..j] + s[j..b], "\n");
      WeightAppend(s[p..j], "\n");
    } else {
      assert s[p..m.end] == s[p..j] + s[j..b];
    }
  }

  /** Each match of any rule replaces text by text of higher weight. */
  lemma MatchRaisesWeight(r: Rule, s: string)
    ensures Advances(Pattern(r), s) && RaisesWeight(Pattern(r), s)
  {
    PatternAdvances(r, s);
    forall p | 0 <= p < |s| && Pattern(r)(s, p).Some?
      ensures Weight(Pattern(r)(s, p).value.repl) > Weight(s[p..Pattern(r)(s, p).value.end])
    {
      assert Pattern(r)(s, p) == MatchAt(r, s, p);
      var m := MatchAt(r, s, p).value;
      match r
      case StemContraction(_, _) =>
        ContractionMatchIsPointEdit(r, s, p);
        PointEditRaisesWeight(s, p, m, '\'', Apostrophe);
      case WordContraction(_, _, _) =>
        ContractionMatchIsPointEdit(r, s, p);
        PointEditRaisesWeight(s, p, m, '\'', Apostrophe);
      case HawaiiSpelling => HawaiiRaises(s, p);
      case EmDashRule => EmDashRaises(s, p);
      case EnDashRule =>
        EnDashIsPointEdit(s);
        PointEditRaisesWeight(s, p, m, '-', EnDash);
      case OpenQuote =>
        OpenQuoteIsPointEdit(s);
        PointEditRaisesWeight(s, p, m, '"', LeftDoubleQuote);
      case CloseQuote =>
        CloseQuoteIsPointEdit(s);
        PointEditRaisesWeight(s, p, m, '"', RightDoubleQuote);
      case EllipsisRule => EllipsisRaises(s, p);
      case TrailingWhitespace => TrailingRaises(s, p);
    }
  }

  /** One pass raises the weight of the text by at least its count; so it
      reports no issue exactly when it leaves the text unchanged. */
  lemma PassProgress(r: Rule, s: string)
    ensures var c := Apply(r, s);
      && Weight(c.text) >= Weight(s) + c.count
      && (c.count == 0 <==> c.text == s)
  {
    MatchRaisesWeight(r, s);
    SubnRaisesWeight(Pattern(r), s, 0);
    UnchangedIffNoCount(Pattern(r), s);
    assert s[0..] == s;
  }
}
