/** The rule engine: `apply_count_issues`. */
module Engine {
  import opened Text
  import opened Rules
  import opened Scan
  import opened Whitespace
  import opened Progress
  import opened Keys

  /** Apply rules in order, each to the previous rule's output, adding up the
      substitution counts. Defined on the last rule, as the loop of the
      source extends its prefix of RULES by one rule per iteration. */
  function ApplyAll(rules: seq<Rule>, text: string): (c: Correction)
    decreases |rules|
  {
    if rules == [] then Correction(text, 0)
    else
      var before := ApplyAll(rules[..|rules| - 1], text);
      var last := Apply(rules[|rules| - 1], before.text);
      Correction(last.text, before.count + last.count)
  }

  /** `apply_count_issues`: run every rule of RULES over the contents in list
      order and return the final text with the total number of substitutions. */
  method ApplyCountIssues(contents: string) returns (result: string, issueCount: nat)
    ensures Correction(result, issueCount) == ApplyAll(AllRules, contents)
    ensures issueCount == 0 <==> result == contents
    ensures NoTrailingBlanks(result)
  {
    result, issueCount := contents, 0;
    for k := 0 to |AllRules|
      invariant Correction(result, issueCount) == ApplyAll(AllRules[..k], contents)
    {
      ApplyAllExtend(AllRules, k, contents);
      var pass := Apply(AllRules[k], result);
      result, issueCount := pass.text, issueCount + pass.count;
    }
    assert AllRules[..|AllRules|] == AllRules;
    RunProgress(AllRules, contents);
    EngineStripsTrailing(contents);
  }

  /** Running one rule more is running the k-th rule on the result so far. */
  lemma ApplyAllExtend(rules: seq<Rule>, k: nat, text: string)
    requires k < |rules|
    ensures var before := ApplyAll(rules[..k], text); var pass := Apply(rules[k], before.text);
      ApplyAll(rules[..k + 1], text) == Correction(pass.text, before.count + pass.count)
  {
    assert rules[..k + 1][..k] == rules[..k];
  }

  /** Running a list of rules is running its first part, then its second on
      the result; the counts add up. */
  lemma {:induction false} ApplyAllAppend(first: seq<Rule>, second: seq<Rule>, text: string)
    ensures var a := ApplyAll(first, text); var b := ApplyAll(second, a.text);
      ApplyAll(first + second, text) == Correction(b.text, a.count + b.count)
    decreases |second|
  {
    if second == [] {
      assert first + second == first;
    } else {
      var n := |second|;
      assert (first + second)[..|first + second| - 1] == first + second[..n - 1];
      assert (first + second)[|first + second| - 1] == second[n - 1];
      ApplyAllAppend(first, second[..n - 1], text);
    }
  }

  /** RULES is the contraction rules, then the spelling rule, then the
      punctuation rules, each group run in its own order on the result of the
      one before; the counts add up. */
  lemma RuleGroups(text: string, t: string, u: string, v: string, n1: nat, n2: nat, n3: nat)
    requires ApplyAll(Rules.Contractions, text) == Correction(t, n1)
    requires ApplyAll(Rules.Spelling, t) == Correction(u, n2)
    requires ApplyAll(Rules.Punctuation, u) == Correction(v, n3)
    ensures ApplyAll(AllRules, text) == Correction(v, n1 + n2 + n3)
  {
    assert [] + Rules.Contractions == Rules.Contractions;
    ApplyAllAppend(Rules.Contractions, Rules.Spelling, text);
    ApplyAllAppend(Rules.Contractions + Rules.Spelling, Rules.Punctuation, text);
  }

  /** Running a list of rules is running its first rule, then the others on
      the result. */
  lemma ApplyAllCons(r: Rule, rest: seq<Rule>, text: string, t: string, u: string, n1: nat, n2: nat)
    requires Apply(r, text) == Correction(t, n1)
    requires ApplyAll(rest, t) == Correction(u, n2)
    ensures ApplyAll([r] + rest, text) == Correction(u, n1 + n2)
  {
    assert ApplyAll([r], text) == Apply(r, text) by {
      assert [r][..0] == [];
    }
    ApplyAllAppend([r], rest, text);
  }

  /** Every substitution of a run raises the weight of the text, so a run
      counts no issue exactly when it returns the text unchanged. */
  lemma {:induction false} RunProgress(rules: seq<Rule>, text: string)
    ensures var c := ApplyAll(rules, text);
      && Weight(c.text) >= Weight(text) + c.count
      && (c.count == 0 <==> c.text == text)
    decreases |rules|
  {
    if rules != [] {
      var before := ApplyAll(rules[..|rules| - 1], text);
      RunProgress(rules[..|rules| - 1], text);
      PassProgress(rules[|rules| - 1], before.text);
    }
  }

  /** The last rule strips trailing whitespace, so nothing the engine returns
      has a blank before a newline or at its end. */
  lemma EngineStripsTrailing(text: string)
    ensures NoTrailingBlanks(ApplyAll(AllRules, text).text)
  {
    var n := |AllRules|;
    assert AllRules[n - 1] == TrailingWhitespace;
    TrailingPass(ApplyAll(AllRules[..n - 1], text).text);
  }

  /** A text holding no key character of any of the rules comes back
      unchanged, with no issue counted. */
  lemma {:induction false} NoKeysUnchanged(rules: seq<Rule>, text: string)
    requires forall r, c :: r in rules && c in text ==> !IsKey(r, c)
    ensures ApplyAll(rules, text) == Correction(text, 0)
    decreases |rules|
  {
    if rules != [] {
      NoKeysUnchanged(rules[..|rules| - 1], text);
      NoKeyUnchanged(rules[|rules| - 1], text);
    }
  }

  /** Rules that each leave a text alone leave it alone together. */
  lemma {:induction false} AllUnchanged(rules: seq<Rule>, text: string)
    requires forall r :: r in rules ==> Apply(r, text) == Correction(text, 0)
    ensures ApplyAll(rules, text) == Correction(text, 0)
    decreases |rules|
  {
    if rules != [] {
      AllUnchanged(rules[..|rules| - 1], text);
    }
  }

  /** A list of rules where only the k-th changes the text it is given does
      what that rule does. */
  lemma OnlyOneActs(rules: seq<Rule>, k: nat, s: string, t: string, n: nat)
    requires k < |rules|
    requires forall r :: r in rules[..k] ==> Apply(r, s) == Correction(s, 0)
    requires Apply(rules[k], s) == Correction(t, n)
    requires forall r :: r in rules[k + 1..] ==> Apply(r, t) == Correction(t, 0)
    ensures ApplyAll(rules, s) == Correction(t, n)
  {
    var pre, post := rules[..k], rules[k + 1..];
    AllUnchanged(pre, s);
    AllUnchanged(post, t);
    ActsThenIdle(pre, rules[k], post, s, s, t, 0, n);
    SplitAt(rules, k);
  }

  /** A list is its part before k, its k-th element, and its part after. */
  lemma SplitAt(rules: seq<Rule>, k: nat)
    requires k < |rules|
    ensures rules[..k] + ([rules[k]] + rules[k + 1..]) == rules
  {
    assert rules[k..] == [rules[k]] + rules[k + 1..];
    assert rules == rules[..k] + rules[k..];
  }

  /** Rules before r that leave the text as it is, r, then rules that leave
      r's result as it is. */
  lemma ActsThenIdle(pre: seq<Rule>, r: Rule, post: seq<Rule>, s: string, u: string, t: string, n1: nat, n: nat)
    requires ApplyAll(pre, s) == Correction(u, n1)
    requires Apply(r, u) == Correction(t, n)
    requires ApplyAll(post, t) == Correction(t, 0)
    ensures ApplyAll(pre + ([r] + post), s) == Correction(t, n1 + n)
  {
    ApplyAllCons(r, post, u, t, t, n, 0);
    ApplyAllAppend(pre, [r] + post, s);
  }

  /** A list of rules where only the k-th and the next change the text they
      are given does what those two do, one after the other. */
  lemma TwoAct(rules: seq<Rule>, k: nat, s: string, u: string, v: string, n1: nat, n2: nat)
    requires k + 1 < |rules|
    requires forall r :: r in rules[..k] ==> Apply(r, s) == Correction(s, 0)
    requires Apply(rules[k], s) == Correction(u, n1)
    requires Apply(rules[k + 1], u) == Correction(v, n2)
    requires forall r :: r in rules[k + 2..] ==> Apply(r, v) == Correction(v, 0)
    ensures ApplyAll(rules, s) == Correction(v, n1 + n2)
  {
    var pre, post := rules[..k + 1], rules[k + 2..];
    assert rules[..k + 1][..k] == rules[..k];
    OnlyOneActs(pre, k, s, u, n1);
    AllUnchanged(post, v);
    ActsThenIdle(pre, rules[k + 1], post, s, u, v, n1, n2);
    SplitAt(rules, k + 1);
  }
}
