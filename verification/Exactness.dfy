/**
  The other direction: a rule that is not taken in properly spoils the list of its number for
  good, so the condition under which normalisation is exact on a number cannot be weakened.
 */
module Exactness {
  import opened Expression
  import opened Policy
  import opened RangeRules
  import opened Normalizing
  import opened Coverage

  /** The newest list has gone wrong beyond repair: it is closed, and it either has more
      entries than the source prescribes or has dropped the second condition. */
  ghost predicate TipIsBroken(rules: seq<RangeRule>, i: nat, out: seq<RangeRule>)
    requires 1 <= i <= |rules| && AreSourceRules(rules) && out != []
  {
    var tip := out[|out| - 1];
    var s := Sequence(rules[..i], rules[i - 1].first);
    && tip.last == rules[i - 1].first && tip.first == tip.last
    && tip.action == CONDITIONAL && IsEnded(tip.mappings)
    && ((IsEnded(s) && |tip.mappings| > |s|) ||
        (|tip.mappings| > 1 && tip.mappings[1].condition.None? && |s| > 1 && s[1].condition.Some?))
  }

  lemma LeaderOfGroup(rules: seq<RangeRule>, i: nat)
    requires AreSourceRules(rules) && 0 < i < |rules| && Leader(rules, i) != i
    ensures rules[i - 1].first == rules[i].first && Leader(rules, i) == Leader(rules, i - 1)
  {
  }

  /** The conditions of a number all stem from conditional rules while its list is open. */
  lemma {:induction false} EndedByPlainRule(rules: seq<RangeRule>, i: nat)
    requires AreSourceRules(rules) && i < |rules| && rules[i].first == rules[0].first
    requires exists k :: 0 <= k <= i && rules[k].action != CONDITIONAL
    ensures IsEnded(Sequence(rules[..i + 1], rules[i].first))
  {
    hide IsNormal, IsAction, Sequence;
    assert rules[..i + 1] == rules[..i] + [rules[i]];
    SequenceAppend(rules[..i], rules[i], rules[i].first);
    assert IsSourceRule(rules[i]);
    if rules[i].action == CONDITIONAL {
      var k :| 0 <= k <= i && rules[k].action != CONDITIONAL;
      assert rules[0].first <= rules[i - 1].first <= rules[i].first;
      EndedByPlainRule(rules, i - 1);
    }
  }

  /** The first rule that is not taken in properly breaks the list. */
  lemma BadRuleBreaks(rules: seq<RangeRule>, i: nat, p: Pass, default: int)
    requires AreSourceRules(rules) && 0 < i < |rules| && IsAction(default)
    requires p.out != [] && TipIsExact(rules, i, p.out, default) && IsTakenIn(rules, i - 1) && !IsTakenIn(rules, i)
    ensures TipIsBroken(rules, i + 1, Step(p, rules[i], i, default).out)
  {
    hide IsNormal, IsAction, Sequence;
    LeaderOfGroup(rules, i);
    assert rules[..i + 1] == rules[..i] + [rules[i]];
    SequenceAppend(rules[..i], rules[i], rules[i].first);
    assert IsSourceRule(rules[i]) && IsSourceRule(rules[i - 1]);
    if rules[i].first == rules[0].first {
      EndedByPlainRule(rules, i - 1);
    } else {
      FirstOnNumber(rules, i - 1);
    }
  }

  /** Further rules on the number do not repair it. */
  lemma BrokenStaysOnNumber(rules: seq<RangeRule>, i: nat, p: Pass, default: int)
    requires AreSourceRules(rules) && 0 < i < |rules| && rules[i - 1].first == rules[i].first
    requires p.out != [] && TipIsBroken(rules, i, p.out)
    ensures TipIsBroken(rules, i + 1, Step(p, rules[i], i, default).out)
  {
    hide IsNormal, IsAction, Sequence;
    assert rules[..i + 1] == rules[..i] + [rules[i]];
    SequenceAppend(rules[..i], rules[i], rules[i].first);
  }

  lemma BrokenIsWrong(rules: seq<RangeRule>, i: nat, out: seq<RangeRule>, default: int)
    requires 1 <= i <= |rules| && AreSourceRules(rules) && out != [] && TipIsBroken(rules, i, out)
    ensures var n := rules[i - 1].first; Lookup(out, n, default) != Prescribed(rules[..i], n, default)
  {
    hide Sequence, IsSourceRule;
  }

  /** Once wrong, a number stays wrong to the end of the first pass. */
  lemma {:induction false} WrongStays(rules: seq<RangeRule>, i: nat, m: nat, default: int)
    requires AreSourceRules(rules) && IsAction(default) && 1 <= i <= m <= |rules|
    requires TipIsBroken(rules, i, Steps(rules, i, default).out)
    ensures var n := rules[i - 1].first; var out := Steps(rules, m, default).out;
            && Lookup(out, n, default) != Prescribed(rules[..m], n, default)
            && (rules[m - 1].first == n ==> TipIsBroken(rules, m, out))
    decreases m
  {
    hide Sequence, IsSourceRule, Step, Lookup, IsAction;
    var n := rules[i - 1].first;
    if i == m {
      BrokenIsWrong(rules, i, Steps(rules, i, default).out, default);
    } else {
      WrongStays(rules, i, m - 1, default);
      var p := Steps(rules, m - 1, default);
      StepsCount(rules, m - 1, default);
      StepsLists(rules, m - 1, default);
      if rules[m - 1].first == n {
        assert rules[i - 1].first <= rules[m - 2].first <= rules[m - 1].first;
        BrokenStaysOnNumber(rules, m - 1, p, default);
        BrokenIsWrong(rules, m, Steps(rules, m, default).out, default);
      } else {
        assert rules[..m] == rules[..m - 1] + [rules[m - 1]];
        SequenceAppend(rules[..m - 1], rules[m - 1], n);
        StepElsewhere(p, rules[m - 1], m - 1, default, n);
      }
    }
  }

  lemma FirstBadRule(rules: seq<RangeRule>, n: int) returns (k: nat)
    requires !AreTakenIn(rules, n)
    ensures k < |rules| && rules[k].first == n && !IsTakenIn(rules, k)
    ensures forall j :: 0 <= j < k && rules[j].first == n ==> IsTakenIn(rules, j)
  {
    hide IsTakenIn;
    k := 0;
    while rules[k].first != n || IsTakenIn(rules, k)
      invariant k < |rules| && forall j :: 0 <= j < k && rules[j].first == n ==> IsTakenIn(rules, j)
      decreases |rules| - k
    {
      k := k + 1;
    }
  }

  lemma BadRuleFollows(rules: seq<RangeRule>, k: nat)
    requires AreSourceRules(rules) && k < |rules| && !IsTakenIn(rules, k)
    ensures k > 0 && rules[k - 1].first == rules[k].first && 0 <= rules[k].first <= MAX_SYSCALL_NR
  {
    assert IsSourceRule(rules[k]);
  }

  /** The first bad rule on a number breaks its list when it comes. */
  lemma BadRuleSpoils(rules: seq<RangeRule>, k: nat, default: int)
    requires AreSourceRules(rules) && IsAction(default) && k < |rules| && !IsTakenIn(rules, k)
    requires forall j :: 0 <= j < k && rules[j].first == rules[k].first ==> IsTakenIn(rules, j)
    ensures TipIsBroken(rules, k + 1, Steps(rules, k + 1, default).out)
  {
    hide Step, IsAction, IsTakenIn, TipIsExact, TipIsBroken, AreSourceRules, IsExact;
    BadRuleFollows(rules, k);
    StepsAreExact(rules, k, default, rules[k].first);
    BadRuleBreaks(rules, k, Steps(rules, k, default), default);
  }

  lemma BadRuleIsVisible(rules: seq<RangeRule>, n: int, default: int)
    requires AreSourceRules(rules) && IsAction(default) && !AreTakenIn(rules, n)
    ensures 0 <= n <= MAX_SYSCALL_NR && Normalized(rules, default, n) != Prescribed(rules, n, default)
  {
    hide Normalized, Lookup, Steps, IsAction, Prescribed, IsTakenIn, TipIsBroken, AreSourceRules;
    var k := FirstBadRule(rules, n);
    BadRuleFollows(rules, k);
    BadRuleSpoils(rules, k, default);
    WrongStays(rules, k + 1, |rules|, default);
    assert rules[..|rules|] == rules;
    NormalizedIsLookup(rules, default, n);
  }

  /** Normalisation keeps the source rules on a number if and only if each of them is taken in
      properly: none follows a conditional first rule, unless the number is the lowest, and then
      at most one closes its list. */
  lemma NormalizeIsExactIff(rules: seq<RangeRule>, default: int, n: nat)
    requires AreSourceRules(rules) && IsAction(default) && n <= MAX_SYSCALL_NR
    ensures AreTakenIn(rules, n) <==> Normalized(rules, default, n) == Prescribed(rules, n, default)
  {
    hide IsTakenIn, Normalized, Prescribed;
    if AreTakenIn(rules, n) {
      NormalizeKeepsLists(rules, default, n);
    } else {
      BadRuleIsVisible(rules, n, default);
    }
  }
}
