/**
  When a program is entered where its search begins: always, unless the policy has conditions and
  yet comes down to killing everything.
 */
module Entering {
  import opened Words
  import opened Expression
  import opened Bpf
  import opened Policy
  import opened RangeRules
  import opened Normalizing
  import opened Coverage
  import opened Closing
  import opened Codegen
  import opened Compiling
  import opened Flattening
  import opened Sorting
  import opened EndToEnd

  /** No rule has a condition. */
  predicate ArePlain(rules: seq<RangeRule>) {
    forall i :: 0 <= i < |rules| ==> rules[i].action != CONDITIONAL
  }

  lemma StepIsPlain(p: Pass, cur: RangeRule, i: nat, default: int)
    requires p.out != [] && ArePlain(p.out) && IsSourceRule(cur) && cur.action != CONDITIONAL && IsAction(default)
    ensures ArePlain(Step(p, cur, i, default).out)
  {
  }

  lemma {:induction false} StepsArePlain(rules: seq<RangeRule>, i: nat, default: int)
    requires AreSourceRules(rules) && ArePlain(rules) && IsAction(default) && 1 <= i <= |rules|
    ensures ArePlain(Steps(rules, i, default).out)
    decreases i
  {
    hide Step, IsSourceRule, IsAction;
    if i > 1 {
      StepsArePlain(rules, i - 1, default);
      StepIsPlain(Steps(rules, i - 1, default), rules[i - 1], i - 1, default);
    }
  }

  lemma NormalizedArePlain(rules: seq<RangeRule>, default: int)
    requires AreSourceRules(rules) && ArePlain(rules) && IsAction(default)
    ensures ArePlain(Normalize(rules, default))
  {
    hide AreSourceRules, Steps, AreLists;
    if rules != [] {
      StepsArePlain(rules, |rules|, default);
      StepsLists(rules, |rules|, default);
      StretchIsPlain(Steps(rules, |rules|, default), default);
      hide CountMissing, Normalize;
      var full := Normalize(rules, default);
      forall i | 0 <= i < |full| ensures full[i].action != CONDITIONAL {
        NormalizedRuleIsKept(rules, default, full[i]);
      }
    }
  }

  lemma StretchIsPlain(p: Pass, default: int)
    requires p.out != [] && AreLists(p.out) && ArePlain(p.out)
    ensures ArePlain(StretchLast(StretchFirst(p, default), default).out)
  {
  }

  lemma FoundAtFirst(rules: seq<RangeRule>, i: nat)
    requires FirstsIncrease(rules) && i < |rules| && rules[i].first >= 0
    ensures FindRule(rules, rules[i].first) == rules[i]
  {
    if i > 0 {
      FindRuleSplits(rules, rules[i].first, i);
    }
  }

  lemma {:induction false} KillsCollapse(g: Gen, rules: seq<RangeRule>)
    requires rules != [] && forall i :: 0 <= i < |rules| ==> rules[i].action == KILL && IsRule(rules[i])
    ensures GenerateRules(g, rules) == (g, -KILL)
    decreases |rules|
  {
    if |rules| > 1 {
      KillsCollapse(g, rules[..|rules| / 2]);
      KillsCollapse(g, rules[|rules| / 2..]);
    }
  }

  lemma PlainRulesHaveEntry(rules: seq<RangeRule>, default: int, n: u32)
    requires AreRules(rules) && ArePlain(rules) && IsAction(default)
    requires FindRule(rules, n).action == default && !GenerateRules(FRESH, rules).0.stale
    ensures HasEntry(rules, default)
  {
    hide GenerateRules;
    if default == KILL {
      if i :| 0 <= i < |rules| && rules[i].action != KILL {
        FoundAtFirst(rules, i);
        var args: Args := [0, 0, 0, 0, 0, 0];
        DecisionKeepsSearch(rules, default, SeccompData(rules[i].first, 0, 0, args), n);
      } else {
        KillsCollapse(FRESH, rules);
      }
    }
  }

  /** A program is entered properly if its policy decides anything but KILL by default or on some
      input it may be trusted with, or has no condition left after simplification. */
  lemma PoliciesAreEntered(entries: seq<Entry>, default: int, arch: u32, nr: u32, args: Args)
    requires IsCompilable(entries) && IsAction(default) && |Flatten(entries)| <= MAX_SYSCALL_NR
    requires !Generated(entries, default, arch).stale
    requires || default != KILL
             || ArePlain(Flatten(entries))
             || (IsTakenWhole(entries, nr) && PolicyIsFaithful(entries, nr, args) &&
                 Decision(entries, default, nr, args) != KILL)
    ensures IsEnteredProperly(entries, default)
  {
    hide IsPolicy, AreTakenIn, AreClosedOnce, PolicyIsFaithful, CompileRules, Decision, FindRule, Normalize,
         AddPolicyRules, Sorted, IsRule, GenerateRules, AreSourceRules, AreNumbered, ArePlain;
    if default == KILL {
      if ArePlain(Flatten(entries)) {
        SourceRulesAreSourceRules(entries);
        FinalRulesAreRules(entries, default);
        SortedPermutes(Flatten(entries));
        PermutationIsPlain(Flatten(entries), SourceRules(entries));
        NormalizedArePlain(SourceRules(entries), default);
        var n := SomeNumberTakesDefault(entries, default);
        CompileRemembers(FinalRules(entries, default), default, arch);
        PlainRulesHaveEntry(FinalRules(entries, default), default, n);
      } else {
        DecisionGivesEntry(entries, default, arch, nr, args);
      }
    }
  }

  lemma PermutationIsPlain(a: seq<RangeRule>, b: seq<RangeRule>)
    requires ArePlain(a) && multiset(a) == multiset(b)
    ensures ArePlain(b)
  {
    MembersOfPermutation(a, b);
    forall i | 0 <= i < |b| ensures b[i].action != CONDITIONAL {
      assert b[i] in a;
    }
  }
}
