/**
  The finished program: it always halts at a return, and it returns the decision of the rules.
 */
module Compiling {
  import opened Options
  import opened Words
  import opened Expression
  import opened Bpf
  import opened Policy
  import opened RangeRules
  import opened Codegen
  import opened Resolving
  import opened Comparing
  import opened Generating

  // ----- what rules decide -----

  /** The action of the first condition that holds. */
  function ListDecision(mappings: seq<Mapping>, args: Args): (action: int)
    requires IsDecisionList(mappings)
    ensures IsAction(action)
  {
    if |mappings| == 1 || CodeHolds(mappings[0].condition.value, args) then mappings[0].action
    else
      assert IsDecisionList(mappings[1..]);
      ListDecision(mappings[1..], args)
  }

  function RuleDecision(rule: RangeRule, args: Args): (action: int)
    requires IsRule(rule)
    ensures IsAction(action)
  {
    if rule.action == CONDITIONAL then ListDecision(rule.mappings, args) else rule.action
  }

  // ----- lists of conditions -----

  lemma ActionDecides(code: seq<Instr>, action: int, d: SeccompData)
    requires IsAction(action)
    ensures Decides(code, -action, d, Some(ActionToBpf(action)))
  {
  }

  lemma {:induction false} MappingsRest(g: Gen, mappings: seq<Mapping>)
    requires AtRest(g) && IsDecisionList(mappings)
    ensures var (g', next) := GenerateMappings(g, mappings);
            AtRest(g') && (g.stale ==> g'.stale) && (next < 0 || next > g.Current())
  {
    hide AtRest, GenerateExpr, IsAction, IsNormal;
    PositiveAction(mappings[0].action);
    if |mappings| > 1 {
      assert IsDecisionList(mappings[1..]);
      MappingsRest(g, mappings[1..]);
      var (g1, last) := GenerateMappings(g, mappings[1..]);
      ExprRests(g1, mappings[0].condition.value, -mappings[0].action, last);
    }
  }

  lemma PositiveAction(action: int)
    requires IsAction(action)
    ensures action > 0
  {
  }

  lemma {:induction false} MappingsDecide(g: Gen, mappings: seq<Mapping>, d: SeccompData)
    requires AtRest(g) && IsDecisionList(mappings)
    requires !GenerateMappings(g, mappings).0.stale
    ensures var (g', next) := GenerateMappings(g, mappings);
            Decides(g'.code, next, d, Some(ActionToBpf(ListDecision(mappings, d.args))))
  {
    hide AtRest, GenerateExpr, IsAction, IsNormal, Decides, ActionToBpf, CodeHolds;
    ActionDecides(g.code, mappings[0].action, d);
    if |mappings| > 1 {
      var rest := mappings[1..];
      assert IsDecisionList(rest);
      var (g1, last) := GenerateMappings(g, rest);
      MappingsRest(g, rest);
      PositiveAction(mappings[0].action);
      ExprRests(g1, mappings[0].condition.value, -mappings[0].action, last);
      MappingsDecide(g, rest, d);
      ActionDecides(g1.code, mappings[0].action, d);
      ExprDecides(g1, mappings[0].condition.value, -mappings[0].action, last, d,
                  Some(ActionToBpf(mappings[0].action)), Some(ActionToBpf(ListDecision(rest, d.args))));
    }
  }

  // ----- the jump tree -----

  lemma {:induction false} RulesRest(g: Gen, rules: seq<RangeRule>)
    requires AtRest(g) && rules != [] && forall i :: 0 <= i < |rules| ==> IsRule(rules[i])
    ensures var (g', next) := GenerateRules(g, rules);
            && AtRest(g') && (g.stale ==> g'.stale) && (next < 0 || next > g.Current())
            && (|rules| > 1 && next >= 0 ==> next == g'.Current())
    decreases |rules|
  {
    hide AtRest, IsAction, GenerateMappings, ResolveLocation;
    if |rules| == 1 {
      if rules[0].action == CONDITIONAL {
        MappingsRest(g, rules[0].mappings);
      } else {
        PositiveAction(rules[0].action);
      }
    } else {
      var mid := |rules| / 2;
      var (g1, lower) := GenerateRules(g, rules[..mid]);
      RulesRest(g, rules[..mid]);
      var (g2, upper) := GenerateRules(g1, rules[mid..]);
      RulesRest(g1, rules[mid..]);
      if upper != lower {
        AddJumpForks(g2, JGe, K, rules[mid].first, upper, lower);
      }
    }
  }

  /** With the syscall number in A, whatever X holds. */
  ghost predicate DecidesNumber(code: seq<Instr>, loc: int, d: SeccompData, res: Option<u32>) {
    forall x: u32 :: Outcome(code, loc, d.nr, x, d) == res
  }

  /** The jump tree refines linear search: it reaches the code of the last rule that begins at
      or before the number, and so returns that rule's decision. */
  lemma {:induction false} RulesDecide(g: Gen, rules: seq<RangeRule>, d: SeccompData)
    requires AtRest(g) && AreRules(rules)
    requires !GenerateRules(g, rules).0.stale
    ensures var (g', next) := GenerateRules(g, rules);
            DecidesNumber(g'.code, next, d, Some(ActionToBpf(RuleDecision(FindRule(rules, d.nr), d.args))))
    decreases |rules|
  {
    hide AtRest, IsAction, GenerateAction, GenerateRules, AddJump, ActionToBpf, Outcome, IsDecisionList, FindRule,
         RuleDecision, FirstsIncrease;
    GenerateRulesUnfolds(g, rules);
    if |rules| == 1 {
      ActionOfRuleDecides(g, rules[0], d);
      SingleRule(rules, d.nr);
    } else {
      var mid := |rules| / 2;
      var (g1, lower) := GenerateRules(g, rules[..mid]);
      RulesRest(g, rules[..mid]);
      var (g2, upper) := GenerateRules(g1, rules[mid..]);
      RulesRest(g1, rules[mid..]);
      JumpNotStale(g2, JGe, rules[mid].first, upper, lower);
      SplitRules(rules, mid);
      RulesDecide(g, rules[..mid], d);
      RulesDecide(g1, rules[mid..], d);
      FindRuleSplits(rules, d.nr, mid);
      ForkDecides(g1, g2, rules[mid].first, upper, lower, d,
                  Some(ActionToBpf(RuleDecision(FindRule(rules[mid..], d.nr), d.args))),
                  Some(ActionToBpf(RuleDecision(FindRule(rules[..mid], d.nr), d.args))));
    }
  }

  lemma GenerateRulesUnfolds(g: Gen, rules: seq<RangeRule>)
    requires rules != [] && forall i :: 0 <= i < |rules| ==> IsRule(rules[i])
    ensures |rules| == 1 ==> GenerateRules(g, rules) == GenerateAction(g, rules[0])
    ensures |rules| > 1 ==>
              var mid := |rules| / 2;
              var (g1, lower) := GenerateRules(g, rules[..mid]);
              var (g2, upper) := GenerateRules(g1, rules[mid..]);
              GenerateRules(g, rules) == AddJump(g2, JGe, K, rules[mid].first, upper, lower)
  {
    hide IsDecisionList, AddJump, GenerateAction;
  }

  lemma SingleRule(rules: seq<RangeRule>, nr: nat)
    requires |rules| == 1
    ensures FindRule(rules, nr) == rules[0]
  {
  }

  lemma ActionOfRuleDecides(g: Gen, rule: RangeRule, d: SeccompData)
    requires AtRest(g) && IsRule(rule) && !GenerateAction(g, rule).0.stale
    ensures var (g', next) := GenerateAction(g, rule);
            DecidesNumber(g'.code, next, d, Some(ActionToBpf(RuleDecision(rule, d.args))))
  {
    hide AtRest, IsAction, GenerateMappings, ActionToBpf, Outcome, IsDecisionList, ListDecision;
    if rule.action == CONDITIONAL {
      MappingsDecide(g, rule.mappings, d);
    } else {
      ActionDecides(g.code, rule.action, d);
    }
  }

  lemma SplitRules(rules: seq<RangeRule>, mid: nat)
    requires AreRules(rules) && 0 < mid < |rules|
    ensures AreRules(rules[..mid])
    ensures AreRules(rules[mid..])
  {
    hide IsRule;
  }

  lemma ForkDecides(g1: Gen, g2: Gen, k: u32, upper: int, lower: int, d: SeccompData, ru: Option<u32>, rl: Option<u32>)
    requires AtRest(g2) && g1.code <= g2.code && IsTarget(g2.code, upper) && IsTarget(g1.code, lower)
    requires DecidesNumber(g2.code, upper, d, ru) && DecidesNumber(g1.code, lower, d, rl)
    requires !AddJump(g2, JGe, K, k, upper, lower).0.stale
    ensures var (g', next) := AddJump(g2, JGe, K, k, upper, lower);
            DecidesNumber(g'.code, next, d, if d.nr >= k then ru else rl)
  {
    hide AtRest, IsAction, AddJump, Outcome;
    var (g', next) := AddJump(g2, JGe, K, k, upper, lower);
    forall x: u32 ensures Outcome(g'.code, next, d.nr, x, d) == if d.nr >= k then ru else rl {
      AddJumpOutcome(g2, JGe, K, k, upper, lower, d.nr, x, d);
      OutcomeExtends(g1.code, g2.code, lower, d.nr, x, d);
    }
  }

  lemma JumpNotStale(g: Gen, op: JumpOp, k: u32, tloc: int, floc: int)
    requires AtRest(g) && IsTarget(g.code, tloc) && IsTarget(g.code, floc)
    requires !AddJump(g, op, K, k, tloc, floc).0.stale
    ensures !g.stale
  {
    hide AtRest, IsAction, ResolveLocation;
  }

  // ----- the whole program -----

  lemma FreshIsAtRest()
    ensures AtRest(FRESH)
  {
  }

  lemma {:induction false} CheckArchCloses(g: Gen, begin: int, next: int, arch: u32)
    requires AtRest(g) && IsTarget(g.code, next) && -1 <= begin <= g.Current() && (next >= 0 ==> begin == next)
    ensures var g' := CheckArch(g, begin, next, arch); Inv(g') && g'.code != []
  {
    hide IsAnchored, IsClosed, TrailAtMost, ResolveLocation;
    var (g1, next1) := AddJump(g, JEq, K, arch, next, -KILL);
    if next != -KILL {
      AddJumpForks(g, JEq, K, arch, next, -KILL);
      AppendRests(g1, LdAbs(ARCH_OFFSET));
    } else {
      ResolveLocationReaches(g, -KILL, 0);
    }
  }

  /** Every finished program is closed, with no hypothesis on the policy: jumps go forward and
      stay inside, offsets fit their fields, and the oldest instruction is a return. */
  lemma ProgramIsClosed(rules: seq<RangeRule>, default: int, arch: u32)
    requires rules != [] && forall i :: 0 <= i < |rules| ==> IsRule(rules[i])
    requires IsAction(default)
    ensures var g := CompileRules(rules, default, arch);
            Inv(g) && g.code != []
  {
    hide AtRest, IsAction, GenerateRules, CheckArch, IsRule;
    FreshIsAtRest();
    RulesRest(FRESH, rules);
    PositiveAction(default);
    var (g1, next1) := GenerateRules(FRESH, rules);
    if next1 > -1 {
      AppendRests(g1, LdAbs(NR_OFFSET));
      var g2 := AddInstruction(g1, LdAbs(NR_OFFSET));
      CheckArchCloses(g2, g2.Current(), g2.Current(), arch);
    } else {
      CheckArchCloses(g1, -1, -default, arch);
    }
  }

  /** Every finished program halts: on every input it reaches a return. */
  lemma ProgramHalts(rules: seq<RangeRule>, default: int, arch: u32, d: SeccompData)
    requires rules != [] && forall i :: 0 <= i < |rules| ==> IsRule(rules[i])
    requires IsAction(default)
    ensures Run(Reversed(CompileRules(rules, default, arch).code), 0, 0, 0, d).Some?
  {
    hide IsAnchored, IsClosed, IsAction, IsRule, CompileRules, Run, Exec;
    ProgramIsClosed(rules, default, arch);
    var code := CompileRules(rules, default, arch).code;
    ClosedCodeReturns(code, |code| - 1, 0, 0, d);
    RunReversed(code, |code| - 1, 0, 0, d);
  }

  /** The program starts where it should. When the whole search collapses into KILL, code that
      turned out to be unused may remain in front, and then no entry is emitted for KILL as
      long as one of its returns is in reach. */
  predicate HasEntry(rules: seq<RangeRule>, default: int)
    requires rules != [] && forall i :: 0 <= i < |rules| ==> IsRule(rules[i])
  {
    var (g, next) := GenerateRules(FRESH, rules);
    next >= 0 || default != KILL || g.basic[KILL] == INVALID_LOCATION || g.Distance(g.basic[KILL]) > MAX_JUMP
  }

  lemma CheckArchDecides(g: Gen, begin: int, next: int, arch: u32, d: SeccompData, res: Option<u32>)
    requires AtRest(g) && IsTarget(g.code, next) && -1 <= begin <= g.Current() && (next >= 0 ==> begin == next)
    requires Decides(g.code, next, d, res) && !CheckArch(g, begin, next, arch).stale
    requires next == -KILL ==> g.basic[KILL] == INVALID_LOCATION || g.Distance(g.basic[KILL]) > MAX_JUMP
    ensures var g' := CheckArch(g, begin, next, arch);
            Exec(g'.code, g'.Current(), 0, 0, d) == if d.arch == arch then res else Some(ActionToBpf(KILL))
  {
    hide AtRest, ResolveLocation, LoadWord;
    ActionDecides(g.code, KILL, d);
    var (g1, next1) := AddJump(g, JEq, K, arch, next, -KILL);
    if next != -KILL {
      AddJumpForks(g, JEq, K, arch, next, -KILL);
      AddJumpOutcome(g, JEq, K, arch, next, -KILL, d.arch, 0, d);
      ExecExtends(g1.code, g1.code + [LdAbs(ARCH_OFFSET)], g1.Current(), d.arch, 0, d);
      LoadsHeader(d);
    } else {
      EmitsKill(g);
      assert Outcome(g.code, next, 0, 0, d) == res;
    }
  }

  lemma LoadsHeader(d: SeccompData)
    ensures LoadWord(d, NR_OFFSET) == Some(d.nr) && LoadWord(d, ARCH_OFFSET) == Some(d.arch)
  {
  }

  lemma EmitsKill(g: Gen)
    requires g.basic[KILL] == INVALID_LOCATION || g.Distance(g.basic[KILL]) > MAX_JUMP
    ensures ResolveLocation(g, -KILL).0.code == g.code + [Ret(ActionToBpf(KILL))]
  {
  }

  lemma CheckArchRemembers(g: Gen, begin: int, next: int, arch: u32)
    requires IsTarget(g.code, next)
    ensures g.stale ==> CheckArch(g, begin, next, arch).stale
  {
    hide ResolveLocation;
  }

  /** When the search was emitted, loading the number in front of it starts the search. */
  lemma SearchDecides(g: Gen, rules: seq<RangeRule>, next: int, d: SeccompData, res: Option<u32>)
    requires next == g.Current() && next >= 0 && DecidesNumber(g.code, next, d, res)
    ensures var g' := AddInstruction(g, LdAbs(NR_OFFSET)); Decides(g'.code, g'.Current(), d, res)
  {
    hide LoadWord;
    var g' := AddInstruction(g, LdAbs(NR_OFFSET));
    LoadsHeader(d);
    forall a: u32, x: u32 ensures Outcome(g'.code, g'.Current(), a, x, d) == res {
      ExecExtends(g.code, g'.code, next, d.nr, x, d);
      assert Outcome(g.code, next, d.nr, x, d) == res;
    }
  }

  /** When the search collapsed into one action, that action is the default. */
  lemma CollapsedSearch(rules: seq<RangeRule>, default: int, d: SeccompData, n: u32)
    requires AreRules(rules) && IsAction(default)
    requires IsRule(FindRule(rules, n)) && FindRule(rules, n).action == default
    requires !GenerateRules(FRESH, rules).0.stale && GenerateRules(FRESH, rules).1 < 0
    ensures RuleDecision(FindRule(rules, d.nr), d.args) == default
  {
    hide AtRest, IsDecisionList, GenerateRules, ActionToBpf, FindRule;
    FreshIsAtRest();
    var (g, next) := GenerateRules(FRESH, rules);
    RulesDecide(FRESH, rules, d);
    RulesDecide(FRESH, rules, d.(nr := n));
    assert Outcome(g.code, next, d.nr, 0, d) == Some(ActionToBpf(-next));
    assert Outcome(g.code, next, n, 0, d.(nr := n)) == Some(ActionToBpf(-next));
    ActionToBpfInjective(RuleDecision(FindRule(rules, d.nr), d.args), -next);
    ActionToBpfInjective(RuleDecision(FindRule(rules, n), d.args), -next);
  }

  /** If the rules decide anything but KILL on some input the search does not collapse into it. */
  lemma DecisionKeepsSearch(rules: seq<RangeRule>, default: int, d: SeccompData, n: u32)
    requires AreRules(rules) && IsAction(default)
    requires FindRule(rules, n).action == default && !GenerateRules(FRESH, rules).0.stale
    requires RuleDecision(FindRule(rules, d.nr), d.args) != KILL
    ensures HasEntry(rules, default)
  {
    hide AtRest, IsDecisionList, GenerateRules, FindRule, RuleDecision;
    if default == KILL && GenerateRules(FRESH, rules).1 < 0 {
      CollapsedSearch(rules, default, d, n);
    }
  }

  /** The finished program returns KILL on a foreign architecture and otherwise the decision
      of the rule in whose range the number lies. */
  lemma ProgramDecides(rules: seq<RangeRule>, default: int, arch: u32, d: SeccompData, n: u32)
    requires AreRules(rules) && IsAction(default)
    requires FindRule(rules, n).action == default
    requires HasEntry(rules, default) && !CompileRules(rules, default, arch).stale
    ensures Run(Reversed(CompileRules(rules, default, arch).code), 0, 0, 0, d) ==
            Some(ActionToBpf(if d.arch == arch then RuleDecision(FindRule(rules, d.nr), d.args) else KILL))
  {
    hide AtRest, IsAction, GenerateRules, CheckArch, IsRule, RuleDecision, ActionToBpf, Run, Exec, Decides;
    FreshIsAtRest();
    RulesRest(FRESH, rules);
    PositiveAction(default);
    var (g1, next1) := GenerateRules(FRESH, rules);
    var decision := RuleDecision(FindRule(rules, d.nr), d.args);
    var g := CompileRules(rules, default, arch);
    CompileRemembers(rules, default, arch);
    if next1 > -1 {
      SingleRuleCollapses(rules, n);
      RulesDecide(FRESH, rules, d);
      SearchDecides(g1, rules, next1, d, Some(ActionToBpf(decision)));
      AppendRests(g1, LdAbs(NR_OFFSET));
      var g2 := AddInstruction(g1, LdAbs(NR_OFFSET));
      CheckArchDecides(g2, g2.Current(), g2.Current(), arch, d, Some(ActionToBpf(decision)));
    } else {
      CollapsedSearch(rules, default, d, n);
      ActionDecides(g1.code, default, d);
      CheckArchDecides(g1, -1, -default, arch, d, Some(ActionToBpf(decision)));
    }
    RunReversed(g.code, |g.code| - 1, 0, 0, d);
  }

  lemma SingleRuleCollapses(rules: seq<RangeRule>, n: u32)
    requires AreRules(rules) && IsAction(FindRule(rules, n).action)
    requires GenerateRules(FRESH, rules).1 >= 0
    ensures |rules| > 1
  {
  }

  lemma CompileRemembers(rules: seq<RangeRule>, default: int, arch: u32)
    requires rules != [] && forall i :: 0 <= i < |rules| ==> IsRule(rules[i])
    requires IsAction(default)
    ensures GenerateRules(FRESH, rules).0.stale ==> CompileRules(rules, default, arch).stale
  {
    hide CheckArch, GenerateRules, IsRule, IsAction;
    var (g1, next1) := GenerateRules(FRESH, rules);
    PositiveAction(default);
    if next1 > -1 {
      var g2 := AddInstruction(g1, LdAbs(NR_OFFSET));
      CheckArchRemembers(g2, g2.Current(), g2.Current(), arch);
    } else {
      CheckArchRemembers(g1, -1, -default, arch);
    }
  }
}
