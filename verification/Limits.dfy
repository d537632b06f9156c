/**
  Where the compiler's guarantee ends. A policy whose lists are closed twice has no program. A
  policy with a rule that is not taken in, and one whose search collapses, have programs that
  decide wrongly, and so does the code of a comparison that loses its right operand.
 */
module Limits {
  import opened Options
  import opened Words
  import opened Expression
  import opened Wide
  import opened Bpf
  import opened Policy
  import opened RangeRules
  import opened Normalizing
  import opened Coverage
  import opened Closing
  import opened Codegen
  import opened Generating
  import opened Overwriting
  import opened Compiling
  import opened Flattening
  import opened Sorting
  import opened EndToEnd
  import opened Sizes

  // ----- a mask of two variables overwrites X -----

  const MASKED_EQUALITY: Expr := Compare(Eq, Mask(Var(0, 4), Var(1, 4)), Var(2, 4))

  /** `(a & b) == c` compiled in isolation. */
  const MASKED_EQUALITY_CODE: seq<Instr> :=
    [Ret(0x7FFF_0000), Ret(0), Jump(JEq, X, 0, 1, 0), AndX, LdAbs(16), Tax, LdAbs(24), Tax, LdAbs(32)]

  lemma MaskedEqualityJump()
    ensures var (g, next) := AddJump(FRESH, JEq, X, 0, -ALLOW, -KILL);
            g.code == MASKED_EQUALITY_CODE[..3] && next == 2 && !g.stale
  {
    var g1 := ResolveLocation(FRESH, -ALLOW).0;
    assert g1.code == [Ret(0x7FFF_0000)];
    var g2 := ResolveLocation(g1, -KILL).0;
    assert g2.code == [Ret(0x7FFF_0000), Ret(0)];
    assert ResolveLocation(g2, -ALLOW) == (g2, 1);
  }

  lemma MaskedEqualityCompiles()
    ensures IsNormal(MASKED_EQUALITY)
    ensures var (g, next) := GenerateExpr(FRESH, MASKED_EQUALITY, -ALLOW, -KILL);
            g.code == MASKED_EQUALITY_CODE && next == 8 && !g.stale
  {
    hide AddJump;
    var l, r := Mask(Var(0, 4), Var(1, 4)), Var(2, 4);
    assert PlanCompare(JEq, l, r, -ALLOW, -KILL, Low) == Branch(JEq, l, r, -ALLOW, -KILL);
    MaskedEqualityJump();
    var g4 := AddJump(FRESH, JEq, X, 0, -ALLOW, -KILL).0;
    var g5 := GenerateLoad(g4, l, Low);
    assert g5.code == g4.code + [AndX, LdAbs(16), Tax, LdAbs(24)];
    assert GenerateLoad(AddInstruction(g5, Tax), r, Low).code == g5.code + [Tax, LdAbs(32)];
  }

  /** Loading the mask leaves its second variable in X, so the code compares the mask with that
      variable instead of the right operand: with a = b = 1 and c = 0 it says they are equal. */
  lemma MaskedEqualityGoesWrong(d: SeccompData)
    requires d.args == [1, 1, 0, 0, 0, 0]
    ensures IsNormal(MASKED_EQUALITY) && !ReadsRightThroughout(MASKED_EQUALITY)
    ensures !CompiledHolds(MASKED_EQUALITY, d.args)
    ensures var (g, next) := GenerateExpr(FRESH, MASKED_EQUALITY, -ALLOW, -KILL);
            !g.stale && Exec(g.code, next, 0, 0, d) == Some(ActionToBpf(ALLOW))
  {
    hide GenerateExpr, Exec;
    MaskedEqualityCompiles();
    MaskedEqualityValues(d.args);
    hide FullValue;
    MaskedEqualityRuns(d);
  }

  lemma MaskedEqualityValues(args: Args)
    requires args[0] == args[1] == 1 && args[2] == 0
    ensures FullValue(MASKED_EQUALITY.left, args) == 1 && FullValue(MASKED_EQUALITY.right, args) == 0
  {
    assert BitAnd(1, 1) == 1;
  }

  lemma MaskedEqualityRuns(d: SeccompData)
    requires d.args == [1, 1, 0, 0, 0, 0]
    ensures Exec(MASKED_EQUALITY_CODE, 8, 0, 0, d) == Some(ActionToBpf(ALLOW))
  {
    var c := MASKED_EQUALITY_CODE;
    assert BitAnd(1, 1) == 1;
    assert LoadWord(d, 32) == Some(0) && LoadWord(d, 24) == Some(1) && LoadWord(d, 16) == Some(1);
    assert Exec(c, 0, 1, 1, d) == Some(0x7FFF_0000);
    assert Exec(c, 2, 1, 1, d) == Some(0x7FFF_0000);
    assert Exec(c, 3, 1, 1, d) == Some(0x7FFF_0000);
    assert Exec(c, 4, 1, 1, d) == Some(0x7FFF_0000);
    assert Exec(c, 5, 1, 0, d) == Some(0x7FFF_0000);
    assert Exec(c, 6, 0, 0, d) == Some(0x7FFF_0000);
    assert Exec(c, 7, 0, 0, d) == Some(0x7FFF_0000);
  }

  // ----- a rule that is not taken in -----

  function ArgIs(n: u32): Expr { Compare(Eq, Var(0, 4), Number(n)) }

  function RuleIf(n: u32, priority: nat): RangeRule {
    RangeRule(5, 5, CONDITIONAL, priority, [Mapping(Some(ArgIs(n)), ALLOW)])
  }

  const FIRST_RULE: RangeRule := RangeRule(1, 1, ALLOW, 1, [])

  /** ALLOW { syscall 1, syscall 5 if a == 1, syscall 5 if a == 2 } DEFAULT KILL */
  const LOST_POLICY: seq<Entry> :=
    [Block(ALLOW, [Filter(1, None), Filter(5, Some(ArgIs(1))), Filter(5, Some(ArgIs(2)))])]

  const LOST_RULES: seq<RangeRule> := [FIRST_RULE, RuleIf(1, 2), RuleIf(2, 3)]

  const CLOSED_RULE: RangeRule := RangeRule(5, 5, CONDITIONAL, 2, [Mapping(Some(ArgIs(1)), ALLOW), Mapping(None, KILL)])

  const LOST_FINAL: seq<RangeRule> :=
    [Gap(0, 0, KILL), FIRST_RULE, Gap(2, 4, KILL), CLOSED_RULE, Gap(6, MAX_SYSCALL_NR, KILL)]

  lemma ArgIsPlain(n: u32, args: Args)
    ensures var f := Filter(5, Some(ArgIs(n)));
            IsFilter(f) && Simplify(ArgIs(n)) == ArgIs(n) && IsNormal(ArgIs(n)) && FilterIsFaithful(f, args)
    ensures Holds(ArgIs(n), args) <==> LowWord(args[0]) == n
    ensures CodeHolds(ArgIs(n), args) <==> LowWord(args[0]) == n
  {
    var e := ArgIs(n);
    assert EliminateNegation(e, false) == e && SortOperands(e) == e && Precompute(e) == e;
    TypedIsFilter(Filter(5, Some(e)), [4]);
  }

  lemma LostPolicyFlattens()
    ensures IsPolicy(LOST_POLICY) && Flatten(LOST_POLICY) == LOST_RULES
  {
    hide ArgIs, IsFilter, Simplify, IsNormal, FilterIsFaithful, Holds, IsCondition;
    ArgIsPlain(1, [0, 0, 0, 0, 0, 0]);
    ArgIsPlain(2, [0, 0, 0, 0, 0, 0]);
    NormalIsNoConstant(ArgIs(1));
    NormalIsNoConstant(ArgIs(2));
    var fs := [Filter(1, None), Filter(5, Some(ArgIs(1))), Filter(5, Some(ArgIs(2)))];
    assert IsFilter(fs[0]) by { PlainIsFilter(1, [0, 0, 0, 0, 0, 0]); }
    assert AddFilters(LOST_RULES[..3], ALLOW, []) == LOST_RULES;
    assert fs[2..][1..] == [] && LOST_RULES[..2] + [LOST_RULES[2]] == LOST_RULES[..3];
    assert AddFilters(LOST_RULES[..2], ALLOW, fs[2..]) == LOST_RULES;
    assert fs[1..][1..] == fs[2..] && LOST_RULES[..1] + [LOST_RULES[1]] == LOST_RULES[..2];
    assert AddFilters(LOST_RULES[..1], ALLOW, fs[1..]) == LOST_RULES;
    assert [] + [LOST_RULES[0]] == LOST_RULES[..1];
    assert AddFilters([], ALLOW, fs) == LOST_RULES;
    assert LOST_POLICY[0] == Block(ALLOW, fs) && LOST_POLICY[1..] == [];
    assert AddPolicyRules([], LOST_POLICY) == AddPolicyRules(LOST_RULES, LOST_POLICY[1..]);
  }

  lemma PlainIsFilter(nr: u32, args: Args)
    ensures IsFilter(Filter(nr, None)) && FilterIsFaithful(Filter(nr, None), args)
  {
  }

  lemma LostRulesSort()
    ensures Sorted(LOST_RULES) == LOST_RULES
  {
    hide ArgIs;
    assert LOST_RULES[..2][..1] == LOST_RULES[..1] && LOST_RULES[..1][..0] == [];
    assert Sorted(LOST_RULES[..1]) == LOST_RULES[..1] by { assert Insert([], LOST_RULES[0]) == LOST_RULES[..1]; }
    assert Sorted(LOST_RULES[..2]) == LOST_RULES[..2] by {
      assert LOST_RULES[..1] + [LOST_RULES[1]] == LOST_RULES[..2];
    }
    assert LOST_RULES[..2] + [LOST_RULES[2]] == LOST_RULES;
  }

  lemma LostRulesAreLost()
    ensures AreClosedOnce(LOST_RULES) && AreTakenIn(LOST_RULES, 1) && !AreTakenIn(LOST_RULES, 5)
  {
    hide ArgIs;
    assert Leader(LOST_RULES, 1) == 1 && Leader(LOST_RULES, 2) == 1;
    assert LOST_RULES[0].first == 1 && LOST_RULES[1].first == LOST_RULES[2].first == 5;
    assert !IsTakenIn(LOST_RULES, 2);
  }

  /** The second rule is placed and closed. */
  lemma LostRuleIsPlaced()
    ensures Step(Pass([FIRST_RULE], 0), LOST_RULES[1], 1, KILL) == Pass([FIRST_RULE, CLOSED_RULE], 1)
  {
    hide ArgIs;
    assert LOST_RULES[1].mappings + [Mapping(None, KILL)] == CLOSED_RULE.mappings;
    assert NormalizeList(LOST_RULES[1], KILL) == CLOSED_RULE;
    assert [FIRST_RULE] + [CLOSED_RULE] == [FIRST_RULE, CLOSED_RULE];
  }

  /** The third rule finds it closed. */
  lemma LostRuleIsDropped()
    ensures Step(Pass([FIRST_RULE, CLOSED_RULE], 1), LOST_RULES[2], 2, KILL) == Pass([FIRST_RULE, CLOSED_RULE], 1)
  {
    hide ArgIs;
    assert Merge(CLOSED_RULE, LOST_RULES[2]) == CLOSED_RULE;
  }

  lemma LostRulesCount()
    ensures CountMissing(LOST_RULES, KILL).out == [FIRST_RULE, CLOSED_RULE]
  {
    hide ArgIs, Step;
    LostRuleIsPlaced();
    LostRuleIsDropped();
    assert Steps(LOST_RULES, 1, KILL) == Pass([FIRST_RULE], 0);
    assert Steps(LOST_RULES, 2, KILL) == Pass([FIRST_RULE, CLOSED_RULE], 1);
    assert Steps(LOST_RULES, 3, KILL) == Pass([FIRST_RULE, CLOSED_RULE], 1);
    hide Steps;
    assert NormalizeList(FIRST_RULE, KILL) == FIRST_RULE;
    assert StretchFirst(Pass([FIRST_RULE, CLOSED_RULE], 1), KILL) == Pass([FIRST_RULE, CLOSED_RULE], 2);
  }

  lemma LostRulesNormalize()
    ensures AreClosedOnce(LOST_RULES) && AreTakenIn(LOST_RULES, 1) && !AreTakenIn(LOST_RULES, 5)
    ensures Normalize(LOST_RULES, KILL) == LOST_FINAL
  {
    hide ArgIs, CountMissing, AreClosedOnce, AreTakenIn;
    LostRulesAreLost();
    LostRulesCount();
    var out := [FIRST_RULE, CLOSED_RULE];
    assert out[..1] == [FIRST_RULE];
    assert FillBetween([FIRST_RULE], KILL) == [FIRST_RULE];
    assert FillBetween(out, KILL) == [FIRST_RULE, Gap(2, 4, KILL), CLOSED_RULE];
  }

  lemma LostPolicyIsCompilable()
    ensures IsCompilable(LOST_POLICY) && IsTakenWhole(LOST_POLICY, 1) && !IsTakenWhole(LOST_POLICY, 5)
    ensures FinalRules(LOST_POLICY, KILL) == LOST_FINAL && Flatten(LOST_POLICY) == LOST_RULES
  {
    hide IsPolicy, AddPolicyRules, AreTakenIn, AreClosedOnce, Normalize, Sorted;
    LostPolicyFlattens();
    LostRulesSort();
    LostRulesNormalize();
  }

  /** The final rules say nothing of the second condition. */
  lemma LostFinalDecides(args: Args)
    requires LowWord(args[0]) == 2
    ensures AreRules(LOST_FINAL) && FindRule(LOST_FINAL, 5) == CLOSED_RULE && FindRule(LOST_FINAL, 0).action == KILL
    ensures IsRule(CLOSED_RULE) && RuleDecision(CLOSED_RULE, args) == KILL
  {
    hide ArgIs, IsNormal, CodeHolds, FilterIsFaithful, IsFilter, Simplify;
    ArgIsPlain(1, args);
    var ms := CLOSED_RULE.mappings;
    assert IsDecisionList(ms) && ms[1..] == [Mapping(None, KILL)];
    assert ListDecision(ms, args) == KILL;
    LostFinalFinds();
  }

  lemma LostFinalFinds()
    ensures FindRule(LOST_FINAL, 5) == CLOSED_RULE && FindRule(LOST_FINAL, 0).action == KILL
  {
    hide ArgIs;
    FindRuleSplits(LOST_FINAL, 5, 3);
    assert LOST_FINAL[3..] == [CLOSED_RULE, Gap(6, MAX_SYSCALL_NR, KILL)];
  }

  lemma LostDecision(args: Args)
    requires LowWord(args[0]) == 2
    ensures IsPolicy(LOST_POLICY) && PolicyIsFaithful(LOST_POLICY, 5, args) && PolicyIsFaithful(LOST_POLICY, 1, args)
    ensures Decision(LOST_POLICY, KILL, 5, args) == Decision(LOST_POLICY, KILL, 1, args) == ALLOW
  {
    hide ArgIs, Simplify, FilterIsFaithful, Holds, IsFilter, Typed, IsNormal, CodeHolds, AddPolicyRules;
    LostPolicyFlattens();
    PlainIsFilter(1, args);
    ArgIsPlain(1, args);
    ArgIsPlain(2, args);
    var fs := [Filter(1, None), Filter(5, Some(ArgIs(1))), Filter(5, Some(ArgIs(2)))];
    assert LOST_POLICY[0] == Block(ALLOW, fs);
    assert Matches(fs[0], 1, args) && Matches(fs[2], 5, args);
    assert AnyMatches(fs, 1, args) && AnyMatches(fs, 5, args);
  }

  lemma LostPolicySize()
    requires Flatten(LOST_POLICY) == LOST_RULES
    ensures PolicySize(LOST_POLICY) <= MAX_JUMP + 1
  {
    hide Flatten, ListSize;
    var rules := LOST_RULES;
    assert rules == [rules[0]] + [rules[1]] + [rules[2]];
    RulesSizeAppends([rules[0]] + [rules[1]], rules[2]);
    RulesSizeAppends([rules[0]], rules[1]);
    SingleRuleSize(rules[0]);
    ConditionSize(1, 2);
    ConditionSize(2, 3);
    GapIsFree(0, 0, 0);
  }

  lemma ConditionSize(n: u32, priority: nat)
    ensures ListSize(RuleIf(n, priority).mappings) == COMPARE_SIZE
  {
    var ms := RuleIf(n, priority).mappings;
    assert ms[1..] == [] && ListSize(ms[1..]) == 0;
  }

  /** Syscall 5 with a first argument of 2 is allowed by the policy and killed by its program: the
      list of conditions on 5 was closed when it was placed, and the second one is lost. */
  lemma SecondConditionIsLost(arch: u32, d: SeccompData)
    requires d.arch == arch && d.nr == 5 && LowWord(d.args[0]) == 2
    ensures IsCompilable(LOST_POLICY) && !IsTakenWhole(LOST_POLICY, 5) && PolicyIsFaithful(LOST_POLICY, 5, d.args)
    ensures IsEnteredProperly(LOST_POLICY, KILL) && !Generated(LOST_POLICY, KILL, arch).stale
    ensures Decision(LOST_POLICY, KILL, d.nr, d.args) == ALLOW
    ensures Run(Compile(LOST_POLICY, KILL, arch), 0, 0, 0, d) == Some(ActionToBpf(KILL))
  {
    hide IsCompilable, IsTakenWhole, PolicyIsFaithful, FinalRules, Flatten, Decision, Run, CompileRules, PolicySize,
         RuleDecision, FindRule, AreRules, HasEntry, IsRule;
    LostPolicyIsCompilable();
    LostDecision(d.args);
    LostPolicySize();
    SmallPoliciesAreShort(LOST_POLICY, KILL, arch);
    DecisionGivesEntry(LOST_POLICY, KILL, arch, 1, d.args);
    LostFinalDecides(d.args);
    FinalRulesAreRules(LOST_POLICY, KILL);
    ProgramDecides(LOST_FINAL, KILL, arch, d, 0);
  }

  // ----- a list that is closed twice -----

  /** ALLOW { syscall 1, syscall 5 if a == 1 } LOG { syscall 5 } DEFAULT KILL */
  const TWICE_POLICY: seq<Entry> :=
    [Block(ALLOW, [Filter(1, None), Filter(5, Some(ArgIs(1)))]), Block(LOG, [Filter(5, None)])]

  const TWICE_RULES: seq<RangeRule> := [FIRST_RULE, RuleIf(1, 2), RangeRule(5, 5, LOG, 3, [])]

  lemma TwicePolicyFlattens()
    ensures IsPolicy(TWICE_POLICY) && Flatten(TWICE_POLICY) == TWICE_RULES
  {
    hide ArgIs, IsFilter, Simplify, IsNormal, FilterIsFaithful, Holds, IsCondition;
    ArgIsPlain(1, [0, 0, 0, 0, 0, 0]);
    NormalIsNoConstant(ArgIs(1));
    PlainIsFilter(1, [0, 0, 0, 0, 0, 0]);
    PlainIsFilter(5, [0, 0, 0, 0, 0, 0]);
    var fs, gs := [Filter(1, None), Filter(5, Some(ArgIs(1)))], [Filter(5, None)];
    assert fs[1..] == [Filter(5, Some(ArgIs(1)))] && fs[1..][1..] == [] && gs[1..] == [];
    assert [] + [TWICE_RULES[0]] == TWICE_RULES[..1] && TWICE_RULES[..1] + [TWICE_RULES[1]] == TWICE_RULES[..2];
    assert TWICE_RULES[..2] + [TWICE_RULES[2]] == TWICE_RULES;
    assert AddFilters(TWICE_RULES[..1], ALLOW, fs[1..]) == TWICE_RULES[..2];
    assert AddFilters([], ALLOW, fs) == TWICE_RULES[..2];
    assert AddFilters(TWICE_RULES[..2], LOG, gs) == TWICE_RULES;
    assert TWICE_POLICY[0] == Block(ALLOW, fs) && TWICE_POLICY[1..][0] == Block(LOG, gs);
    assert TWICE_POLICY[1..][1..] == [];
    assert AddPolicyRules(TWICE_RULES[..2], TWICE_POLICY[1..]) == AddPolicyRules(TWICE_RULES, TWICE_POLICY[1..][1..]);
    assert AddPolicyRules([], TWICE_POLICY) == AddPolicyRules(TWICE_RULES[..2], TWICE_POLICY[1..]);
  }

  lemma TwiceRulesSort()
    ensures Sorted(TWICE_RULES) == TWICE_RULES
  {
    hide ArgIs;
    assert TWICE_RULES[..2][..1] == TWICE_RULES[..1] && TWICE_RULES[..1][..0] == [];
    assert Sorted(TWICE_RULES[..1]) == TWICE_RULES[..1] by { assert Insert([], TWICE_RULES[0]) == TWICE_RULES[..1]; }
    assert Sorted(TWICE_RULES[..2]) == TWICE_RULES[..2] by {
      assert TWICE_RULES[..1] + [TWICE_RULES[1]] == TWICE_RULES[..2];
    }
    assert TWICE_RULES[..2] + [TWICE_RULES[2]] == TWICE_RULES;
  }

  /** An unconditional rule on 5 behind a conditional one closes a list that is closed already: the
      generator is handed an entry without a condition where it reads one. */
  lemma ListIsClosedTwice(default: int)
    requires IsAction(default)
    ensures IsPolicy(TWICE_POLICY) && !IsCompilable(TWICE_POLICY)
    ensures exists r :: r in FinalRules(TWICE_POLICY, default) && !IsRule(r)
  {
    hide IsPolicy, AddPolicyRules, Sorted, Normalize, IsRule, IsAction, ArgIs, AreSourceRules, AreNumbered;
    TwicePolicyFlattens();
    TwiceRulesSort();
    SourceRulesAreSourceRules(TWICE_POLICY);
    assert Leader(TWICE_RULES, 1) == 1 && Leader(TWICE_RULES, 2) == 1;
    assert !IsClosedOnce(TWICE_RULES, 2);
    BrokenReachesGenerator(TWICE_RULES, default, 2);
  }

  // ----- unused code in front of a collapsed search -----

  /** `(a & 0xffffffff) == 0x100000000` never holds. */
  const NEVER_EQUAL: Expr := Compare(Eq, Mask(Var(0, 8), Number(0xFFFF_FFFF)), Number(0x1_0000_0000))

  const NEVER_RULE: RangeRule := RangeRule(5, 5, CONDITIONAL, 1, [Mapping(Some(NEVER_EQUAL), ALLOW)])

  /** ALLOW { syscall 5 if NEVER_EQUAL } DEFAULT KILL */
  const NEVER_POLICY: seq<Entry> := [Block(ALLOW, [Filter(5, Some(NEVER_EQUAL))])]

  const NEVER_FINAL: seq<RangeRule> :=
    [Gap(0, 4, KILL), NEVER_RULE.(mappings := [Mapping(Some(NEVER_EQUAL), ALLOW), Mapping(None, KILL)]),
     Gap(6, MAX_SYSCALL_NR, KILL)]

  /** What remains of the low-word comparison. */
  const NEVER_CODE: seq<Instr> := [Ret(0), Ret(0x7FFF_0000), Jump(JSet, K, 0xFFFF_FFFF, 1, 0), LdAbs(16)]

  lemma NeverFlattens()
    ensures IsPolicy(NEVER_POLICY) && Flatten(NEVER_POLICY) == [NEVER_RULE]
  {
    var f := Filter(5, Some(NEVER_EQUAL));
    assert Typed(NEVER_EQUAL, [8]);
    assert Simplify(NEVER_EQUAL) == NEVER_EQUAL;
    assert [f][1..] == [] && [] + [NEVER_RULE] == [NEVER_RULE];
    assert AddFilters([], ALLOW, [f]) == [NEVER_RULE];
    assert HasWidths(NEVER_EQUAL) && IsFilter(f);
    assert NEVER_POLICY[0] == Block(ALLOW, [f]) && NEVER_POLICY[1..] == [];
    assert AddPolicyRules([], NEVER_POLICY) == AddPolicyRules([NEVER_RULE], NEVER_POLICY[1..]);
  }

  lemma NeverNormalizes()
    ensures AreClosedOnce([NEVER_RULE]) && (forall n :: AreTakenIn([NEVER_RULE], n)) &&
            Normalize([NEVER_RULE], KILL) == NEVER_FINAL
  {
    assert NEVER_RULE.mappings + [Mapping(None, KILL)] == NEVER_FINAL[1].mappings;
    assert NormalizeList(NEVER_RULE, KILL) == NEVER_FINAL[1];
    var p := StretchFirst(Steps([NEVER_RULE], 1, KILL), KILL);
    assert p.out == [NEVER_FINAL[1]];
    assert CountMissing([NEVER_RULE], KILL).out == [NEVER_FINAL[1]];
    assert WithHead([NEVER_FINAL[1]], KILL) == [NEVER_FINAL[0], NEVER_FINAL[1]];
  }

  lemma NeverPolicyIsCompilable()
    ensures IsCompilable(NEVER_POLICY) && FinalRules(NEVER_POLICY, KILL) == NEVER_FINAL
    ensures forall nr :: IsTakenWhole(NEVER_POLICY, nr)
  {
    hide IsPolicy, AddPolicyRules, AreTakenIn, AreClosedOnce, Normalize;
    NeverFlattens();
    NeverNormalizes();
    assert Sorted([NEVER_RULE]) == [NEVER_RULE] by {
      assert [NEVER_RULE][..0] == [];
      assert Insert([], NEVER_RULE) == [NEVER_RULE];
    }
  }

  lemma NeverEqualCompiles()
    ensures IsNormal(NEVER_EQUAL)
    ensures var (g, next) := GenerateExpr(FRESH, NEVER_EQUAL, -ALLOW, -KILL);
            g.code == NEVER_CODE && next == -KILL && g.basic[KILL] == 0
  {
    var l, r := Mask(Var(0, 8), Number(0xFFFF_FFFF)), Number(0x1_0000_0000);
    assert PlanCompare(JEq, l, r, -ALLOW, -KILL, Low) == Branch(JSet, Var(0, 8), Number(0xFFFF_FFFF), -KILL, -ALLOW);
    var g1 := ResolveLocation(FRESH, -KILL).0;
    assert g1.code == [Ret(0)];
    var g2 := ResolveLocation(g1, -ALLOW).0;
    assert g2.code == [Ret(0), Ret(0x7FFF_0000)];
    assert ResolveLocation(g2, -KILL) == (g2, 1);
    var (g4, n4) := AddJump(FRESH, JSet, K, 0xFFFF_FFFF, -KILL, -ALLOW);
    assert g4.code == [Ret(0), Ret(0x7FFF_0000), Jump(JSet, K, 0xFFFF_FFFF, 1, 0)] && n4 == 2;
    var (g5, n5) := GenerateCmp32(FRESH, JEq, l, r, -ALLOW, -KILL, Low, Normal);
    assert g5.code == NEVER_CODE && n5 == 3;
    assert PlanCompare(JEq, l, r, n5, -KILL, High) == Settled(-KILL);
  }

  lemma NeverRuleCompiles()
    ensures IsRule(NEVER_FINAL[1])
    ensures var (g, next) := GenerateAction(FRESH, NEVER_FINAL[1]);
            g.code == NEVER_CODE && next == -KILL && g.basic[KILL] == 0
  {
    hide GenerateExpr;
    NeverEqualCompiles();
    var ms := NEVER_FINAL[1].mappings;
    assert IsDecisionList(ms) && ms[1..] == [Mapping(None, KILL)];
    assert GenerateMappings(FRESH, ms[1..]) == (FRESH, -KILL);
  }

  lemma NeverSearchCollapses()
    ensures forall i :: 0 <= i < |NEVER_FINAL| ==> IsRule(NEVER_FINAL[i])
    ensures var (g, next) := GenerateRules(FRESH, NEVER_FINAL);
            g.code == NEVER_CODE && next == -KILL && g.basic[KILL] == 0
  {
    hide GenerateMappings, ResolveLocation, IsDecisionList;
    NeverRuleCompiles();
    var (g, _) := GenerateAction(FRESH, NEVER_FINAL[1]);
    var upper := NEVER_FINAL[1..];
    assert NEVER_FINAL[..1] == [NEVER_FINAL[0]] && upper[..1] == [NEVER_FINAL[1]] && upper[1..] == [NEVER_FINAL[2]];
    assert GenerateRules(FRESH, [NEVER_FINAL[1]]) == (g, -KILL);
    assert GenerateRules(g, [NEVER_FINAL[2]]) == (g, -KILL);
    assert GenerateRules(FRESH, upper) == (g, -KILL);
    assert GenerateRules(FRESH, [NEVER_FINAL[0]]) == (FRESH, -KILL);
  }

  lemma NeverProgram(arch: u32)
    ensures IsCompilable(NEVER_POLICY) && !IsEnteredProperly(NEVER_POLICY, KILL)
    ensures forall nr :: IsTakenWhole(NEVER_POLICY, nr)
    ensures Compile(NEVER_POLICY, KILL, arch) == Reversed(NEVER_CODE)
  {
    hide GenerateRules, IsCompilable, IsTakenWhole, FinalRules, IsRule;
    NeverPolicyIsCompilable();
    NeverSearchCollapses();
  }

  /** The search for this policy collapses into KILL, but the program starts with what remains
      of a comparison: with a zero first argument it allows every syscall on every
      architecture, although the policy kills them all. */
  lemma UnusedCodeIsEntered(arch: u32, d: SeccompData)
    requires LowWord(d.args[0]) == 0
    ensures IsCompilable(NEVER_POLICY) && !IsEnteredProperly(NEVER_POLICY, KILL)
    ensures IsTakenWhole(NEVER_POLICY, d.nr) && Decision(NEVER_POLICY, KILL, d.nr, d.args) == KILL
    ensures Run(Compile(NEVER_POLICY, KILL, arch), 0, 0, 0, d) == Some(ActionToBpf(ALLOW))
  {
    hide IsCompilable, IsTakenWhole, Decision, Compile, Run, LoadWord;
    NeverProgram(arch);
    NeverDecision(d.nr, d.args);
    NeverCodeAllows(d);
  }

  lemma NeverCodeAllows(d: SeccompData)
    requires LowWord(d.args[0]) == 0
    ensures Run(Reversed(NEVER_CODE), 0, 0, 0, d) == Some(ActionToBpf(ALLOW))
  {
    var prog := Reversed(NEVER_CODE);
    assert LoadWord(d, 16) == Some(0) && BitAnd(0, 0xFFFF_FFFF) == 0;
    assert Run(prog, 2, 0, 0, d) == Some(0x7FFF_0000);
    assert Run(prog, 1, 0, 0, d) == Some(0x7FFF_0000);
  }

  lemma NeverDecision(nr: u32, args: Args)
    ensures IsPolicy(NEVER_POLICY) && Decision(NEVER_POLICY, KILL, nr, args) == KILL
  {
    NeverFlattens();
    var f := Filter(5, Some(NEVER_EQUAL));
    assert !Holds(NEVER_EQUAL, args) by {
      assert Value(NEVER_EQUAL.left, args) <= 0xFFFF_FFFF;
    }
    assert !AnyMatches([f], nr, args);
    assert NEVER_POLICY[0] == Block(ALLOW, [f]) && NEVER_POLICY[1..] == [];
    assert FirstMatch(NEVER_POLICY, nr, args) == FirstMatch(NEVER_POLICY[1..], nr, args) == None;
  }
}
