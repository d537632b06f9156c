/**
  A policy whose program goes stale: one condition long enough for a jump to lose its false
  target. Everything else about the policy is in order.
 */
module FarTargets {
  import opened Options
  import opened Words
  import opened Expression
  import opened Wide
  import opened Bpf
  import opened Policy
  import opened RangeRules
  import opened Normalizing
  import opened Coverage
  import opened Closing
  import opened Codegen
  import opened Resolving
  import opened Overwriting
  import opened Compiling
  import opened Flattening
  import opened Sorting
  import opened EndToEnd

  function Unequal(n: u32): Expr { Compare(Neq, Var(0, 4), Number(n)) }

  /** `a != n && ... && a != 1` */
  function Avoids(n: u32): (e: Expr)
    requires n >= 1
  {
    if n == 1 then Unequal(1) else And(Unequal(n), Avoids(n - 1))
  }

  const ELSE_EXPR: Expr := Compare(Eq, Var(1, 4), Number(1))

  /** `(a != n && ... && a != 1) || b == 1` */
  function AvoidsOr(n: u32): (e: Expr)
    requires n >= 1
  {
    Or(Avoids(n), ELSE_EXPR)
  }

  const FAR_EXPR: Expr := AvoidsOr(129)

  /** ALLOW { syscall 0 if FAR_EXPR } DEFAULT KILL */
  const FAR_POLICY: seq<Entry> := [Block(ALLOW, [Filter(0, Some(FAR_EXPR))])]

  // ----- the condition is in order -----

  lemma {:induction false} AvoidsIsInOrder(n: u32, args: Args)
    requires n >= 1
    ensures var e := Avoids(n);
            && IsCondition(e) && IsNormal(e) && Typed(e, [4, 4]) && FoldsSoundly(e)
            && TellsThroughout(e, args) && ReadsRightThroughout(e)
            && (Holds(e, args) <==> !(1 <= LowWord(args[0]) <= n))
    decreases n
  {
    if n > 1 {
      AvoidsIsInOrder(n - 1, args);
    }
  }

  /** None of the three passes changes `e`. */
  predicate IsSimple(e: Expr) {
    EliminateNegation(e, false) == e && SortOperands(e) == e && Precompute(e) == e
  }

  lemma UnequalIsSimple(n: u32)
    ensures IsSimple(Unequal(n)) && IsNormal(Unequal(n))
  {
  }

  lemma JunctionIsSimple(l: Expr, r: Expr)
    requires IsSimple(l) && IsSimple(r) && IsNormal(l) && IsNormal(r)
    ensures IsSimple(And(l, r)) && IsSimple(Or(l, r)) && IsNormal(And(l, r)) && IsNormal(Or(l, r))
  {
    NormalIsNoConstant(l);
    NormalIsNoConstant(r);
  }

  lemma {:induction false} AvoidsIsSimple(n: u32)
    requires n >= 1
    ensures IsSimple(Avoids(n)) && IsNormal(Avoids(n))
    decreases n
  {
    hide Unequal, IsSimple, IsNormal;
    UnequalIsSimple(n);
    if n > 1 {
      AvoidsIsSimple(n - 1);
      JunctionIsSimple(Unequal(n), Avoids(n - 1));
    }
  }

  lemma AvoidsOrIsSimple(n: u32)
    requires n >= 1
    ensures Simplify(AvoidsOr(n)) == AvoidsOr(n)
  {
    hide Avoids;
    AvoidsIsSimple(n);
    JunctionIsSimple(Avoids(n), ELSE_EXPR);
  }

  lemma AvoidsOrIsInOrder(n: u32, args: Args)
    requires n >= 1
    ensures var e := AvoidsOr(n);
            && IsFilter(Filter(0, Some(e))) && Simplify(e) == e && IsNormal(e)
            && FilterIsFaithful(Filter(0, Some(e)), args)
            && (Holds(e, args) <==> !(1 <= LowWord(args[0]) <= n) || LowWord(args[1]) == 1)
  {
    hide Avoids, Simplify;
    AvoidsIsInOrder(n, args);
    AvoidsOrIsSimple(n);
    var e := AvoidsOr(n);
    TypedIsFilter(Filter(0, Some(e)), [4, 4]);
    assert FoldsSoundly(ELSE_EXPR) && TellsThroughout(ELSE_EXPR, args) && ReadsRightThroughout(ELSE_EXPR);
  }

  lemma FarExprIsInOrder(args: Args)
    ensures IsFilter(Filter(0, Some(FAR_EXPR))) && Simplify(FAR_EXPR) == FAR_EXPR && IsNormal(FAR_EXPR)
    ensures FilterIsFaithful(Filter(0, Some(FAR_EXPR)), args)
    ensures Holds(FAR_EXPR, args) <==> !(1 <= LowWord(args[0]) <= 129) || LowWord(args[1]) == 1
  {
    hide AvoidsOr, IsFilter, Simplify, IsNormal, FilterIsFaithful, Holds, IsCondition;
    AvoidsOrIsInOrder(129, args);
  }

  // ----- its code -----

  const BASE_CODE: seq<Instr> := [Ret(0x7FFF_0000), Ret(0), Jump(JEq, K, 1, 1, 0), LdAbs(24)]

  /** The state when `b == 1` has been compiled. */
  const BASE: Gen := Gen(BASE_CODE, FRESH.basic[ALLOW := 0][KILL := 1], [], false)

  lemma BaseCompiles()
    ensures IsNormal(ELSE_EXPR) && GenerateExpr(FRESH, ELSE_EXPR, -ALLOW, -KILL) == (BASE, 3)
  {
    var g1 := ResolveLocation(FRESH, -ALLOW).0;
    assert g1.code == [Ret(0x7FFF_0000)];
    var g2 := ResolveLocation(g1, -KILL).0;
    assert g2.code == [Ret(0x7FFF_0000), Ret(0)];
    assert ResolveLocation(g2, -ALLOW) == (g2, 1);
    var (g4, n4) := AddJump(FRESH, JEq, K, 1, -ALLOW, -KILL);
    assert g4 == BASE.(code := BASE_CODE[..3]) && n4 == 2;
    assert PlanCompare(JEq, Var(1, 4), Number(1), -ALLOW, -KILL, Low) ==
           Branch(JEq, Var(1, 4), Number(1), -ALLOW, -KILL);
    assert GenerateLoad(g4, Var(1, 4), Low) == BASE;
  }

  /** One comparison with its true target in reach and its false target right behind it. */
  lemma UnequalCompiles(g: Gen, n: u32, next: int)
    requires IsTarget(g.code, next) && 3 < |g.code| <= MAX_JUMP + 4 && KnownAt(g, next).Some?
    requires 0 <= g.Distance(KnownAt(g, next).value) <= MAX_JUMP && next != 3
    ensures IsNormal(Unequal(n))
    ensures var (g', next') := GenerateExpr(g, Unequal(n), next, 3);
            g' == g.(code := g'.code) && g.code <= g'.code && |g'.code| == |g.code| + 2 && next' == g'.Current()
  {
    hide ResolveLocation, KnownAt;
    ResolveAddsIff(g, 3);
    ResolveAddsIff(g, next);
    assert KnownAt(g, 3) == Some(3) by { LocationIsKnown(g, 3); }
    assert PlanCompare(JEq, Var(0, 4), Number(n), 3, next, Low) == Branch(JEq, Var(0, 4), Number(n), 3, next);
  }

  lemma LocationIsKnown(g: Gen, loc: int)
    requires 0 <= loc < |g.code|
    ensures KnownAt(g, loc) == Some(loc)
  {
  }

  lemma {:induction false} AvoidsCompiles(n: u32)
    requires 1 <= n <= 128
    ensures IsNormal(Avoids(n))
    ensures var (g, next) := GenerateExpr(BASE, Avoids(n), -ALLOW, 3);
            g == BASE.(code := g.code) && BASE_CODE <= g.code && |g.code| == 4 + 2 * n && next == g.Current()
    decreases n
  {
    hide GenerateInequality, GenerateEquality;
    if n == 1 {
      UnequalCompiles(BASE, 1, -ALLOW);
    } else {
      AvoidsCompiles(n - 1);
      var (g, next) := GenerateExpr(BASE, Avoids(n - 1), -ALLOW, 3);
      LocationIsKnown(g, next);
      UnequalCompiles(g, n, next);
    }
  }

  /** What the last comparison adds: two extra jumps to the same place, of which the jump's false
      offset finds the first. */
  const LOST_CODE: seq<Instr> := [Ja(256), Ja(257), Jump(JEq, K, 129, 0, 1), LdAbs(16)]

  lemma LastCompiles(g: Gen)
    requires |g.code| == 260 && !g.stale
    ensures IsNormal(Unequal(129))
    ensures var (g', next) := GenerateExpr(g, Unequal(129), 259, 3);
            g' == g.(code := g.code + LOST_CODE, stale := true) && next == 263
  {
    var g1 := ResolveLocation(g, 3).0;
    assert g1 == AddInstruction(g, Ja(256));
    assert ResolveLocation(g1, 259) == (g1, 1);
    assert ResolveLocation(g1, 3) == (AddInstruction(g1, Ja(257)), 0);
    assert PlanCompare(JEq, Var(0, 4), Number(129), 3, 259, Low) == Branch(JEq, Var(0, 4), Number(129), 3, 259);
    assert g.code + [Ja(256)] + [Ja(257)] + [Jump(JEq, K, 129, 0, 1)] + [LdAbs(16)] == g.code + LOST_CODE;
  }

  lemma FarExprCompiles()
    ensures IsNormal(FAR_EXPR)
    ensures var (g, next) := GenerateExpr(FRESH, FAR_EXPR, -ALLOW, -KILL);
            && g == BASE.(code := g.code, stale := true) && next == 263
            && |g.code| == 264 && BASE_CODE <= g.code && g.code[260..] == LOST_CODE
  {
    hide GenerateInequality, GenerateEquality;
    BaseCompiles();
    AvoidsCompiles(128);
    var (g, next) := GenerateExpr(BASE, Avoids(128), -ALLOW, 3);
    LastCompiles(g);
    assert Avoids(129) == And(Unequal(129), Avoids(128));
    assert (g.code + LOST_CODE)[260..] == LOST_CODE;
  }

  // ----- the program -----

  const FAR_RULE: RangeRule := RangeRule(0, 0, CONDITIONAL, 1, [Mapping(Some(FAR_EXPR), ALLOW)])

  const FAR_FINAL: seq<RangeRule> :=
    [FAR_RULE.(mappings := [Mapping(Some(FAR_EXPR), ALLOW), Mapping(None, KILL)]), Gap(1, MAX_SYSCALL_NR, KILL)]

  /** The search and the check in front of the condition. */
  function FrontCode(arch: u32): seq<Instr> {
    [Ret(0), Jump(JGe, K, 1, 0, 1), LdAbs(NR_OFFSET), Jump(JEq, K, arch, 0, 2), LdAbs(ARCH_OFFSET)]
  }

  lemma FarPolicyFlattens(args: Args)
    ensures IsPolicy(FAR_POLICY) && Flatten(FAR_POLICY) == [FAR_RULE] && PolicyIsFaithful(FAR_POLICY, 0, args)
  {
    hide FilterIsFaithful, Simplify, IsFilter, IsNormal;
    FarExprIsInOrder(args);
    NormalIsNoConstant(FAR_EXPR);
    var f := Filter(0, Some(FAR_EXPR));
    assert FilterRules(f, ALLOW, 1) == [FAR_RULE];
    assert [f][1..] == [] && [] + [FAR_RULE] == [FAR_RULE];
    assert AddFilters([], ALLOW, [f]) == [FAR_RULE];
    assert FAR_POLICY[0] == Block(ALLOW, [f]) && FAR_POLICY[1..] == [];
    assert AddPolicyRules([], FAR_POLICY) == AddPolicyRules([FAR_RULE], FAR_POLICY[1..]);
  }

  lemma FarNormalizes()
    ensures AreTakenIn([FAR_RULE], 0) && AreClosedOnce([FAR_RULE]) && Normalize([FAR_RULE], KILL) == FAR_FINAL
  {
    hide AvoidsOr;
    assert FAR_RULE.mappings + [Mapping(None, KILL)] == FAR_FINAL[0].mappings;
    assert NormalizeList(FAR_RULE, KILL) == FAR_FINAL[0];
    assert StretchFirst(Steps([FAR_RULE], 1, KILL), KILL).out == [FAR_FINAL[0]];
    assert CountMissing([FAR_RULE], KILL).out == [FAR_FINAL[0]];
    assert WithHead([FAR_FINAL[0]], KILL) == [FAR_FINAL[0]];
  }

  lemma FarPolicyIsCompilable()
    ensures IsCompilable(FAR_POLICY) && IsTakenWhole(FAR_POLICY, 0) && FinalRules(FAR_POLICY, KILL) == FAR_FINAL
  {
    hide IsPolicy, AddPolicyRules, AreTakenIn, AreClosedOnce, Normalize, PolicyIsFaithful;
    FarPolicyFlattens([0, 0, 0, 0, 0, 0]);
    FarNormalizes();
    assert Sorted([FAR_RULE]) == [FAR_RULE] by {
      assert [FAR_RULE][..0] == [];
      assert Insert([], FAR_RULE) == [FAR_RULE];
    }
  }

  lemma FarRuleCompiles()
    ensures IsRule(FAR_FINAL[0])
    ensures GenerateAction(FRESH, FAR_FINAL[0]) == GenerateExpr(FRESH, FAR_EXPR, -ALLOW, -KILL)
  {
    hide GenerateExpr, IsNormal;
    FarExprCompiles();
    var ms := FAR_FINAL[0].mappings;
    assert IsDecisionList(ms) && ms[1..] == [Mapping(None, KILL)];
    assert GenerateMappings(FRESH, ms[1..]) == (FRESH, -KILL);
  }

  /** The search above the condition's code. */
  lemma SearchCompiles(g: Gen, arch: u32)
    requires |g.code| == 264 && g.basic[KILL] == 1
    ensures var (g1, n1) := AddJump(g, JGe, K, 1, -KILL, 263);
            && n1 == g1.Current() == 265
            && CheckArch(AddInstruction(g1, LdAbs(NR_OFFSET)), 266, 266, arch).code == g.code + FrontCode(arch)
            && (g.stale ==> CheckArch(AddInstruction(g1, LdAbs(NR_OFFSET)), 266, 266, arch).stale)
  {
    var g1 := ResolveLocation(g, -KILL).0;
    assert g1.code == g.code + [Ret(0)] && g1.basic[KILL] == 264;
    assert ResolveLocation(g1, 263) == (g1, 1);
    assert ResolveLocation(g1, -KILL) == (g1, 0);
    var (g2, n2) := AddJump(g, JGe, K, 1, -KILL, 263);
    assert g2.code == g1.code + [Jump(JGe, K, 1, 0, 1)] && g2.basic == g1.basic;
    ArchCheckCompiles(AddInstruction(g2, LdAbs(NR_OFFSET)), arch);
    assert g.code + [Ret(0)] + [Jump(JGe, K, 1, 0, 1)] + [LdAbs(NR_OFFSET)] + [Jump(JEq, K, arch, 0, 2)]
           + [LdAbs(ARCH_OFFSET)] == g.code + FrontCode(arch);
  }

  lemma ArchCheckCompiles(g: Gen, arch: u32)
    requires |g.code| == 267 && g.basic[KILL] == 264
    ensures var g' := CheckArch(g, 266, 266, arch);
            && g'.code == g.code + [Jump(JEq, K, arch, 0, 2)] + [LdAbs(ARCH_OFFSET)]
            && (g.stale ==> g'.stale)
  {
    assert ResolveLocation(g, 266) == (g, 0);
    assert ResolveLocation(g, -KILL) == (g, 2);
  }

  /** A search over a rule with this code and a gap behind it. */
  lemma TwoRulesCompile(rules: seq<RangeRule>, g: Gen, arch: u32)
    requires |rules| == 2 && IsRule(rules[0]) && IsRule(rules[1]) && rules[1].action == KILL && rules[1].first == 1
    requires GenerateAction(FRESH, rules[0]) == (g, 263) && |g.code| == 264 && g.basic[KILL] == 1
    ensures var g' := CompileRules(rules, KILL, arch);
            g'.code == g.code + FrontCode(arch) && (g.stale ==> g'.stale)
  {
    hide AddJump, CheckArch, GenerateMappings, IsDecisionList, GenerateRules, FrontCode;
    assert rules[..1] == [rules[0]] && rules[1..] == [rules[1]];
    GenerateRulesUnfolds(FRESH, rules);
    GenerateRulesUnfolds(FRESH, [rules[0]]);
    GenerateRulesUnfolds(g, [rules[1]]);
    SearchCompiles(g, arch);
    assert GenerateRules(FRESH, rules) == AddJump(g, JGe, K, 1, -KILL, 263);
  }

  lemma FarProgram(arch: u32)
    ensures IsCompilable(FAR_POLICY)
    ensures var code := Generated(FAR_POLICY, KILL, arch).code;
            |code| == 269 && BASE_CODE <= code && code[260..264] == LOST_CODE && code[264..] == FrontCode(arch)
    ensures Generated(FAR_POLICY, KILL, arch).stale
  {
    hide GenerateExpr, IsCompilable, IsTakenWhole, FinalRules, IsRule, GenerateAction, CompileRules, AvoidsOr, IsNormal;
    FarPolicyIsCompilable();
    FarExprCompiles();
    FarRuleCompiles();
    GapIsRule();
    var g := GenerateExpr(FRESH, FAR_EXPR, -ALLOW, -KILL).0;
    TwoRulesCompile(FAR_FINAL, g, arch);
    var code := g.code + FrontCode(arch);
    assert Generated(FAR_POLICY, KILL, arch).code == code;
    assert code[260..264] == g.code[260..] && code[264..] == FrontCode(arch);
  }

  lemma GapIsRule()
    ensures IsRule(FAR_FINAL[1])
  {
  }

  /** Past the lost jump `b == 1` is asked whatever `a` is. */
  lemma LostCodeKills(code: seq<Instr>, d: SeccompData)
    requires |code| >= 264 && BASE_CODE <= code && code[260..264] == LOST_CODE
    requires LowWord(d.args[0]) == 0 && LowWord(d.args[1]) == 0
    ensures Exec(code, 263, 0, 0, d) == Some(ActionToBpf(KILL))
  {
    assert code[263] == LOST_CODE[3] && code[262] == LOST_CODE[2] && code[260] == LOST_CODE[0];
    assert code[3] == BASE_CODE[3] && code[2] == BASE_CODE[2] && code[1] == BASE_CODE[1];
    assert LoadWord(d, 24) == Some(0) && LoadWord(d, 16) == Some(0);
    assert Exec(code, 1, 0, 0, d) == Some(0);
    assert Exec(code, 2, 0, 0, d) == Some(0);
    assert Exec(code, 3, 0, 0, d) == Some(0);
    assert Exec(code, 260, 0, 0, d) == Some(0);
    assert Exec(code, 262, 0, 0, d) == Some(0);
  }

  lemma FrontLeadsIn(code: seq<Instr>, arch: u32, d: SeccompData)
    requires |code| == 269 && code[264..] == FrontCode(arch) && d.arch == arch && d.nr == 0
    ensures Exec(code, 268, 0, 0, d) == Exec(code, 263, 0, 0, d)
  {
    hide LoadWord;
    LoadsHeader(d);
    assert code[268] == FrontCode(arch)[4] && code[267] == FrontCode(arch)[3];
    assert code[266] == FrontCode(arch)[2] && code[265] == FrontCode(arch)[1];
    assert Exec(code, 265, 0, 0, d) == Exec(code, 263, 0, 0, d);
    assert Exec(code, 266, arch, 0, d) == Exec(code, 265, 0, 0, d);
    assert Exec(code, 267, arch, 0, d) == Exec(code, 266, arch, 0, d);
  }

  lemma FarDecision(d: SeccompData)
    requires d.nr == 0 && LowWord(d.args[0]) == 0
    ensures IsPolicy(FAR_POLICY) && Decision(FAR_POLICY, KILL, d.nr, d.args) == ALLOW
  {
    hide Holds, IsCondition, HasWidths;
    FarPolicyFlattens(d.args);
    FarExprIsInOrder(d.args);
    var f := Filter(0, Some(FAR_EXPR));
    assert Matches([f][0], 0, d.args);
    assert AnyMatches([f], 0, d.args);
    assert FAR_POLICY[0] == Block(ALLOW, [f]);
  }

  /** With `a` and `b` zero the policy allows syscall 0 and the compiled program kills it: the
      jump on `a != 129` has lost the way to the comparisons behind it. */
  lemma FarTargetIsLost(arch: u32, d: SeccompData)
    requires d.arch == arch && d.nr == 0 && LowWord(d.args[0]) == 0 && LowWord(d.args[1]) == 0
    ensures IsCompilable(FAR_POLICY) && IsTakenWhole(FAR_POLICY, 0) && PolicyIsFaithful(FAR_POLICY, 0, d.args)
    ensures Generated(FAR_POLICY, KILL, arch).stale && Decision(FAR_POLICY, KILL, d.nr, d.args) == ALLOW
    ensures Run(Compile(FAR_POLICY, KILL, arch), 0, 0, 0, d) == Some(ActionToBpf(KILL))
  {
    hide IsCompilable, IsTakenWhole, PolicyIsFaithful, Generated, Decision, Run, Exec;
    FarPolicyIsCompilable();
    FarPolicyFlattens(d.args);
    FarProgram(arch);
    FarDecision(d);
    var code := Generated(FAR_POLICY, KILL, arch).code;
    FrontLeadsIn(code, arch, d);
    LostCodeKills(code, d);
    RunReversed(code, 268, 0, 0, d);
  }
}
