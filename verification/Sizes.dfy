/**
  How long a program can get, so that a policy can be seen to be small before it is compiled.
 */
module Sizes {
  import opened Options
  import opened Words
  import opened Expression
  import opened Wide
  import opened Bpf
  import opened Policy
  import opened RangeRules
  import opened Normalizing
  import opened Coverage
  import opened Closing
  import opened Codegen
  import opened Compiling
  import opened Flattening
  import opened Sorting
  import opened EndToEnd

  const JUMP_SIZE: nat := 4
  const WORD_SIZE: nat := 13
  const COMPARE_SIZE: nat := 30

  // ----- conditions -----

  /** The most instructions a condition takes: those of its comparisons. */
  function ExprSize(e: Expr): (n: nat) {
    match e
    case And(l, r) => ExprSize(l) + ExprSize(r)
    case Or(l, r) => ExprSize(l) + ExprSize(r)
    case _ => COMPARE_SIZE
  }

  lemma JumpIsShort(g: Gen, op: JumpOp, src: Source, k: u32, tloc: int, floc: int)
    requires IsTarget(g.code, tloc) && IsTarget(g.code, floc)
    ensures |AddJump(g, op, src, k, tloc, floc).0.code| <= |g.code| + JUMP_SIZE
  {
    hide ResolveLocation;
  }

  lemma LoadIsShort(g: Gen, e: Expr, w: Word)
    requires IsLoadable(e, w)
    ensures |GenerateLoad(g, e, w).code| <= |g.code| + 4
  {
  }

  lemma WordIsShort(g: Gen, op: JumpOp, l: Expr, r: Expr, tloc: int, floc: int, w: Word, load: Load)
    requires IsSimpleOperand(l) && IsSimpleOperand(r) && IsTarget(g.code, tloc) && IsTarget(g.code, floc)
    ensures |GenerateCmp32(g, op, l, r, tloc, floc, w, load).0.code| <=
            |g.code| + if load.Never? then JUMP_SIZE else WORD_SIZE
  {
    hide AddJump, GenerateLoad, PlanCompare, IsAction;
    var p := PlanCompare(op, l, r, tloc, floc, w);
    if p.Branch? {
      JumpIsShort(g, p.op, X, 0, p.tloc, p.floc);
      if IsConst(p.right, w) {
        JumpIsShort(g, p.op, K, ValueOf(p.right, w), p.tloc, p.floc);
      }
      var g1 := AddBranch(g, p, w).0;
      LoadIsShort(g1, p.left, w);
      if !IsConst(p.right, w) {
        LoadIsShort(AddInstruction(GenerateLoad(g1, p.left, w), Tax), p.right, w);
      }
    }
  }

  lemma CompareIsShort(g: Gen, op: JumpOp, l: Expr, r: Expr, tloc: int, floc: int)
    requires IsSimpleOperand(l) && IsSimpleOperand(r) && IsTarget(g.code, tloc) && IsTarget(g.code, floc)
    ensures |GenerateInequality(g, op, l, r, tloc, floc).0.code| <= |g.code| + COMPARE_SIZE
    ensures |GenerateEquality(g, l, r, tloc, floc).0.code| <= |g.code| + COMPARE_SIZE
  {
    hide GenerateCmp32, IsAction;
    WordIsShort(g, op, l, r, tloc, floc, Low, Normal);
    var (g1, next1) := GenerateCmp32(g, op, l, r, tloc, floc, Low, Normal);
    WordIsShort(g1, JGe, l, r, next1, floc, High, Never);
    var (g2, next2) := GenerateCmp32(g1, JGe, l, r, next1, floc, High, Never);
    WordIsShort(g2, JGt, l, r, tloc, next2, High, if next2 > g1.Current() then Always else Normal);
    WordIsShort(g, JEq, l, r, tloc, floc, Low, Normal);
    var (h1, next) := GenerateCmp32(g, JEq, l, r, tloc, floc, Low, Normal);
    WordIsShort(h1, JEq, l, r, next, floc, High, Normal);
  }

  lemma {:induction false} ExprIsShort(g: Gen, e: Expr, tloc: int, floc: int)
    requires IsNormal(e) && IsTarget(g.code, tloc) && IsTarget(g.code, floc)
    ensures |GenerateExpr(g, e, tloc, floc).0.code| <= |g.code| + ExprSize(e)
    decreases e
  {
    hide GenerateInequality, GenerateEquality, IsAction;
    match e
    case And(l, r) =>
      ExprIsShort(g, r, tloc, floc);
      var (g1, next) := GenerateExpr(g, r, tloc, floc);
      ExprIsShort(g1, l, next, floc);
    case Or(l, r) =>
      ExprIsShort(g, r, tloc, floc);
      var (g1, next) := GenerateExpr(g, r, tloc, floc);
      ExprIsShort(g1, l, tloc, next);
    case Compare(op, l, r) =>
      var jump := if op.Gt? || op.Le? then JGt else JGe;
      CompareIsShort(g, jump, l, r, tloc, floc);
      CompareIsShort(g, jump, l, r, floc, tloc);
  }

  // ----- rules -----

  function ListSize(mappings: seq<Mapping>): (n: nat) {
    if mappings == [] then 0
    else (if mappings[0].condition.Some? then ExprSize(mappings[0].condition.value) else 0) + ListSize(mappings[1..])
  }

  /** The most instructions the conditions of some rules take. */
  function RulesSize(rules: seq<RangeRule>): (n: nat) {
    if rules == [] then 0
    else RulesSize(rules[..|rules| - 1]) + ListSize(rules[|rules| - 1].mappings)
  }

  lemma {:induction false} MappingsAreShort(g: Gen, mappings: seq<Mapping>)
    requires IsDecisionList(mappings)
    ensures |GenerateMappings(g, mappings).0.code| <= |g.code| + ListSize(mappings)
    decreases |mappings|
  {
    hide GenerateExpr, IsAction, IsNormal, ExprSize;
    if |mappings| > 1 {
      assert IsDecisionList(mappings[1..]);
      MappingsAreShort(g, mappings[1..]);
      var (g1, last) := GenerateMappings(g, mappings[1..]);
      PositiveAction(mappings[0].action);
      ExprIsShort(g1, mappings[0].condition.value, -mappings[0].action, last);
    }
  }

  lemma {:induction false} RulesSizeSplits(rules: seq<RangeRule>, mid: nat)
    requires mid <= |rules|
    ensures RulesSize(rules) == RulesSize(rules[..mid]) + RulesSize(rules[mid..])
    decreases |rules|
  {
    hide ListSize;
    if mid == |rules| {
      assert rules[..mid] == rules && rules[mid..] == [];
    } else {
      var k := |rules| - 1;
      RulesSizeSplits(rules[..k], mid);
      assert rules[..k][..mid] == rules[..mid] && rules[..k][mid..] == rules[mid..][..k - mid];
    }
  }

  lemma SingleRuleSize(r: RangeRule)
    ensures RulesSize([r]) == ListSize(r.mappings)
  {
    assert [r][..0] == [] && RulesSize([]) == 0;
  }

  lemma {:induction false} RulesAreShort(g: Gen, rules: seq<RangeRule>)
    requires rules != [] && forall i :: 0 <= i < |rules| ==> IsRule(rules[i])
    ensures |GenerateRules(g, rules).0.code| <= |g.code| + RulesSize(rules) + JUMP_SIZE * (|rules| - 1)
    decreases |rules|
  {
    hide GenerateMappings, AddJump, IsDecisionList, IsAction, ListSize, RulesSize, GenerateRules;
    GenerateRulesUnfolds(g, rules);
    if |rules| == 1 {
      assert rules == [rules[0]];
      SingleRuleSize(rules[0]);
      if rules[0].action == CONDITIONAL {
        MappingsAreShort(g, rules[0].mappings);
      }
    } else {
      var mid := |rules| / 2;
      RulesSizeSplits(rules, mid);
      RulesAreShort(g, rules[..mid]);
      var (g1, lower) := GenerateRules(g, rules[..mid]);
      RulesAreShort(g1, rules[mid..]);
      var (g2, upper) := GenerateRules(g1, rules[mid..]);
      JumpIsShort(g2, JGe, K, rules[mid].first, upper, lower);
    }
  }

  lemma ProgramIsShort(rules: seq<RangeRule>, default: int, arch: u32)
    requires rules != [] && IsAction(default) && forall i :: 0 <= i < |rules| ==> IsRule(rules[i])
    ensures |CompileRules(rules, default, arch).code| <= RulesSize(rules) + JUMP_SIZE * |rules| + 2
  {
    hide GenerateRules, AddJump, IsRule, ResolveLocation, RulesSize;
    RulesAreShort(FRESH, rules);
    PositiveAction(default);
    var (g1, next1) := GenerateRules(FRESH, rules);
    if next1 > -1 {
      var g2 := AddInstruction(g1, LdAbs(NR_OFFSET));
      JumpIsShort(g2, JEq, K, arch, g2.Current(), -KILL);
    } else {
      JumpIsShort(g1, JEq, K, arch, -default, -KILL);
      CollapsedCheck(g1, default, arch);
    }
  }

  /** Either the check has two ways to go, or the action itself is emitted. */
  lemma CollapsedCheck(g: Gen, default: int, arch: u32)
    requires IsAction(default)
    ensures |CheckArch(g, -1, -default, arch).code| <= |AddJump(g, JEq, K, arch, -default, -KILL).0.code| + 1
  {
    hide AddJump, ResolveLocation;
  }

  // ----- normalising and sorting add no conditions -----

  lemma {:induction false} ListSizeAppends(a: seq<Mapping>, b: seq<Mapping>)
    ensures ListSize(a + b) == ListSize(a) + ListSize(b)
    decreases |a|
  {
    hide ExprSize;
    if a == [] {
      assert a + b == b;
    } else {
      assert (a + b)[1..] == a[1..] + b;
      ListSizeAppends(a[1..], b);
    }
  }

  lemma OpenEndIsFree(action: int)
    ensures ListSize([Mapping(None, action)]) == 0
  {
    assert [Mapping(None, action)][1..] == [];
  }

  lemma RulesSizeAppends(rules: seq<RangeRule>, r: RangeRule)
    ensures RulesSize(rules + [r]) == RulesSize(rules) + ListSize(r.mappings)
  {
    hide ListSize;
    assert (rules + [r])[..|rules|] == rules;
  }

  lemma RulesSizeUpdates(rules: seq<RangeRule>, r: RangeRule)
    requires rules != []
    ensures var k := |rules| - 1; RulesSize(rules[k := r]) == RulesSize(rules[..k]) + ListSize(r.mappings)
  {
    hide ListSize;
    assert rules[|rules| - 1 := r][..|rules| - 1] == rules[..|rules| - 1];
  }

  lemma ClosedSize(r: RangeRule, default: int)
    ensures ListSize(NormalizeList(r, default).mappings) == ListSize(r.mappings)
  {
    hide ListSize;
    ListSizeAppends(r.mappings, [Mapping(None, default)]);
    OpenEndIsFree(default);
  }

  lemma MergedSize(prev: RangeRule, cur: RangeRule)
    ensures ListSize(Merge(prev, cur).mappings) <= ListSize(prev.mappings) + ListSize(cur.mappings)
  {
    hide ListSize;
    ListSizeAppends(prev.mappings, [Mapping(None, cur.action)]);
    ListSizeAppends(prev.mappings, cur.mappings);
    OpenEndIsFree(cur.action);
  }

  lemma GapIsFree(first: int, last: int, default: int)
    ensures ListSize(Gap(first, last, default).mappings) == 0
  {
  }

  lemma StepSize(p: Pass, cur: RangeRule, i: nat, default: int)
    requires p.out != []
    ensures RulesSize(Step(p, cur, i, default).out) <= RulesSize(p.out) + ListSize(cur.mappings)
  {
    hide ListSize, RulesSize, Merge, NormalizeList;
    var k := |p.out| - 1;
    var prev := p.out[k];
    RulesSizeUpdates(p.out, prev);
    assert p.out[k := prev] == p.out;
    ClosedSize(cur, default);
    if cur.first == prev.last {
      MergedSize(prev, cur);
      RulesSizeUpdates(p.out, Merge(prev, cur));
    } else if cur.first == prev.last + 1 {
      RulesSizeUpdates(p.out, prev.(last := cur.last));
      RulesSizeAppends(p.out, NormalizeList(cur, default));
    } else if prev.action == default {
      RulesSizeUpdates(p.out, prev.(last := cur.first - 1));
      RulesSizeAppends(p.out[k := prev.(last := cur.first - 1)], NormalizeList(cur, default));
    } else if cur.action == default {
      ClosedSize(cur.(first := prev.last + 1), default);
      RulesSizeAppends(p.out, NormalizeList(cur.(first := prev.last + 1), default));
    } else {
      var gap := Gap(prev.last + 1, cur.first - 1, default);
      GapIsFree(prev.last + 1, cur.first - 1, default);
      RulesSizeAppends(p.out, gap);
      RulesSizeAppends(p.out + [gap], NormalizeList(cur, default));
      RulesSizeAppends(p.out, NormalizeList(cur, default));
      assert p.out + [gap] + [NormalizeList(cur, default)] == p.out + [gap, NormalizeList(cur, default)];
    }
  }

  lemma {:induction false} StepsSize(rules: seq<RangeRule>, i: nat, default: int)
    requires 1 <= i <= |rules|
    ensures RulesSize(Steps(rules, i, default).out) <= RulesSize(rules[..i])
  {
    hide ListSize, RulesSize, Step;
    if i == 1 {
      assert rules[..1] == [rules[0]];
    } else {
      StepsSize(rules, i - 1, default);
      StepSize(Steps(rules, i - 1, default), rules[i - 1], i - 1, default);
      assert rules[..i] == rules[..i - 1] + [rules[i - 1]];
      RulesSizeAppends(rules[..i - 1], rules[i - 1]);
    }
  }

  lemma {:induction false} RulesSizeOfFirst(rules: seq<RangeRule>, r: RangeRule)
    requires rules != [] && ListSize(r.mappings) == ListSize(rules[0].mappings)
    ensures RulesSize(rules[0 := r]) == RulesSize(rules)
    decreases |rules|
  {
    hide ListSize;
    var k := |rules| - 1;
    if k > 0 {
      RulesSizeOfFirst(rules[..k], r);
      assert rules[0 := r][..k] == rules[..k][0 := r];
    }
  }

  lemma CountSize(rules: seq<RangeRule>, default: int)
    requires rules != []
    ensures RulesSize(CountMissing(rules, default).out) <= RulesSize(rules)
  {
    hide ListSize, RulesSize, Steps, NormalizeList;
    StepsSize(rules, |rules|, default);
    assert rules[..|rules|] == rules;
    var p := Steps(rules, |rules|, default);
    ClosedSize(p.out[0], default);
    RulesSizeOfFirst(p.out, NormalizeList(p.out[0], default));
    RulesSizeOfFirst(p.out, NormalizeList(p.out[0], default).(first := 0));
    var q := StretchFirst(p, default);
    var k := |q.out| - 1;
    RulesSizeUpdates(q.out, q.out[k]);
    RulesSizeUpdates(q.out, q.out[k].(last := MAX_SYSCALL_NR));
    assert q.out[k := q.out[k]] == q.out;
  }

  lemma {:induction false} FillSize(out: seq<RangeRule>, default: int)
    requires out != []
    ensures RulesSize(FillBetween(out, default)) == RulesSize(out)
    decreases |out|
  {
    hide ListSize, RulesSize;
    var k := |out| - 1;
    if k > 0 {
      FillSize(out[..k], default);
      var before := FillBetween(out[..k], default);
      var gap := Gap(out[k - 1].last + 1, out[k].first - 1, default);
      GapIsFree(out[k - 1].last + 1, out[k].first - 1, default);
      RulesSizeAppends(before, gap);
      RulesSizeAppends(before + [gap], out[k]);
      RulesSizeAppends(before, out[k]);
      assert before + [] + [out[k]] == before + [out[k]];
      assert out == out[..k] + [out[k]];
      RulesSizeAppends(out[..k], out[k]);
    }
  }

  lemma NormalizeSize(rules: seq<RangeRule>, default: int)
    ensures RulesSize(Normalize(rules, default)) <= RulesSize(rules)
  {
    hide ListSize, RulesSize, CountMissing, FillBetween;
    if rules == [] {
      GapIsFree(0, MAX_SYSCALL_NR, default);
      SingleRuleSize(Gap(0, MAX_SYSCALL_NR, default));
    } else {
      CountSize(rules, default);
      var out := CountMissing(rules, default).out;
      FillSize(out, default);
      HeadSize(out, default);
      var tail := Gap(out[|out| - 1].last + 1, MAX_SYSCALL_NR, default);
      GapIsFree(out[|out| - 1].last + 1, MAX_SYSCALL_NR, default);
      RulesSizeAppends(WithHead(out, default), tail);
    }
  }

  lemma HeadSize(out: seq<RangeRule>, default: int)
    requires out != []
    ensures RulesSize(WithHead(out, default)) == RulesSize(FillBetween(out, default))
  {
    hide ListSize, RulesSize, FillBetween;
    var full := WithHead(out, default);
    if out[0].first != 0 {
      RulesSizeSplits(full, 1);
      assert full[..1] == [Gap(0, out[0].first - 1, default)] && full[1..] == FillBetween(out, default);
      GapIsFree(0, out[0].first - 1, default);
      SingleRuleSize(Gap(0, out[0].first - 1, default));
    } else {
      assert full == FillBetween(out, default);
    }
  }

  lemma {:induction false} InsertSize(rules: seq<RangeRule>, r: RangeRule)
    ensures RulesSize(Insert(rules, r)) == RulesSize(rules) + ListSize(r.mappings)
    decreases |rules|
  {
    hide ListSize, RulesSize, ByNumberAndPriority;
    var k := |rules| - 1;
    RulesSizeAppends(rules, r);
    if k >= 0 {
      InsertSize(rules[..k], r);
      RulesSizeAppends(Insert(rules[..k], r), rules[k]);
      RulesSizeAppends(rules[..k], rules[k]);
      assert rules == rules[..k] + [rules[k]];
    }
  }

  lemma {:induction false} SortedSize(rules: seq<RangeRule>)
    ensures RulesSize(Sorted(rules)) == RulesSize(rules)
    decreases |rules|
  {
    hide ListSize, Insert;
    var k := |rules| - 1;
    if k >= 0 {
      SortedSize(rules[..k]);
      InsertSize(Sorted(rules[..k]), rules[k]);
    }
  }

  // ----- policies -----

  lemma {:induction false} GapsAreFew(out: seq<RangeRule>)
    ensures Gaps(out) <= |out|
    decreases |out|
  {
    if |out| > 1 {
      GapsAreFew(out[..|out| - 1]);
    }
  }

  lemma RulesAreFew(rules: seq<RangeRule>, default: int)
    requires AreSourceRules(rules) && IsAction(default)
    ensures |Normalize(rules, default)| <= 2 * |rules| + 2
  {
    hide AreSourceRules, CountMissing, Gaps, FillBetween, AreLists, AreAllEnded, FirstsIncrease;
    if rules != [] {
      CountIsExact(rules, default);
      var out := CountMissing(rules, default).out;
      GapsAreFew(out);
      AddMissingShape(out, default);
    }
  }

  /** A bound on the length of a policy's program, from its rules as they are flattened. */
  function PolicySize(entries: seq<Entry>): (n: nat) {
    RulesSize(Flatten(entries)) + 2 * JUMP_SIZE * |Flatten(entries)| + 10
  }

  /** The program of a policy is within its bound; if that is 256, no jump in it goes stale. */
  lemma SmallPoliciesAreShort(entries: seq<Entry>, default: int, arch: u32)
    requires IsCompilable(entries) && IsAction(default)
    ensures |Compile(entries, default, arch)| <= PolicySize(entries)
    ensures PolicySize(entries) <= MAX_JUMP + 1 ==> !Generated(entries, default, arch).stale
  {
    hide AddPolicyRules, Sorted, Normalize, RulesSize, IsPolicy, CompileRules, IsRule, AreNumbered, IsAction,
         AreClosedOnce;
    var rules := SourceRules(entries);
    FinalRulesAreRules(entries, default);
    SourceRulesAreSourceRules(entries);
    SortedPermutes(Flatten(entries));
    SameSize(rules, Flatten(entries));
    SortedSize(Flatten(entries));
    NormalizeSize(rules, default);
    RulesAreFew(rules, default);
    ProgramIsShort(FinalRules(entries, default), default, arch);
    ShortProgramsAreNotStale(entries, default, arch);
  }
}
