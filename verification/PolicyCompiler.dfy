/**
  The compiler's entry point, from a policy to a finished program.
 */
module PolicyCompiler {
  import opened Options
  import opened Words
  import opened Bpf
  import opened Policy
  import opened RangeRules
  import opened Normalizing
  import opened Coverage
  import opened Closing
  import opened Codegen
  import opened Compiling
  import opened Flattening
  import opened Sorting
  import opened EndToEnd
  import opened Entering
  import opened Sizes
  import opened RangeRuleTable
  import opened CodeGenerator

  /** The generator never reads the last number of a range. */
  lemma {:induction false} GenerateIgnoresLast(g: Gen, a: seq<RangeRule>, b: seq<RangeRule>)
    requires a != [] && AllSameButLast(a, b) && forall i :: 0 <= i < |a| ==> IsRule(a[i]) && IsRule(b[i])
    ensures GenerateRules(g, a) == GenerateRules(g, b)
    decreases |a|
  {
    hide GenerateRules, IsDecisionList, GenerateMappings, AddJump;
    GenerateRulesUnfolds(g, a);
    GenerateRulesUnfolds(g, b);
    if |a| > 1 {
      var mid := |a| / 2;
      GenerateIgnoresLast(g, a[..mid], b[..mid]);
      GenerateIgnoresLast(GenerateRules(g, a[..mid]).0, a[mid..], b[mid..]);
    }
  }

  lemma CompileIgnoresLast(a: seq<RangeRule>, b: seq<RangeRule>, default: int, arch: u32)
    requires b != [] && AllSameButLast(a, b) && IsAction(default)
    requires forall i :: 0 <= i < |b| ==> IsRule(b[i])
    ensures forall i :: 0 <= i < |a| ==> IsRule(a[i])
    ensures CompileRules(a, default, arch) == CompileRules(b, default, arch)
  {
    hide GenerateRules, IsDecisionList, IsAction, CheckArch;
    GenerateIgnoresLast(FRESH, a, b);
  }

  /** An unset default action means KILL. */
  function EffectiveDefault(action: int): (default: int) {
    if action == 0 then KILL else action
  }

  /** Everything the program's answer on `d` depends on being in order. */
  ghost predicate IsCovered(entries: seq<Entry>, default: int, arch: u32, d: SeccompData)
    requires IsCompilable(entries) && IsAction(default)
  {
    && IsTakenWhole(entries, d.nr) && PolicyIsFaithful(entries, d.nr, d.args)
    && IsEnteredProperly(entries, default) && |Flatten(entries)| <= MAX_SYSCALL_NR
    && !Generated(entries, default, arch).stale
  }

  /** The answer the policy calls for. */
  ghost function Answer(entries: seq<Entry>, default: int, arch: u32, d: SeccompData): (r: Option<u32>)
    requires IsPolicy(entries)
  {
    var action := if d.arch == arch then Decision(entries, default, d.nr, d.args) else KILL;
    if IsAction(action) then Some(ActionToBpf(action)) else None
  }

  /** Compile a policy. The program always halts at a return, and it gives the policy's answer
      wherever the provisos hold. */
  method CompilePolicy(entries: seq<Entry>, defaultAction: int, arch: u32) returns (prog: seq<Instr>)
    requires IsCompilable(entries) && IsAction(EffectiveDefault(defaultAction))
    ensures prog == Compile(entries, EffectiveDefault(defaultAction), arch) && prog != []
    ensures forall d: SeccompData :: Run(prog, 0, 0, 0, d).Some?
    ensures forall d: SeccompData :: IsCovered(entries, EffectiveDefault(defaultAction), arch, d) ==>
              Run(prog, 0, 0, 0, d) == Answer(entries, EffectiveDefault(defaultAction), arch, d)
  {
    hide IsPolicy, AreTakenIn, AreClosedOnce, AreRules, IsRule, Run, Answer, IsCovered, AllSameButLast, AreNumbered,
         IsAction, CompileRules, Sorted, Normalize, AddPolicyRules;
    var default := EffectiveDefault(defaultAction);
    var table := new Table();
    table.AddPolicyRules(entries);
    SourceRulesAreSourceRules(entries);
    table.NormalizeRules(default);
    FinalRulesAreRules(entries, default);
    TableIsProper(table.data[..table.len], entries, default, arch);
    prog := GenerateProgram(table.data[..table.len], default, arch);
    forall d: SeccompData ensures Run(prog, 0, 0, 0, d).Some? {
      CompiledPolicyHalts(entries, default, arch, d);
    }
    CompiledPolicyHalts(entries, default, arch, SeccompData(0, 0, 0, [0, 0, 0, 0, 0, 0]));
    forall d: SeccompData | IsCovered(entries, default, arch, d)
      ensures Run(prog, 0, 0, 0, d) == Answer(entries, default, arch, d)
    {
      CoveredAnswers(entries, default, arch, d);
    }
  }

  lemma TableIsProper(rules: seq<RangeRule>, entries: seq<Entry>, default: int, arch: u32)
    requires IsCompilable(entries) && IsAction(default) && AllSameButLast(rules, FinalRules(entries, default))
    ensures rules != [] && forall i :: 0 <= i < |rules| ==> IsRule(rules[i])
    ensures Reversed(CompileRules(rules, default, arch).code) == Compile(entries, default, arch)
  {
    hide IsPolicy, AreTakenIn, AreClosedOnce, IsRule, IsAction, CompileRules, SameButLast, FinalRules;
    FinalRulesAreRules(entries, default);
    CompileIgnoresLast(rules, FinalRules(entries, default), default, arch);
  }

  lemma CoveredAnswers(entries: seq<Entry>, default: int, arch: u32, d: SeccompData)
    requires IsCompilable(entries) && IsAction(default) && IsCovered(entries, default, arch, d)
    ensures Run(Compile(entries, default, arch), 0, 0, 0, d) == Answer(entries, default, arch, d)
  {
    hide IsPolicy, AreTakenIn, AreClosedOnce, Run, Decision, PolicyIsFaithful, IsEnteredProperly, Generated, Compile,
         Flatten;
    CompiledPolicyDecides(entries, default, arch, d);
  }

  /** A checkable case. If a policy is small and decides anything but KILL by default or on some
      input `w`, or has no condition, its program gives its answer on every input on whose number
      all rules are taken in and on which the conditions of that number mislead nobody. */
  lemma SmallPoliciesAnswer(entries: seq<Entry>, default: int, arch: u32, w: SeccompData, d: SeccompData)
    requires IsCompilable(entries) && IsAction(default) && |Flatten(entries)| <= MAX_SYSCALL_NR
    requires |Compile(entries, default, arch)| <= MAX_JUMP + 1 || PolicySize(entries) <= MAX_JUMP + 1
    requires || default != KILL
             || ArePlain(Flatten(entries))
             || (IsTakenWhole(entries, w.nr) && PolicyIsFaithful(entries, w.nr, w.args) &&
                 Decision(entries, default, w.nr, w.args) != KILL)
    requires IsTakenWhole(entries, d.nr) && PolicyIsFaithful(entries, d.nr, d.args)
    ensures Run(Compile(entries, default, arch), 0, 0, 0, d) == Answer(entries, default, arch, d)
  {
    hide IsPolicy, AreTakenIn, AreClosedOnce, Run, Decision, PolicyIsFaithful, Generated, Compile, Flatten,
         FinalRules, Answer, ArePlain, PolicySize;
    ShortProgramsAreNotStale(entries, default, arch);
    SmallPoliciesAreShort(entries, default, arch);
    PoliciesAreEntered(entries, default, arch, w.nr, w.args);
    CoveredAnswers(entries, default, arch, d);
  }
}
