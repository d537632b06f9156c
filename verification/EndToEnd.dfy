/**
  The compiler as a whole: flatten, sort, normalise, generate, reverse. The finished program
  returns the policy's decision.
 */
module EndToEnd {
  import opened FiniteSets
  import opened Options
  import opened Words
  import opened Expression
  import opened Bpf
  import opened Policy
  import opened RangeRules
  import opened Normalizing
  import opened Coverage
  import opened Closing
  import opened Codegen
  import opened Resolving
  import opened Compiling
  import opened Flattening
  import opened Sorting

  /** The policy's rules in the order in which they are normalised. */
  function SourceRules(entries: seq<Entry>): (rules: seq<RangeRule>) {
    Sorted(Flatten(entries))
  }

  /** The rules the code generator works on. */
  function FinalRules(entries: seq<Entry>, default: int): (rules: seq<RangeRule>) {
    Normalize(SourceRules(entries), default)
  }

  /** A policy that is parsed into proper entries and on which the code generator does not stop. */
  ghost predicate IsCompilable(entries: seq<Entry>) {
    IsPolicy(entries) && AreClosedOnce(SourceRules(entries))
  }

  /** All rules of the policy on number `nr` are taken in. */
  ghost predicate IsTakenWhole(entries: seq<Entry>, nr: int) {
    AreTakenIn(SourceRules(entries), nr)
  }

  lemma SourceRulesAreSourceRules(entries: seq<Entry>)
    requires IsPolicy(entries)
    ensures AreNumbered(Flatten(entries)) && AreSourceRules(SourceRules(entries))
  {
    hide AreNumbered, AddPolicyRules, AreSourceRules, Sorted;
    assert AreNumbered([]) by { NothingIsNumbered(); }
    AddPolicyRulesNumbers([], entries);
    SortedAreSourceRules(Flatten(entries));
  }

  lemma NothingIsNumbered()
    ensures AreNumbered([])
  {
  }

  lemma FinalRulesAreRules(entries: seq<Entry>, default: int)
    requires IsCompilable(entries) && IsAction(default)
    ensures AreRules(FinalRules(entries, default)) && FinalRules(entries, default)[0].first == 0
  {
    hide IsPolicy, AreClosedOnce, AreSourceRules, Normalize, SourceRules, AreRules;
    SourceRulesAreSourceRules(entries);
    NormalizeMakesRules(SourceRules(entries), default);
  }

  // ----- the rules decide as the policy does -----

  lemma RuleDecidesItsList(rule: RangeRule, default: int, args: Args)
    requires IsRule(rule) && IsDecisionList(Effective(rule, default))
    ensures RuleDecision(rule, args) == ListDecision(Effective(rule, default), args)
  {
  }

  /** Searching the final rules for a number gives the decision of the policy. */
  lemma FinalRulesDecide(entries: seq<Entry>, default: int, nr: u32, args: Args)
    requires IsCompilable(entries) && IsAction(default) && IsTakenWhole(entries, nr) &&
             PolicyIsFaithful(entries, nr, args)
    ensures AreRules(FinalRules(entries, default))
    ensures RuleDecision(FindRule(FinalRules(entries, default), nr), args) == Decision(entries, default, nr, args)
  {
    hide IsPolicy, AreTakenIn, AreClosedOnce, AreSourceRules, IsRule, IsSourceRule, PolicyIsFaithful, IsAction,
         RuleDecision, ListDecision, Sorted, Normalize, AddPolicyRules, FlatMatch, FirstMatch, Sequence, FindRule,
         Effective;
    var flat := Flatten(entries);
    var rules := SourceRules(entries);
    SourceRulesAreSourceRules(entries);
    FinalRulesAreRules(entries, default);
    NormalizeKeepsLists(rules, default, nr);
    SortedKeepsSequence(flat, nr);
    var rule := FindRule(FinalRules(entries, default), nr);
    PrescribedDecides(flat, default, nr, args);
    RuleDecidesItsList(rule, default, args);
    NothingIsNumbered();
    AddPolicyRulesKeepsMatch([], entries, nr, args);
    NothingMatches(nr, args);
  }

  lemma NothingMatches(nr: u32, args: Args)
    ensures FlatMatch([], nr, args) == None
  {
  }

  // ----- some number is left to the default -----

  /** A policy with fewer than 2^32 rules leaves some number unnamed. */
  lemma SomeNumberIsUnnamed(rules: seq<RangeRule>) returns (n: nat)
    requires |rules| <= MAX_SYSCALL_NR
    ensures n <= MAX_SYSCALL_NR && forall i :: 0 <= i < |rules| ==> rules[i].first != n
  {
    var named := Firsts(rules);
    var all := Interval(0, MAX_SYSCALL_NR + 1);
    if all <= named {
      SubsetSize(all, named);
    }
    assert exists m :: m in all && m !in named;
    n :| n in all && n !in named;
  }

  function Firsts(rules: seq<RangeRule>): (s: set<int>)
    ensures |s| <= |rules|
    ensures forall i :: 0 <= i < |rules| ==> rules[i].first in s
  {
    if rules == [] then {}
    else
      assert rules == rules[..|rules| - 1] + [rules[|rules| - 1]];
      Firsts(rules[..|rules| - 1]) + {rules[|rules| - 1].first}
  }

  // ----- the whole compiler -----

  /** The generator's state when the policy has been compiled. */
  function Generated(entries: seq<Entry>, default: int, arch: u32): (g: Gen)
    requires IsCompilable(entries) && IsAction(default)
  {
    FinalRulesAreRules(entries, default);
    CompileRules(FinalRules(entries, default), default, arch)
  }

  function Compile(entries: seq<Entry>, default: int, arch: u32): (prog: seq<Instr>)
    requires IsCompilable(entries) && IsAction(default)
  {
    Reversed(Generated(entries, default, arch).code)
  }

  /** The program is entered where the search begins; see `HasEntry`. */
  predicate IsEnteredProperly(entries: seq<Entry>, default: int)
    requires IsCompilable(entries) && IsAction(default)
  {
    FinalRulesAreRules(entries, default);
    HasEntry(FinalRules(entries, default), default)
  }

  lemma SomeNumberTakesDefault(entries: seq<Entry>, default: int) returns (n: u32)
    requires IsCompilable(entries) && IsAction(default) && |Flatten(entries)| <= MAX_SYSCALL_NR
    ensures FindRule(FinalRules(entries, default), n).action == default
  {
    hide IsPolicy, AreClosedOnce, AreSourceRules, Normalize, AddPolicyRules, Sorted, AreNumbered, FindRule;
    SourceRulesAreSourceRules(entries);
    SortedPermutes(Flatten(entries));
    SameSize(SourceRules(entries), Flatten(entries));
    n := SomeNumberIsUnnamed(SourceRules(entries));
    UnnamedTakesDefault(SourceRules(entries), default, n);
  }

  /** A policy that decides anything but KILL on some input is entered properly: the search for it
      does not collapse. */
  lemma DecisionGivesEntry(entries: seq<Entry>, default: int, arch: u32, nr: u32, args: Args)
    requires IsCompilable(entries) && IsAction(default) && |Flatten(entries)| <= MAX_SYSCALL_NR
    requires IsTakenWhole(entries, nr) && PolicyIsFaithful(entries, nr, args)
    requires Decision(entries, default, nr, args) != KILL && !Generated(entries, default, arch).stale
    ensures IsEnteredProperly(entries, default)
  {
    hide IsPolicy, AreTakenIn, AreClosedOnce, PolicyIsFaithful, CompileRules, Decision, FindRule, Normalize,
         AddPolicyRules, Sorted, IsRule, GenerateRules;
    var rules := FinalRules(entries, default);
    FinalRulesAreRules(entries, default);
    FinalRulesDecide(entries, default, nr, args);
    var n := SomeNumberTakesDefault(entries, default);
    CompileRemembers(rules, default, arch);
    DecisionKeepsSearch(rules, default, SeccompData(nr, arch, 0, args), n);
  }

  /** Every compiled policy halts at a return on every input, and is never empty. */
  lemma CompiledPolicyHalts(entries: seq<Entry>, default: int, arch: u32, d: SeccompData)
    requires IsCompilable(entries) && IsAction(default)
    ensures Compile(entries, default, arch) != []
    ensures Run(Compile(entries, default, arch), 0, 0, 0, d).Some?
  {
    hide IsPolicy, AreTakenIn, AreClosedOnce, IsRule, IsAction, FinalRules, CompileRules, Run;
    FinalRulesAreRules(entries, default);
    ProgramIsClosed(FinalRules(entries, default), default, arch);
    ProgramHalts(FinalRules(entries, default), default, arch, d);
  }

  /** A program of at most 256 instructions has no stale offset. */
  lemma ShortProgramsAreNotStale(entries: seq<Entry>, default: int, arch: u32)
    requires IsCompilable(entries) && IsAction(default)
    ensures |Compile(entries, default, arch)| <= MAX_JUMP + 1 ==> !Generated(entries, default, arch).stale
  {
    hide IsPolicy, AreTakenIn, AreClosedOnce, IsRule, IsAction, FinalRules, CompileRules, IsAnchored, IsClosed;
    FinalRulesAreRules(entries, default);
    ProgramIsClosed(FinalRules(entries, default), default, arch);
  }

  /** The finished program returns KILL on a foreign architecture, otherwise the action of the
      first matching filter with used policies in place, otherwise the default action. */
  lemma CompiledPolicyDecides(entries: seq<Entry>, default: int, arch: u32, d: SeccompData)
    requires IsCompilable(entries) && IsAction(default)
    requires IsTakenWhole(entries, d.nr) && PolicyIsFaithful(entries, d.nr, d.args)
    requires IsEnteredProperly(entries, default) && |Flatten(entries)| <= MAX_SYSCALL_NR
    requires !Generated(entries, default, arch).stale
    ensures IsAction(Decision(entries, default, d.nr, d.args))
    ensures Run(Compile(entries, default, arch), 0, 0, 0, d) ==
            Some(ActionToBpf(if d.arch == arch then Decision(entries, default, d.nr, d.args) else KILL))
  {
    hide IsPolicy, AreTakenIn, AreClosedOnce, AreRules, IsSourceRule, IsRule, PolicyIsFaithful, CompileRules,
         HasEntry, Decision, Run, ActionToBpf, FindRule, Normalize, AddPolicyRules, Sorted, AreNumbered;
    var rules := FinalRules(entries, default);
    FinalRulesAreRules(entries, default);
    FinalRulesDecide(entries, default, d.nr, d.args);
    var n := SomeNumberTakesDefault(entries, default);
    ProgramDecides(rules, default, arch, d, n);
  }
}
