/**
  Range rules: what a policy is flattened into and what the code generator consumes.
 */
module RangeRules {
  import opened Options
  import opened Expression
  import opened Policy

  const CONDITIONAL: int := -0x8000_0000
  const MAX_SYSCALL_NR: nat := 0xFFFF_FFFF

  /** A condition and the action taken when it holds; no condition always holds. */
  datatype Mapping = Mapping(condition: Option<Expr>, action: int)

  datatype RangeRule = RangeRule(first: int, last: int, action: int, priority: nat, mappings: seq<Mapping>)

  /** Conditions in normal form, each with its action, and an unconditional last action. */
  predicate IsDecisionList(mappings: seq<Mapping>) {
    && mappings != [] && mappings[|mappings| - 1].condition.None?
    && (forall i :: 0 <= i < |mappings| ==> IsAction(mappings[i].action))
    && (forall i :: 0 <= i < |mappings| - 1 ==>
          mappings[i].condition.Some? && IsNormal(mappings[i].condition.value))
  }

  predicate IsRule(rule: RangeRule) {
    && 0 <= rule.first <= MAX_SYSCALL_NR
    && if rule.action == CONDITIONAL then IsDecisionList(rule.mappings) else IsAction(rule.action)
  }

  /** The rules are real rules, in order. */
  predicate AreRules(rules: seq<RangeRule>) {
    && rules != []
    && (forall i :: 0 <= i < |rules| ==> IsRule(rules[i]))
    && FirstsIncrease(rules)
  }

  /** The last rule that begins at or before `nr`, by linear search. */
  function FindRule(rules: seq<RangeRule>, nr: nat): (rule: RangeRule)
    requires rules != []
    ensures rule in rules
  {
    if |rules| == 1 || nr < rules[1].first then rules[0] else FindRule(rules[1..], nr)
  }

  /** The ranges begin at strictly increasing numbers. */
  predicate FirstsIncrease(rules: seq<RangeRule>) {
    forall i, j :: 0 <= i < j < |rules| ==> rules[i].first < rules[j].first
  }

  /** Linear search splits at any rule, as binary search does. */
  lemma {:induction false} FindRuleSplits(rules: seq<RangeRule>, nr: nat, mid: nat)
    requires FirstsIncrease(rules) && 0 < mid < |rules|
    ensures FindRule(rules, nr) ==
            if nr >= rules[mid].first then FindRule(rules[mid..], nr) else FindRule(rules[..mid], nr)
  {
    if mid > 1 {
      if nr >= rules[1].first {
        FindRuleSplits(rules[1..], nr, mid - 1);
        assert rules[1..][mid - 1..] == rules[mid..];
        assert rules[1..][..mid - 1] == rules[..mid][1..];
      } else {
        assert rules[1].first < rules[mid].first || mid == 1;
      }
    } else if nr < rules[1].first {
      assert FindRule(rules[..1], nr) == rules[0];
    }
  }
}
