/**
  Flattening a policy into rules, with every used policy in place, and sorting the rules by
  number without disturbing their order on one number.
 */
module Flattening {
  import opened Options
  import opened Words
  import opened Expression
  import opened Wide
  import opened Policy
  import opened RangeRules
  import opened Normalizing
  import opened Coverage
  import opened Generating
  import opened Overwriting
  import opened Compiling

  // ----- flattening -----

  /** The rule of a filter, if it can ever match. The condition has been simplified when the
      filter was created. */
  function FilterRules(f: Filter, action: int, priority: nat): (r: seq<RangeRule>)
    ensures |r| <= 1
  {
    if f.condition.None? then [RangeRule(f.nr, f.nr, action, priority, [])]
    else
      var c := Simplify(f.condition.value);
      if c.True? then [RangeRule(f.nr, f.nr, action, priority, [])]
      else if c.False? then []
      else [RangeRule(f.nr, f.nr, CONDITIONAL, priority, [Mapping(Some(c), action)])]
  }

  function AddFilters(rules: seq<RangeRule>, action: int, filters: seq<Filter>): (r: seq<RangeRule>)
    decreases |filters|
  {
    if filters == [] then rules
    else AddFilters(rules + FilterRules(filters[0], action, |rules| + 1), action, filters[1..])
  }

  function AddPolicyRules(rules: seq<RangeRule>, entries: seq<Entry>): (r: seq<RangeRule>)
    decreases entries
  {
    if entries == [] then rules
    else
      var more :=
        match entries[0]
        case Use(used) => AddPolicyRules(rules, used)
        case Block(action, filters) => AddFilters(rules, action, filters);
      AddPolicyRules(more, entries[1..])
  }

  function Flatten(entries: seq<Entry>): (rules: seq<RangeRule>) {
    AddPolicyRules([], entries)
  }

  /** Source rules numbered in the order they were added. */
  predicate AreNumbered(rules: seq<RangeRule>) {
    forall i :: 0 <= i < |rules| ==> IsSourceRule(rules[i]) && rules[i].priority == i + 1
  }

  lemma FilterMakesRule(f: Filter, action: int, priority: nat)
    requires IsFilter(f) && IsAction(action)
    ensures forall r :: r in FilterRules(f, action, priority) ==> IsSourceRule(r) && r.priority == priority
  {
    hide Simplify, IsNormal, HasWidths;
    if f.condition.Some? {
      SimplifyShape(f.condition.value);
    }
  }

  lemma SimplifyShape(e: Expr)
    requires IsCondition(e) && HasWidths(e)
    ensures var s := Simplify(e); s.True? || s.False? || IsNormal(s)
  {
    var sizes :| Typed(e, sizes);
    SimplifyReachesNormalForm(e, sizes);
  }

  lemma TypedIsFilter(f: Filter, sizes: seq<nat>)
    requires f.condition.Some? && IsCondition(f.condition.value) && Typed(f.condition.value, sizes)
    ensures IsFilter(f)
  {
  }

  lemma NormalIsNoConstant(e: Expr)
    requires IsNormal(e)
    ensures !e.True? && !e.False?
  {
  }

  lemma {:induction false} AddFiltersNumbers(rules: seq<RangeRule>, action: int, filters: seq<Filter>)
    requires AreNumbered(rules) && IsAction(action) && forall j :: 0 <= j < |filters| ==> IsFilter(filters[j])
    ensures AreNumbered(AddFilters(rules, action, filters))
    decreases |filters|
  {
    hide IsFilter, IsSourceRule, IsAction, FilterRules;
    if filters != [] {
      FilterMakesRule(filters[0], action, |rules| + 1);
      var more := rules + FilterRules(filters[0], action, |rules| + 1);
      assert AreNumbered(more);
      AddFiltersNumbers(more, action, filters[1..]);
    }
  }

  lemma {:induction false} AddPolicyRulesNumbers(rules: seq<RangeRule>, entries: seq<Entry>)
    requires AreNumbered(rules) && IsPolicy(entries)
    ensures AreNumbered(AddPolicyRules(rules, entries))
    decreases entries
  {
    hide IsFilter, IsSourceRule, IsAction, AddFilters, AreNumbered;
    if entries != [] {
      match entries[0]
      case Use(used) =>
        AddPolicyRulesNumbers(rules, used);
        AddPolicyRulesNumbers(AddPolicyRules(rules, used), entries[1..]);
      case Block(action, filters) =>
        AddFiltersNumbers(rules, action, filters);
        AddPolicyRulesNumbers(AddFilters(rules, action, filters), entries[1..]);
    }
  }

  // ----- flattening keeps the decision -----

  /** The compiled code may be trusted with the condition on these arguments: no pair of constants
      misleads, high words of 4-byte arguments do not either, and no right operand is missed. */
  predicate FilterIsFaithful(f: Filter, args: Args) {
    f.condition.Some? ==>
      var s := Simplify(f.condition.value);
      FoldsSoundly(f.condition.value) && (IsNormal(s) ==> TellsThroughout(s, args) && ReadsRightThroughout(s))
  }

  /** So may it with every filter on number `nr`, wherever that is in the policy. */
  predicate PolicyIsFaithful(entries: seq<Entry>, nr: u32, args: Args)
    decreases entries
  {
    forall i :: 0 <= i < |entries| ==>
      match entries[i]
      case Use(used) => PolicyIsFaithful(used, nr, args)
      case Block(_, filters) =>
        forall j :: 0 <= j < |filters| && filters[j].nr == nr ==> FilterIsFaithful(filters[j], args)
  }

  /** The action of a rule on these arguments, if it matches. */
  function RuleMatch(rule: RangeRule, nr: u32, args: Args): (r: Option<int>)
    requires IsSourceRule(rule)
  {
    if rule.first != nr then None
    else if rule.action != CONDITIONAL then Some(rule.action)
    else if CodeHolds(rule.mappings[0].condition.value, args) then Some(rule.mappings[0].action)
    else None
  }

  /** The action of the first matching rule. */
  function FlatMatch(rules: seq<RangeRule>, nr: u32, args: Args): (r: Option<int>)
    requires forall i :: 0 <= i < |rules| ==> IsSourceRule(rules[i])
  {
    if rules == [] then None
    else
      var k := |rules| - 1;
      var before := FlatMatch(rules[..k], nr, args);
      if before.Some? then before else RuleMatch(rules[k], nr, args)
  }

  function OrElse<T>(a: Option<T>, b: Option<T>): Option<T> {
    if a.Some? then a else b
  }

  lemma FlatMatchAppend(rules: seq<RangeRule>, r: RangeRule, nr: u32, args: Args)
    requires forall i :: 0 <= i < |rules| ==> IsSourceRule(rules[i])
    requires IsSourceRule(r)
    ensures FlatMatch(rules + [r], nr, args) == OrElse(FlatMatch(rules, nr, args), RuleMatch(r, nr, args))
  {
    assert (rules + [r])[..|rules|] == rules;
  }

  /** Simplified and compiled, a faithful condition still means what it says. */
  lemma ConditionIsFaithful(f: Filter, args: Args)
    requires IsFilter(f) && f.condition.Some? && FilterIsFaithful(f, args)
    ensures var (e, s) := (f.condition.value, Simplify(f.condition.value));
            && (s.True? ==> Holds(e, args)) && (s.False? ==> !Holds(e, args))
            && (!s.True? && !s.False? ==> IsNormal(s) && CodeHolds(s, args) == Holds(e, args))
  {
    hide Simplify, FoldsSoundly, TellsThroughout, ReadsRightThroughout;
    var e := f.condition.value;
    SimplifyShape(e);
    var sizes :| Typed(e, sizes);
    SimplifyKeepsMeaning(e, args, sizes);
    var s := Simplify(e);
    if !s.True? && !s.False? {
      NormalIsCondition(s);
      CodeMeaning(s, args);
      CompiledMeaning(s, args);
    }
  }

  lemma FilterKeepsMatch(rules: seq<RangeRule>, f: Filter, action: int, nr: u32, args: Args)
    requires AreNumbered(rules) && IsFilter(f) && IsAction(action) && (f.nr == nr ==> FilterIsFaithful(f, args))
    ensures var more := rules + FilterRules(f, action, |rules| + 1);
            && AreNumbered(more)
            && FlatMatch(more, nr, args) ==
               OrElse(FlatMatch(rules, nr, args), if Matches(f, nr, args) then Some(action) else None)
  {
    hide Simplify, IsNormal, HasWidths, FlatMatch, CodeHolds, Holds, FilterIsFaithful;
    FilterMakesRule(f, action, |rules| + 1);
    var added := FilterRules(f, action, |rules| + 1);
    if f.condition.Some? && f.nr == nr {
      ConditionIsFaithful(f, args);
    }
    if added == [] {
      assert rules + added == rules;
    } else {
      assert added == [added[0]];
      FlatMatchAppend(rules, added[0], nr, args);
    }
  }

  lemma AnyMatchesUnfolds(filters: seq<Filter>, nr: u32, args: Args)
    requires filters != [] && forall j :: 0 <= j < |filters| ==> IsFilter(filters[j])
    ensures AnyMatches(filters, nr, args) == (Matches(filters[0], nr, args) || AnyMatches(filters[1..], nr, args))
  {
    hide IsFilter, Matches;
    if AnyMatches(filters, nr, args) && !Matches(filters[0], nr, args) {
      var j :| 0 <= j < |filters| && Matches(filters[j], nr, args);
      assert Matches(filters[1..][j - 1], nr, args);
    }
    if AnyMatches(filters[1..], nr, args) {
      var j :| 0 <= j < |filters[1..]| && Matches(filters[1..][j], nr, args);
      assert Matches(filters[j + 1], nr, args);
    }
  }

  lemma {:induction false} AddFiltersKeepsMatch(rules: seq<RangeRule>, action: int, filters: seq<Filter>, nr: u32,
                                                args: Args)
    requires AreNumbered(rules) && IsAction(action)
    requires forall j :: 0 <= j < |filters| ==> IsFilter(filters[j])
    requires forall j :: 0 <= j < |filters| && filters[j].nr == nr ==> FilterIsFaithful(filters[j], args)
    ensures var more := AddFilters(rules, action, filters);
            && AreNumbered(more)
            && FlatMatch(more, nr, args) ==
               OrElse(FlatMatch(rules, nr, args), if AnyMatches(filters, nr, args) then Some(action) else None)
    decreases |filters|
  {
    hide IsSourceRule, IsAction, FilterRules, FlatMatch, FilterIsFaithful, Matches;
    if filters != [] {
      FilterKeepsMatch(rules, filters[0], action, nr, args);
      AddFiltersKeepsMatch(rules + FilterRules(filters[0], action, |rules| + 1), action, filters[1..], nr, args);
      AnyMatchesUnfolds(filters, nr, args);
    }
  }

  /** Flattening keeps the decision: the first matching rule carries the action of the first
      matching filter, with used policies in place. */
  lemma {:induction false} AddPolicyRulesKeepsMatch(rules: seq<RangeRule>, entries: seq<Entry>, nr: u32, args: Args)
    requires AreNumbered(rules) && IsPolicy(entries) && PolicyIsFaithful(entries, nr, args)
    ensures var more := AddPolicyRules(rules, entries);
            && AreNumbered(more)
            && FlatMatch(more, nr, args) == OrElse(FlatMatch(rules, nr, args), FirstMatch(entries, nr, args))
    decreases entries
  {
    hide IsFilter, IsSourceRule, IsAction, AddFilters, FlatMatch, FilterIsFaithful, AnyMatches;
    if entries != [] {
      match entries[0]
      case Use(used) =>
        AddPolicyRulesKeepsMatch(rules, used, nr, args);
        AddPolicyRulesKeepsMatch(AddPolicyRules(rules, used), entries[1..], nr, args);
      case Block(action, filters) =>
        AddFiltersKeepsMatch(rules, action, filters, nr, args);
        AddPolicyRulesKeepsMatch(AddFilters(rules, action, filters), entries[1..], nr, args);
    }
  }

  // ----- from matching rules to lists of conditions -----

  /** The action of the first condition that holds, in a list that need not be closed. */
  function MatchIn(mappings: seq<Mapping>, args: Args): (r: Option<int>)
    requires forall i :: 0 <= i < |mappings| && mappings[i].condition.Some? ==> IsNormal(mappings[i].condition.value)
  {
    if mappings == [] then None
    else if mappings[0].condition.None? || CodeHolds(mappings[0].condition.value, args) then Some(mappings[0].action)
    else MatchIn(mappings[1..], args)
  }

  lemma {:induction false} MatchInAppend(mappings: seq<Mapping>, m: Mapping, args: Args)
    requires forall i :: 0 <= i < |mappings| && mappings[i].condition.Some? ==> IsNormal(mappings[i].condition.value)
    requires m.condition.Some? ==> IsNormal(m.condition.value)
    ensures MatchIn(mappings + [m], args) ==
            OrElse(MatchIn(mappings, args),
                   if m.condition.None? || CodeHolds(m.condition.value, args) then Some(m.action) else None)
    decreases |mappings|
  {
    hide IsNormal, CodeHolds;
    if mappings != [] {
      MatchInAppend(mappings[1..], m, args);
      assert (mappings + [m])[1..] == mappings[1..] + [m];
    } else {
      assert mappings + [m] == [m] && [m][1..] == [];
    }
  }

  lemma {:induction false} EndedMatches(mappings: seq<Mapping>, args: Args)
    requires forall i :: 0 <= i < |mappings| && mappings[i].condition.Some? ==> IsNormal(mappings[i].condition.value)
    requires IsEnded(mappings)
    ensures MatchIn(mappings, args).Some?
    decreases |mappings|
  {
    hide IsNormal, CodeHolds;
    if |mappings| > 1 {
      EndedMatches(mappings[1..], args);
    }
  }

  lemma {:induction false} ListDecisionIsMatch(mappings: seq<Mapping>, args: Args)
    requires IsDecisionList(mappings)
    ensures MatchIn(mappings, args) == Some(ListDecision(mappings, args))
    decreases |mappings|
  {
    hide IsNormal, CodeHolds, IsAction;
    if |mappings| > 1 {
      assert IsDecisionList(mappings[1..]);
      ListDecisionIsMatch(mappings[1..], args);
    }
  }

  lemma {:induction false} SequenceMatch(rules: seq<RangeRule>, nr: u32, args: Args)
    requires forall i :: 0 <= i < |rules| ==> IsSourceRule(rules[i])
    ensures var s := Sequence(rules, nr);
            && (forall i :: 0 <= i < |s| && s[i].condition.Some? ==> IsNormal(s[i].condition.value))
            && MatchIn(s, args) == FlatMatch(rules, nr, args)
  {
    hide IsNormal, CodeHolds, IsAction, MatchIn;
    SequenceShape(rules, nr);
    if rules != [] {
      var k := |rules| - 1;
      SequenceMatch(rules[..k], nr, args);
      SequenceShape(rules[..k], nr);
      var before := Sequence(rules[..k], nr);
      assert IsSourceRule(rules[k]);
      if rules[k].first == nr {
        if IsEnded(before) {
          EndedMatches(before, args);
        } else {
          MatchInAppend(before, MappingOf(rules[k]), args);
        }
      }
    } else {
      EmptyMatch(args);
    }
  }

  lemma EmptyMatch(args: Args)
    ensures MatchIn([], args) == None
  {
  }

  /** What the rules prescribe for a number decides as the first matching rule does. */
  lemma PrescribedDecides(rules: seq<RangeRule>, default: int, nr: u32, args: Args)
    requires forall i :: 0 <= i < |rules| ==> IsSourceRule(rules[i])
    requires IsAction(default)
    ensures IsDecisionList(Prescribed(rules, nr, default))
    ensures OrElse(FlatMatch(rules, nr, args), Some(default)) ==
            Some(ListDecision(Prescribed(rules, nr, default), args))
  {
    hide IsNormal, CodeHolds, IsAction, MatchIn, FlatMatch, Sequence, IsSourceRule, ListDecision;
    SequenceIsList(rules, nr, default);
    SequenceMatch(rules, nr, args);
    var s := Sequence(rules, nr);
    ListDecisionIsMatch(Prescribed(rules, nr, default), args);
    if IsEnded(s) {
      EndedMatches(s, args);
    } else {
      MatchInAppend(s, Mapping(None, default), args);
    }
  }
}
