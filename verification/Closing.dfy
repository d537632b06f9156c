/**
  When the normalised rules are rules the code generator accepts. A list of conditions must be
  closed once; closing it again puts an entry without a condition before the last, on which the
  generator stops.
 */
module Closing {
  import opened Options
  import opened Expression
  import opened Policy
  import opened RangeRules
  import opened Normalizing
  import opened Coverage

  /** The `i`-th rule closes no list that is closed already. */
  predicate IsClosedOnce(rules: seq<RangeRule>, i: nat)
    requires i < |rules|
  {
    || Leader(rules, i) == i
    || rules[Leader(rules, i)].action != CONDITIONAL
    || rules[i].action == CONDITIONAL
    || (rules[i].first == rules[0].first && forall k :: 0 <= k < i ==> rules[k].action == CONDITIONAL)
  }

  predicate AreClosedOnce(rules: seq<RangeRule>) {
    forall i :: 0 <= i < |rules| ==> IsClosedOnce(rules, i)
  }

  /** Conditions, and at most one entry without, which is the last. */
  predicate IsProperList(m: seq<Mapping>) {
    && (forall i :: 0 <= i < |m| ==> IsAction(m[i].action) && (m[i].condition.Some? ==> IsNormal(m[i].condition.value)))
    && (forall i :: 0 <= i < |m| - 1 ==> m[i].condition.Some?)
  }

  predicate AreProper(out: seq<RangeRule>) {
    forall k :: 0 <= k < |out| && out[k].action == CONDITIONAL ==> IsProperList(out[k].mappings)
  }

  /** An entry without a condition comes before the last. */
  predicate IsBroken(r: RangeRule) {
    r.action == CONDITIONAL && exists j :: 0 <= j < |r.mappings| - 1 && r.mappings[j].condition.None?
  }

  /** The newest range is conditional if the first rule on its number is; a single one is closed
      if some rule so far is unconditional. */
  ghost predicate IsTip(rules: seq<RangeRule>, i: nat, out: seq<RangeRule>)
    requires 1 <= i <= |rules| && out != []
  {
    var tip := out[|out| - 1];
    && (tip.action == CONDITIONAL <==> rules[Leader(rules, i - 1)].action == CONDITIONAL)
    && (|out| > 1 ==> rules[i - 1].first != rules[0].first)
    && (|out| == 1 && tip.action == CONDITIONAL ==>
          && rules[i - 1].first == rules[0].first
          && (IsEnded(tip.mappings) <==> exists k :: 0 <= k < i && rules[k].action != CONDITIONAL))
  }

  lemma TipMerges(rules: seq<RangeRule>, i: nat, p: Pass, default: int)
    requires AreSourceRules(rules) && 0 < i < |rules| && p.out != [] && p.out[|p.out| - 1].last == rules[i - 1].first
    requires IsTip(rules, i, p.out) && AreLists(p.out) && rules[i].first == rules[i - 1].first
    ensures IsTip(rules, i + 1, Step(p, rules[i], i, default).out)
  {
    hide IsNormal, IsAction;
    assert IsSourceRule(rules[i]) && Leader(rules, i) == Leader(rules, i - 1);
    var tip := p.out[|p.out| - 1];
    if |p.out| == 1 && tip.action == CONDITIONAL {
      assert (exists k :: 0 <= k < i + 1 && rules[k].action != CONDITIONAL) <==>
             (exists k :: 0 <= k < i && rules[k].action != CONDITIONAL) || rules[i].action != CONDITIONAL;
    }
  }

  lemma TipGoesOn(rules: seq<RangeRule>, i: nat, p: Pass, default: int)
    requires AreSourceRules(rules) && IsAction(default) && 0 < i < |rules| && p.out != []
    requires p.out[|p.out| - 1].last == rules[i - 1].first
    requires IsTip(rules, i, p.out) && AreLists(p.out) && rules[i].first != rules[i - 1].first
    ensures IsTip(rules, i + 1, Step(p, rules[i], i, default).out)
  {
    hide IsNormal;
    assert IsSourceRule(rules[i]) && Leader(rules, i) == i;
    assert rules[0].first <= rules[i - 1].first < rules[i].first;
  }

  lemma {:induction false} StepsTip(rules: seq<RangeRule>, i: nat, default: int)
    requires AreSourceRules(rules) && IsAction(default) && 1 <= i <= |rules|
    ensures IsTip(rules, i, Steps(rules, i, default).out)
    decreases i
  {
    hide Step, IsAction, IsOrdered, Gaps, AreLists, AreEnded;
    if i == 1 {
      assert IsSourceRule(rules[0]);
      assert rules[0].action != CONDITIONAL ==> exists k :: 0 <= k < 1 && rules[k].action != CONDITIONAL;
    } else {
      StepsTip(rules, i - 1, default);
      StepsCount(rules, i - 1, default);
      StepsLists(rules, i - 1, default);
      var p := Steps(rules, i - 1, default);
      if rules[i - 1].first == rules[i - 2].first {
        TipMerges(rules, i - 1, p, default);
      } else {
        TipGoesOn(rules, i - 1, p, default);
      }
    }
  }

  /** Whether the list of the newest range is closed when an unconditional rule comes upon it. */
  lemma TipIsOpenIff(rules: seq<RangeRule>, i: nat, out: seq<RangeRule>)
    requires AreSourceRules(rules) && 0 < i < |rules| && out != [] && IsTip(rules, i, out) && AreEnded(out)
    requires rules[i].first == rules[i - 1].first && rules[i].action != CONDITIONAL &&
             out[|out| - 1].action == CONDITIONAL
    ensures IsClosedOnce(rules, i) <==> !IsEnded(out[|out| - 1].mappings)
  {
    assert Leader(rules, i) == Leader(rules, i - 1);
    hide Leader, IsSourceRule;
  }

  lemma MergeIsProper(prev: RangeRule, cur: RangeRule)
    requires IsSourceRule(cur) && prev.action == CONDITIONAL && IsProperList(prev.mappings) && prev.mappings != []
    requires cur.action != CONDITIONAL ==> !IsEnded(prev.mappings)
    ensures IsProperList(Merge(prev, cur).mappings)
  {
    hide IsNormal, IsAction;
  }

  lemma NormalizeListIsProper(r: RangeRule, default: int)
    requires IsAction(default) && (r.action == CONDITIONAL ==> IsProperList(r.mappings)) &&
             (r.action != CONDITIONAL ==> r.mappings == [])
    ensures var r' := NormalizeList(r, default); r'.action == CONDITIONAL ==> IsProperList(r'.mappings)
  {
    hide IsNormal, IsAction;
  }

  lemma SourceIsProper(r: RangeRule)
    requires IsSourceRule(r)
    ensures (r.action == CONDITIONAL ==> IsProperList(r.mappings)) && (r.action != CONDITIONAL ==> r.mappings == [])
  {
  }

  lemma StepIsProper(rules: seq<RangeRule>, i: nat, p: Pass, default: int)
    requires AreSourceRules(rules) && IsAction(default) && 0 < i < |rules| && p.out != []
    requires p.out[|p.out| - 1].last == rules[i - 1].first && IsTip(rules, i, p.out) && AreEnded(p.out) &&
             AreLists(p.out)
    requires AreProper(p.out) && IsClosedOnce(rules, i)
    ensures AreProper(Step(p, rules[i], i, default).out)
  {
    hide IsNormal, IsProperList, Merge, NormalizeList, IsClosedOnce, IsTip, IsEnded;
    var cur, tip := rules[i], p.out[|p.out| - 1];
    assert IsSourceRule(cur) && cur.action != 0;
    SourceIsProper(cur);
    NormalizeListIsProper(cur, default);
    NormalizeListIsProper(cur.(first := tip.last + 1), default);
    if cur.first == tip.last && tip.action == CONDITIONAL {
      if cur.action != CONDITIONAL {
        TipIsOpenIff(rules, i, p.out);
      }
      MergeIsProper(tip, cur);
    }
    MergeKeepsRange(tip, cur);
  }

  lemma {:induction false} StepsAreProper(rules: seq<RangeRule>, i: nat, default: int)
    requires AreSourceRules(rules) && IsAction(default) && 1 <= i <= |rules|
    requires forall k :: 0 <= k < i ==> IsClosedOnce(rules, k)
    ensures AreProper(Steps(rules, i, default).out)
    decreases i
  {
    hide Step, IsAction, IsProperList, IsClosedOnce, IsTip;
    if i == 1 {
      assert IsSourceRule(rules[0]);
      SourceIsProper(rules[0]);
    } else {
      StepsAreProper(rules, i - 1, default);
      StepsTip(rules, i - 1, default);
      StepsCount(rules, i - 1, default);
      StepsLists(rules, i - 1, default);
      StepIsProper(rules, i - 1, Steps(rules, i - 1, default), default);
    }
  }

  lemma StretchIsProper(p: Pass, default: int)
    requires p.out != [] && AreProper(p.out) && AreLists(p.out) && IsAction(default)
    ensures AreProper(StretchLast(StretchFirst(p, default), default).out)
  {
    hide IsNormal, IsProperList, NormalizeList;
    NormalizeListIsProper(p.out[0], default);
  }

  lemma ClosedIsList(m: seq<Mapping>)
    requires IsProperList(m) && IsEnded(m)
    ensures IsDecisionList(m)
  {
  }

  /** The kept ranges are rules. */
  lemma KeptAreRules(rules: seq<RangeRule>, default: int, k: nat)
    requires AreSourceRules(rules) && rules != [] && IsAction(default) && AreClosedOnce(rules)
    requires k < |CountMissing(rules, default).out|
    ensures IsRule(CountMissing(rules, default).out[k])
  {
    hide IsClosedOnce, Steps, IsProperList, IsAction, StretchFirst, StretchLast, IsDecisionList, IsEnded;
    StepsAreProper(rules, |rules|, default);
    StepsLists(rules, |rules|, default);
    StretchIsProper(Steps(rules, |rules|, default), default);
    CountIsExact(rules, default);
    var r := CountMissing(rules, default).out[k];
    if r.action == CONDITIONAL {
      ClosedIsList(r.mappings);
    }
  }

  /** The normalised rules begin at 0, their first numbers increase, and every list of conditions
      is closed once. */
  lemma NormalizeMakesRules(rules: seq<RangeRule>, default: int)
    requires AreSourceRules(rules) && IsAction(default) && AreClosedOnce(rules)
    ensures AreRules(Normalize(rules, default)) && Normalize(rules, default)[0].first == 0
  {
    hide IsClosedOnce, AreSourceRules, CountMissing, Gaps, IsRule, IsAction, FillBetween, FirstsIncrease;
    if rules != [] {
      var out := CountMissing(rules, default).out;
      CountIsExact(rules, default);
      AddMissingShape(out, default);
      FillAdds(out, default);
      var full := Normalize(rules, default);
      forall i | 0 <= i < |full| ensures IsRule(full[i]) {
        assert full[i] in FillBetween(out, default) || IsFiller(full[i], default);
        if full[i] in out {
          var k :| 0 <= k < |out| && out[k] == full[i];
          KeptAreRules(rules, default, k);
        } else {
          FillersAreRules(full[i], default);
        }
      }
    } else {
      SingleRange(default);
    }
  }

  // ----- closed twice -----

  lemma StepBreaks(rules: seq<RangeRule>, i: nat, p: Pass, default: int)
    requires AreSourceRules(rules) && 0 < i < |rules| && p.out != [] && p.out[|p.out| - 1].last == rules[i - 1].first
    requires IsTip(rules, i, p.out) && AreEnded(p.out) && !IsClosedOnce(rules, i)
    ensures var out := Step(p, rules[i], i, default).out; IsBroken(out[|out| - 1])
  {
    hide IsNormal, IsAction;
    assert Leader(rules, i) == Leader(rules, i - 1) && rules[i].first == rules[i - 1].first;
    TipIsOpenIff(rules, i, p.out);
    var tip := p.out[|p.out| - 1];
    var m := Merge(tip, rules[i]).mappings;
    assert m == tip.mappings + [Mapping(None, rules[i].action)] && m[|tip.mappings| - 1].condition.None?;
  }

  lemma BrokenExtends(r: RangeRule, more: seq<Mapping>)
    requires IsBroken(r)
    ensures IsBroken(r.(mappings := r.mappings + more)) && r.mappings != []
  {
    var j :| 0 <= j < |r.mappings| - 1 && r.mappings[j].condition.None?;
    assert (r.mappings + more)[j] == r.mappings[j];
  }

  lemma StepKeepsBroken(p: Pass, cur: RangeRule, i: nat, default: int, k: nat)
    requires k < |p.out| && IsBroken(p.out[k]) && IsAction(default)
    ensures var out := Step(p, cur, i, default).out; k < |out| && IsBroken(out[k])
  {
    hide IsBroken, IsNormal;
    BrokenExtends(p.out[k], [Mapping(None, cur.action)]);
    BrokenExtends(p.out[k], cur.mappings);
    assert p.out[k].action == CONDITIONAL by { BrokenIsConditional(p.out[k]); }
  }

  lemma BrokenIsConditional(r: RangeRule)
    requires IsBroken(r)
    ensures r.action == CONDITIONAL && !IsRule(r)
  {
  }

  lemma {:induction false} BrokenStays(rules: seq<RangeRule>, i: nat, m: nat, default: int, k: nat)
    requires AreSourceRules(rules) && IsAction(default) && 1 <= i <= m <= |rules|
    requires k < |Steps(rules, i, default).out| && IsBroken(Steps(rules, i, default).out[k])
    ensures k < |Steps(rules, m, default).out| && IsBroken(Steps(rules, m, default).out[k])
    decreases m
  {
    hide Step, IsBroken, IsAction;
    if i < m {
      BrokenStays(rules, i, m - 1, default, k);
      StepKeepsBroken(Steps(rules, m - 1, default), rules[m - 1], m - 1, default, k);
    }
  }

  lemma StretchKeepsBroken(p: Pass, default: int, k: nat)
    requires k < |p.out| && IsBroken(p.out[k]) && IsAction(default)
    ensures var out := StretchLast(StretchFirst(p, default), default).out; k < |out| && IsBroken(out[k])
  {
    hide IsBroken, IsNormal;
    BrokenExtends(p.out[k], [Mapping(None, default)]);
    BrokenIsConditional(p.out[k]);
    assert forall r: RangeRule :: IsBroken(r) ==> r.action == CONDITIONAL by {
      forall r: RangeRule | IsBroken(r) ensures r.action == CONDITIONAL { BrokenIsConditional(r); }
    }
  }

  lemma {:induction false} FillKeeps(out: seq<RangeRule>, default: int, k: nat)
    requires k < |out|
    ensures out[k] in FillBetween(out, default)
    decreases |out|
  {
    var m := |out| - 1;
    if k < m {
      FillKeeps(out[..m], default, k);
      assert out[..m][k] == out[k];
    }
  }

  /** A list that is closed twice is kept in the first pass. */
  lemma BrokenIsKept(rules: seq<RangeRule>, default: int, i: nat) returns (k: nat)
    requires AreSourceRules(rules) && IsAction(default) && 0 < i < |rules| && !IsClosedOnce(rules, i)
    ensures k < |CountMissing(rules, default).out| && IsBroken(CountMissing(rules, default).out[k])
  {
    hide Step, IsBroken, IsAction, IsClosedOnce, IsTip, StretchFirst, StretchLast, IsSourceRule, IsOrdered, Gaps;
    StepsTip(rules, i, default);
    StepsCount(rules, i, default);
    StepBreaks(rules, i, Steps(rules, i, default), default);
    k := |Steps(rules, i + 1, default).out| - 1;
    BrokenStays(rules, i + 1, |rules|, default, k);
    StretchKeepsBroken(Steps(rules, |rules|, default), default, k);
  }

  /** It then reaches the code generator. */
  lemma BrokenReachesGenerator(rules: seq<RangeRule>, default: int, i: nat)
    requires AreSourceRules(rules) && IsAction(default) && i < |rules| && !IsClosedOnce(rules, i)
    ensures exists r :: r in Normalize(rules, default) && !IsRule(r)
  {
    assert i > 0;
    var k := BrokenIsKept(rules, default, i);
    hide CountMissing, IsBroken, IsRule, FillBetween, IsClosedOnce;
    var out := CountMissing(rules, default).out;
    FillKeeps(out, default, k);
    BrokenIsConditional(out[k]);
    assert out[k] in Normalize(rules, default);
  }

  /** The code generator accepts the normalised rules if and only if no list is closed twice. */
  lemma NormalizeMakesRulesIff(rules: seq<RangeRule>, default: int)
    requires AreSourceRules(rules) && IsAction(default)
    ensures AreClosedOnce(rules) <==> AreRules(Normalize(rules, default))
  {
    hide IsClosedOnce, Normalize, IsRule, FirstsIncrease;
    if AreClosedOnce(rules) {
      NormalizeMakesRules(rules, default);
    } else {
      var i :| 0 <= i < |rules| && !IsClosedOnce(rules, i);
      BrokenReachesGenerator(rules, default, i);
    }
  }
}
