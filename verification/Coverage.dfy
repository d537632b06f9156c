/**
  Normalised rules cover every syscall number, and for each number they list exactly the
  source rules on it, if each of these is taken in properly. That this is also necessary is shown
  in module Exactness.
 */
module Coverage {
  import opened Options
  import opened Expression
  import opened Policy
  import opened RangeRules
  import opened Normalizing

  // ----- ranges in order -----

  predicate IsOrdered(out: seq<RangeRule>) {
    && (forall k :: 0 <= k < |out| ==> 0 <= out[k].first <= out[k].last <= MAX_SYSCALL_NR)
    && (forall k, m :: 0 <= k < m < |out| ==> out[k].last < out[m].first)
  }

  function Gaps(out: seq<RangeRule>): (n: nat) {
    var k := |out| - 1;
    if k < 1 then 0 else Gaps(out[..k]) + if IsGap(out[k - 1], out[k]) then 1 else 0
  }

  /** The list of conditions a rule stands for. */
  function Effective(rule: RangeRule, default: int): seq<Mapping> {
    if rule.action == CONDITIONAL then Terminated(rule.mappings, default) else [Mapping(None, rule.action)]
  }

  /** What the ranges say about number `n`; a number in no range gets the default. */
  function Lookup(out: seq<RangeRule>, n: int, default: int): seq<Mapping> {
    if out == [] then [Mapping(None, default)]
    else
      var last := out[|out| - 1];
      if last.first <= n <= last.last then Effective(last, default)
      else Lookup(out[..|out| - 1], n, default)
  }

  lemma {:induction false} LookupAbove(out: seq<RangeRule>, n: int, default: int)
    requires IsOrdered(out) && (out == [] || out[|out| - 1].last < n)
    ensures Lookup(out, n, default) == [Mapping(None, default)]
  {
    if out != [] {
      LookupAbove(out[..|out| - 1], n, default);
    }
  }

  // ----- one step -----

  lemma GapsAppend(out: seq<RangeRule>, next: RangeRule)
    requires out != []
    ensures Gaps(out + [next]) == Gaps(out) + if IsGap(out[|out| - 1], next) then 1 else 0
  {
    assert (out + [next])[..|out|] == out;
  }

  lemma GapsOfPrefix(out: seq<RangeRule>, other: seq<RangeRule>)
    requires |out| == |other| > 0 && out[..|out| - 1] == other[..|out| - 1]
    requires out[|out| - 1].first == other[|out| - 1].first
    ensures Gaps(out) == Gaps(other)
  {
    if |out| > 1 {
      assert out[|out| - 2] == out[..|out| - 1][|out| - 2];
      assert other[|out| - 2] == other[..|out| - 1][|out| - 2];
    }
  }

  predicate CanFollow(p: Pass, cur: RangeRule) {
    && p.out != [] && IsOrdered(p.out) && IsSourceRule(cur)
    && p.out[|p.out| - 1].last <= cur.first
  }

  lemma StepOrders(p: Pass, cur: RangeRule, i: nat, default: int)
    requires CanFollow(p, cur) && |p.out| <= i
    ensures var p' := Step(p, cur, i, default);
            IsOrdered(p'.out) && p'.out[|p'.out| - 1].last == cur.first && |p'.out| <= i + 1
  {
    hide IsNormal, IsAction, Merge;
    MergeKeepsRange(p.out[|p.out| - 1], cur);
  }

  lemma MergeKeepsRange(prev: RangeRule, cur: RangeRule)
    ensures var m := Merge(prev, cur);
            && m.first == prev.first && m.last == prev.last && m.action == prev.action
            && (prev.action != CONDITIONAL ==> m == prev)
  {
  }

  lemma StepCounts(p: Pass, cur: RangeRule, i: nat, default: int)
    requires CanFollow(p, cur) && p.missing == Gaps(p.out)
    ensures var p' := Step(p, cur, i, default); p'.missing == Gaps(p'.out)
  {
    hide IsNormal, IsAction, Gaps, Merge, IsOrdered;
    var k := |p.out| - 1;
    var prev := p.out[k];
    var next := NormalizeList(cur, default);
    MergeKeepsRange(prev, cur);
    if cur.first == prev.last {
      GapsOfPrefix(p.out, p.out[k := Merge(prev, cur)]);
    } else if cur.first == prev.last + 1 {
      GapsOfPrefix(p.out, p.out[k := prev.(last := cur.last)]);
      GapsAppend(p.out, next);
    } else if prev.action == default {
      var longer := p.out[k := prev.(last := cur.first - 1)];
      GapsOfPrefix(p.out, longer);
      GapsAppend(longer, next);
    } else if cur.action == default {
      GapsAppend(p.out, NormalizeList(cur.(first := prev.last + 1), default));
    } else if |p.out| < i {
      var gap := Gap(prev.last + 1, cur.first - 1, default);
      GapsAppend(p.out, gap);
      GapsAppend(p.out + [gap], next);
      assert p.out + [gap] + [next] == p.out + [gap, next];
    } else {
      GapsAppend(p.out, next);
    }
  }

  lemma LookupAppend(out: seq<RangeRule>, next: RangeRule, n: int, default: int)
    ensures Lookup(out + [next], n, default) ==
            if next.first <= n <= next.last then Effective(next, default) else Lookup(out, n, default)
  {
    assert (out + [next])[..|out|] == out;
  }

  lemma LookupUpdate(out: seq<RangeRule>, next: RangeRule, n: int, default: int)
    requires out != []
    ensures var k := |out| - 1;
            Lookup(out[k := next], n, default) ==
            if next.first <= n <= next.last then Effective(next, default) else Lookup(out[..k], n, default)
  {
    assert out[|out| - 1 := next][..|out| - 1] == out[..|out| - 1];
  }

  /** A step leaves what the ranges say about every other number unchanged. */
  lemma StepElsewhere(p: Pass, cur: RangeRule, i: nat, default: int, n: int)
    requires CanFollow(p, cur) && IsAction(default) && n != cur.first
    requires var tip := p.out[|p.out| - 1]; tip.action == CONDITIONAL ==> tip.first == tip.last
    ensures Lookup(Step(p, cur, i, default).out, n, default) == Lookup(p.out, n, default)
  {
    hide IsNormal, Lookup;
    var k := |p.out| - 1;
    var prev := p.out[k];
    var next := NormalizeList(cur, default);
    LookupUpdate(p.out, prev, n, default);
    assert p.out[k := prev] == p.out;
    if n > prev.last {
      LookupAbove(p.out, n, default);
    }
    if cur.first == prev.last {
      LookupUpdate(p.out, Merge(prev, cur), n, default);
    } else if cur.first == prev.last + 1 {
      if prev.action != CONDITIONAL && prev.action == cur.action {
        LookupUpdate(p.out, prev.(last := cur.last), n, default);
        assert prev.first <= n <= cur.last ==> n <= prev.last;
      } else {
        LookupAppend(p.out, next, n, default);
      }
    } else if prev.action == default {
      var longer := prev.(last := cur.first - 1);
      LookupUpdate(p.out, longer, n, default);
      LookupAppend(p.out[k := longer], next, n, default);
    } else if cur.action == default {
      LookupAppend(p.out, NormalizeList(cur.(first := prev.last + 1), default), n, default);
    } else if |p.out| < i {
      var gap := Gap(prev.last + 1, cur.first - 1, default);
      LookupAppend(p.out, gap, n, default);
      LookupAppend(p.out + [gap], next, n, default);
      assert p.out + [gap] + [next] == p.out + [gap, next];
    } else {
      LookupAppend(p.out, next, n, default);
    }
  }

  // ----- the source rules on one number -----

  lemma SequenceAppend(rules: seq<RangeRule>, cur: RangeRule, n: int)
    requires forall i :: 0 <= i < |rules| ==> IsSourceRule(rules[i])
    requires IsSourceRule(cur)
    ensures Sequence(rules + [cur], n) ==
            if cur.first != n || IsEnded(Sequence(rules, n)) then Sequence(rules, n)
            else Sequence(rules, n) + [MappingOf(cur)]
  {
    assert (rules + [cur])[..|rules|] == rules;
  }

  lemma {:induction false} SequenceAbsent(rules: seq<RangeRule>, n: int)
    requires forall i :: 0 <= i < |rules| ==> IsSourceRule(rules[i]) && rules[i].first != n
    ensures Sequence(rules, n) == []
  {
    if rules != [] {
      SequenceAbsent(rules[..|rules| - 1], n);
    }
  }

  lemma {:induction false} SequenceShape(rules: seq<RangeRule>, n: int)
    requires forall i :: 0 <= i < |rules| ==> IsSourceRule(rules[i])
    ensures var s := Sequence(rules, n);
            && (forall i :: 0 <= i < |s| ==> IsAction(s[i].action))
            && (forall i :: 0 <= i < |s| - 1 ==> s[i].condition.Some?)
            && (forall i :: 0 <= i < |s| && s[i].condition.Some? ==> IsNormal(s[i].condition.value))
  {
    hide IsNormal, IsAction;
    if rules != [] {
      var k := |rules| - 1;
      SequenceShape(rules[..k], n);
      assert IsSourceRule(rules[k]);
      assert rules[..k] + [rules[k]] == rules;
      SequenceAppend(rules[..k], rules[k], n);
    }
  }

  /** The conditions on a number, closed by an unconditional action, make a decision list. */
  lemma SequenceIsList(rules: seq<RangeRule>, n: int, default: int)
    requires forall i :: 0 <= i < |rules| ==> IsSourceRule(rules[i])
    requires IsAction(default)
    ensures IsDecisionList(Prescribed(rules, n, default))
  {
    hide IsNormal, IsAction, Sequence, IsSourceRule;
    SequenceShape(rules, n);
    var m := Prescribed(rules, n, default);
    forall i | 0 <= i < |m| - 1 ensures m[i].condition.Some? && IsNormal(m[i].condition.value) {
      assert m[i] == Sequence(rules, n)[i];
    }
  }

  // ----- the condition for an exact result -----

  /** The index of the first rule on the number of the `i`-th rule. */
  function Leader(rules: seq<RangeRule>, i: nat): (k: nat)
    requires i < |rules|
    ensures k <= i
  {
    if i == 0 || rules[i - 1].first != rules[i].first then i else Leader(rules, i - 1)
  }

  /** The `i`-th rule is taken in properly: it opens its number, or an unconditional rule
      opened it, or it stands on the lowest number and does not close its list again. */
  predicate IsTakenIn(rules: seq<RangeRule>, i: nat)
    requires i < |rules|
  {
    || Leader(rules, i) == i
    || rules[Leader(rules, i)].action != CONDITIONAL
    || (rules[i].first == rules[0].first &&
        (rules[i].action == CONDITIONAL || forall k :: 0 <= k < i ==> rules[k].action == CONDITIONAL))
  }

  /** Every rule on number `n` is taken in properly. */
  predicate AreTakenIn(rules: seq<RangeRule>, n: int) {
    forall i :: 0 <= i < |rules| && rules[i].first == n ==> IsTakenIn(rules, i)
  }

  // ----- the invariant of the first pass -----

  /** The newest range carries exactly the source rules on its number seen so far. */
  ghost predicate TipIsExact(rules: seq<RangeRule>, i: nat, out: seq<RangeRule>, default: int)
    requires 1 <= i <= |rules| && AreSourceRules(rules) && out != []
  {
    var tip := out[|out| - 1];
    var s := Sequence(rules[..i], rules[i - 1].first);
    && tip.last == rules[i - 1].first
    && (tip.action == CONDITIONAL <==> rules[Leader(rules, i - 1)].action == CONDITIONAL)
    && (|out| == 1 && tip.action == CONDITIONAL ==> rules[i - 1].first == rules[0].first)
    && (|out| > 1 ==> rules[i - 1].first != rules[0].first)
    && if tip.action == CONDITIONAL then
         && tip.first == tip.last && s != []
         && tip.mappings == if |out| == 1 then s else Terminated(s, default)
       else s == [Mapping(None, tip.action)]
  }

  /** What the ranges say about number `n` is what the first `i` rules prescribe. */
  ghost predicate IsExact(rules: seq<RangeRule>, i: nat, out: seq<RangeRule>, default: int, n: int)
    requires 1 <= i <= |rules| && AreSourceRules(rules)
  {
    Lookup(out, n, default) == Prescribed(rules[..i], n, default)
  }

  lemma {:induction false} OpenWhileConditional(rules: seq<RangeRule>, n: int)
    requires forall i :: 0 <= i < |rules| ==> IsSourceRule(rules[i]) && rules[i].action == CONDITIONAL
    ensures !IsEnded(Sequence(rules, n))
  {
    hide IsNormal, IsAction;
    if rules != [] {
      OpenWhileConditional(rules[..|rules| - 1], n);
      assert IsSourceRule(rules[|rules| - 1]);
    }
  }

  /** A rule on a new number starts a new list. */
  lemma FirstOnNumber(rules: seq<RangeRule>, i: nat)
    requires AreSourceRules(rules) && 0 < i < |rules| && rules[i - 1].first != rules[i].first
    ensures Leader(rules, i) == i && rules[i].first != rules[0].first
    ensures Sequence(rules[..i + 1], rules[i].first) == [MappingOf(rules[i])]
  {
    hide IsSourceRule;
    assert rules[..i + 1] == rules[..i] + [rules[i]];
    forall k | 0 <= k < i ensures rules[k].first != rules[i].first {
      assert rules[k].first <= rules[i - 1].first <= rules[i].first;
    }
    SequenceAbsent(rules[..i], rules[i].first);
    SequenceAppend(rules[..i], rules[i], rules[i].first);
  }

  lemma StepMerges(p: Pass, cur: RangeRule, i: nat, default: int)
    requires p.out != [] && cur.first == p.out[|p.out| - 1].last
    ensures var k := |p.out| - 1; Step(p, cur, i, default).out == p.out[k := Merge(p.out[k], cur)]
  {
  }

  /** Merging a further rule into an open list, or a condition into any, follows the source. */
  lemma MergeFollows(tip: RangeRule, cur: RangeRule)
    requires IsSourceRule(cur) && tip.action == CONDITIONAL && tip.mappings != []
    requires cur.action != CONDITIONAL ==> !IsEnded(tip.mappings)
    ensures Merge(tip, cur) ==
            tip.(mappings := if IsEnded(tip.mappings) then tip.mappings else tip.mappings + [MappingOf(cur)])
  {
    hide IsNormal, IsAction;
    if cur.action == CONDITIONAL {
      assert [cur.mappings[0]] == cur.mappings;
    }
  }

  /** Taking in a further rule on the newest number keeps its list exact. */
  lemma TipStaysOnNumber(rules: seq<RangeRule>, i: nat, p: Pass, default: int)
    requires AreSourceRules(rules) && 0 < i < |rules| && rules[i - 1].first == rules[i].first
    requires p.out != [] && TipIsExact(rules, i, p.out, default) && IsTakenIn(rules, i)
    ensures TipIsExact(rules, i + 1, Step(p, rules[i], i, default).out, default)
  {
    assert Leader(rules, i) == Leader(rules, i - 1) < i;
    hide IsSourceRule, Leader, Sequence, Step, Merge;
    StepMerges(p, rules[i], i, default);
    assert rules[..i + 1] == rules[..i] + [rules[i]];
    SequenceAppend(rules[..i], rules[i], rules[i].first);
    var tip := p.out[|p.out| - 1];
    if tip.action == CONDITIONAL {
      assert |p.out| == 1;
      if rules[i].action != CONDITIONAL {
        OpenWhileConditional(rules[..i], rules[i].first);
      }
      MergeFollows(tip, rules[i]);
    } else {
      MergeKeepsRange(tip, rules[i]);
    }
  }

  lemma TipMovesOn(rules: seq<RangeRule>, i: nat, p: Pass, default: int)
    requires AreSourceRules(rules) && 0 < i < |rules| && rules[i - 1].first != rules[i].first
    requires IsAction(default) && p.out != [] && p.out[|p.out| - 1].last == rules[i - 1].first
    ensures TipIsExact(rules, i + 1, Step(p, rules[i], i, default).out, default)
  {
    hide IsNormal, Sequence, Leader, IsAction, Step;
    FirstOnNumber(rules, i);
    assert IsSourceRule(rules[i]);
    NewTip(p, rules[i], i, default);
  }

  /** A rule on a new number becomes the newest range, alone or merged into a plain one. */
  lemma NewTip(p: Pass, cur: RangeRule, i: nat, default: int)
    requires p.out != [] && IsSourceRule(cur) && IsAction(default) && cur.first != p.out[|p.out| - 1].last
    ensures var out := Step(p, cur, i, default).out;
            var tip := out[|out| - 1];
            && tip.last == cur.first && tip.action == cur.action
            && (cur.action == CONDITIONAL ==>
                  && |out| > 1 && tip.first == cur.first
                  && tip.mappings == [MappingOf(cur)] + [Mapping(None, default)])
            && (|out| == 1 ==> cur.action != CONDITIONAL)
  {
    hide IsNormal;
  }

  lemma TipSpeaks(rules: seq<RangeRule>, i: nat, out: seq<RangeRule>, default: int)
    requires 1 <= i <= |rules| && AreSourceRules(rules) && out != [] && IsOrdered(out)
    requires TipIsExact(rules, i, out, default)
    ensures var n := rules[i - 1].first; Lookup(out, n, default) == Prescribed(rules[..i], n, default)
  {
    hide Sequence, IsSourceRule;
  }

  /** A step keeps what the ranges say about a number exact, if a rule on it is taken in. */
  lemma StepIsExact(rules: seq<RangeRule>, i: nat, p: Pass, default: int, n: int)
    requires AreSourceRules(rules) && IsAction(default) && 0 < i < |rules|
    requires CanFollow(p, rules[i]) && |p.out| <= i && p.out[|p.out| - 1].last == rules[i - 1].first
    requires var tip := p.out[|p.out| - 1]; tip.action == CONDITIONAL ==> tip.first == tip.last
    requires rules[i - 1].first == n ==> TipIsExact(rules, i, p.out, default)
    requires IsExact(rules, i, p.out, default, n) && (rules[i].first == n ==> IsTakenIn(rules, i))
    ensures var out := Step(p, rules[i], i, default).out;
            (rules[i].first == n ==> TipIsExact(rules, i + 1, out, default)) && IsExact(rules, i + 1, out, default, n)
  {
    hide Lookup, Step, IsTakenIn, IsNormal, IsAction, Sequence;
    var cur := rules[i];
    var out := Step(p, cur, i, default).out;
    StepOrders(p, cur, i, default);
    if cur.first == n {
      if rules[i - 1].first == n {
        TipStaysOnNumber(rules, i, p, default);
      } else {
        TipMovesOn(rules, i, p, default);
      }
      TipSpeaks(rules, i + 1, out, default);
    } else {
      assert rules[..i + 1] == rules[..i] + [cur];
      StepElsewhere(p, cur, i, default, n);
      SequenceAppend(rules[..i], cur, n);
    }
  }

  /** Every range but the first already carries a closed list. */
  predicate AreEnded(out: seq<RangeRule>) {
    forall k :: 0 < k < |out| && out[k].action == CONDITIONAL ==> IsEnded(out[k].mappings)
  }

  lemma StepEnds(p: Pass, cur: RangeRule, i: nat, default: int)
    requires CanFollow(p, cur) && AreEnded(p.out) && IsAction(default)
    ensures AreEnded(Step(p, cur, i, default).out)
  {
    hide IsNormal;
  }

  lemma {:induction false} StepsCount(rules: seq<RangeRule>, i: nat, default: int)
    requires AreSourceRules(rules) && IsAction(default) && 1 <= i <= |rules|
    ensures var p := Steps(rules, i, default);
            && IsOrdered(p.out) && p.out[|p.out| - 1].last == rules[i - 1].first
            && |p.out| <= i && p.missing == Gaps(p.out) && AreEnded(p.out)
  {
    hide Step, IsNormal, IsAction;
    if i > 1 {
      StepsCount(rules, i - 1, default);
      var p := Steps(rules, i - 1, default);
      StepOrders(p, rules[i - 1], i - 1, default);
      StepCounts(p, rules[i - 1], i - 1, default);
      StepEnds(p, rules[i - 1], i - 1, default);
    } else {
      assert IsSourceRule(rules[0]);
    }
  }

  /** After any number of steps the ranges say of a number what the rules so far prescribe, if
      all rules on it are taken in; rules on other numbers do not matter. */
  lemma {:induction false} StepsAreExact(rules: seq<RangeRule>, i: nat, default: int, n: int)
    requires AreSourceRules(rules) && IsAction(default) && 1 <= i <= |rules|
    requires forall k :: 0 <= k < i && rules[k].first == n ==> IsTakenIn(rules, k)
    ensures var out := Steps(rules, i, default).out;
            && (rules[i - 1].first == n ==> TipIsExact(rules, i, out, default))
            && IsExact(rules, i, out, default, n)
  {
    hide Step, IsNormal, IsAction, Lookup, IsTakenIn, Sequence;
    if i > 1 {
      StepsCount(rules, i - 1, default);
      StepsLists(rules, i - 1, default);
      StepsAreExact(rules, i - 1, default, n);
      StepIsExact(rules, i - 1, Steps(rules, i - 1, default), default, n);
    } else {
      FirstIsExact(rules, default, n);
    }
  }

  lemma FirstIsExact(rules: seq<RangeRule>, default: int, n: int)
    requires AreSourceRules(rules) && IsAction(default) && rules != []
    ensures TipIsExact(rules, 1, [rules[0]], default) && IsExact(rules, 1, [rules[0]], default, n)
  {
    hide IsNormal;
    var first := rules[0];
    assert IsSourceRule(first);
    assert rules[..1] == [] + [first];
    SequenceAppend([], first, first.first);
    SequenceAppend([], first, n);
    LookupAppend([], first, n, default);
    assert [] + [first] == [first];
  }

  // ----- stretching the outer ranges -----

  /** Replacing the first range by one that says the same, perhaps stretched down to 0. */
  lemma {:induction false} LookupStretchFirst(out: seq<RangeRule>, r: RangeRule, n: int, default: int)
    requires out != [] && IsOrdered(out) && n >= 0 && r.last == out[0].last
    requires Effective(r, default) == Effective(out[0], default)
    requires r.first == out[0].first || (r.first == 0 && Effective(r, default) == [Mapping(None, default)])
    ensures Lookup(out[0 := r], n, default) == Lookup(out, n, default)
  {
    var k := |out| - 1;
    if k == 0 {
      LookupAppend([], r, n, default);
      LookupAppend([], out[0], n, default);
      assert [] + [r] == out[0 := r] && [] + [out[0]] == out;
    } else {
      LookupStretchFirst(out[..k], r, n, default);
      assert out[0 := r][..k] == out[..k][0 := r];
    }
  }

  lemma {:induction false} GapsStretchFirst(out: seq<RangeRule>, r: RangeRule)
    requires out != [] && r.last == out[0].last
    ensures Gaps(out[0 := r]) == Gaps(out)
  {
    var k := |out| - 1;
    if k > 0 {
      GapsStretchFirst(out[..k], r);
      assert out[0 := r][..k] == out[..k][0 := r];
    }
  }

  lemma LookupStretchLast(out: seq<RangeRule>, n: int, default: int)
    requires out != [] && IsOrdered(out) && n <= MAX_SYSCALL_NR
    requires out[|out| - 1].action == default && IsAction(default)
    ensures var k := |out| - 1;
            Lookup(out[k := out[k].(last := MAX_SYSCALL_NR)], n, default) == Lookup(out, n, default)
  {
    var k := |out| - 1;
    LookupUpdate(out, out[k].(last := MAX_SYSCALL_NR), n, default);
    LookupUpdate(out, out[k], n, default);
    assert out[k := out[k]] == out;
    if n > out[k].last {
      LookupAbove(out, n, default);
    }
  }

  function HeadGap(out: seq<RangeRule>): (n: nat)
    requires out != []
    ensures n <= 1
  {
    if out[0].first == 0 then 0 else 1
  }

  function TailGap(out: seq<RangeRule>): (n: nat)
    requires out != []
    ensures n <= 1
  {
    if out[|out| - 1].last == MAX_SYSCALL_NR then 0 else 1
  }

  predicate AreAllEnded(out: seq<RangeRule>) {
    forall k :: 0 <= k < |out| && out[k].action == CONDITIONAL ==> IsEnded(out[k].mappings)
  }

  /** A range is conditional exactly if it has conditions; then it has one number only. */
  predicate AreLists(out: seq<RangeRule>) {
    forall k :: 0 <= k < |out| ==>
      if out[k].action == CONDITIONAL then
        out[k].mappings != [] && out[k].mappings[0].condition.Some? && out[k].first == out[k].last
      else IsAction(out[k].action) && out[k].mappings == []
  }

  lemma StretchFirstKeeps(p: Pass, default: int, n: int)
    requires p.out != [] && IsOrdered(p.out) && AreEnded(p.out) && AreLists(p.out) && IsAction(default)
    ensures var q := StretchFirst(p, default);
            && |q.out| == |p.out| && IsOrdered(q.out) && AreAllEnded(q.out) && AreLists(q.out)
            && q.missing - Gaps(q.out) - HeadGap(q.out) == p.missing - Gaps(p.out)
            && (n >= 0 ==> Lookup(q.out, n, default) == Lookup(p.out, n, default))
  {
    hide Lookup, Gaps;
    var q := StretchFirst(p, default);
    GapsStretchFirst(p.out, q.out[0]);
    if n >= 0 {
      LookupStretchFirst(p.out, q.out[0], n, default);
    }
  }

  lemma StretchLastKeeps(p: Pass, default: int, n: int)
    requires p.out != [] && IsOrdered(p.out) && AreAllEnded(p.out) && AreLists(p.out) && IsAction(default)
    ensures var q := StretchLast(p, default);
            && |q.out| == |p.out| && IsOrdered(q.out) && AreAllEnded(q.out) && AreLists(q.out)
            && Gaps(q.out) == Gaps(p.out) && HeadGap(q.out) == HeadGap(p.out)
            && q.missing - TailGap(q.out) == p.missing
            && (n <= MAX_SYSCALL_NR ==> Lookup(q.out, n, default) == Lookup(p.out, n, default))
  {
    hide Lookup, Gaps, IsEnded;
    var k := |p.out| - 1;
    GapsOfPrefix(p.out, p.out[k := p.out[k].(last := MAX_SYSCALL_NR)]);
    if p.out[k].action == default && n <= MAX_SYSCALL_NR {
      LookupStretchLast(p.out, n, default);
    }
  }

  lemma StepLists(p: Pass, cur: RangeRule, i: nat, default: int)
    requires CanFollow(p, cur) && AreLists(p.out) && IsAction(default)
    ensures AreLists(Step(p, cur, i, default).out)
  {
    hide IsNormal;
  }

  lemma {:induction false} StepsLists(rules: seq<RangeRule>, i: nat, default: int)
    requires AreSourceRules(rules) && IsAction(default) && 1 <= i <= |rules|
    ensures AreLists(Steps(rules, i, default).out)
  {
    hide Step, IsNormal, IsAction;
    if i > 1 {
      StepsLists(rules, i - 1, default);
      StepsCount(rules, i - 1, default);
      StepLists(Steps(rules, i - 1, default), rules[i - 1], i - 1, default);
    } else {
      assert IsSourceRule(rules[0]);
    }
  }

  /** The count agrees with the gaps: after the first pass, the missing rules are exactly the
      gaps at the head, between ranges and at the tail. */
  lemma CountIsExact(rules: seq<RangeRule>, default: int)
    requires AreSourceRules(rules) && rules != [] && IsAction(default)
    ensures var p := CountMissing(rules, default);
            && |p.out| <= |rules| && IsOrdered(p.out) && AreAllEnded(p.out) && AreLists(p.out)
            && p.missing == HeadGap(p.out) + Gaps(p.out) + TailGap(p.out)
  {
    hide Lookup, Gaps, Steps, AreLists, AreEnded, AreAllEnded, IsOrdered, StretchFirst, StretchLast;
    StepsCount(rules, |rules|, default);
    StepsLists(rules, |rules|, default);
    var p := Steps(rules, |rules|, default);
    StretchFirstKeeps(p, default, 0);
    StretchLastKeeps(StretchFirst(p, default), default, 0);
  }

  lemma CountKeepsMeaning(rules: seq<RangeRule>, default: int, n: nat)
    requires AreSourceRules(rules) && rules != [] && IsAction(default) && n <= MAX_SYSCALL_NR
    ensures Lookup(CountMissing(rules, default).out, n, default) ==
            Lookup(Steps(rules, |rules|, default).out, n, default)
  {
    hide Lookup, Gaps, Steps, AreLists, AreEnded, AreAllEnded, IsOrdered, StretchFirst, StretchLast;
    StepsCount(rules, |rules|, default);
    StepsLists(rules, |rules|, default);
    var p := Steps(rules, |rules|, default);
    StretchFirstKeeps(p, default, n);
    StretchLastKeeps(StretchFirst(p, default), default, n);
  }

  // ----- filling the gaps -----

  lemma AppendIncreasing(rules: seq<RangeRule>, r: RangeRule)
    requires FirstsIncrease(rules) && (rules != [] ==> rules[|rules| - 1].first < r.first)
    ensures FirstsIncrease(rules + [r])
  {
  }

  lemma {:induction false} FillShape(out: seq<RangeRule>, default: int)
    requires out != [] && IsOrdered(out)
    ensures var full := FillBetween(out, default);
            && |full| == |out| + Gaps(out)
            && full[0].first == out[0].first && full[|full| - 1] == out[|out| - 1]
            && FirstsIncrease(full)
  {
    hide FirstsIncrease;
    var k := |out| - 1;
    if k > 0 {
      FillShape(out[..k], default);
      var before := FillBetween(out[..k], default);
      var gap := Gap(out[k - 1].last + 1, out[k].first - 1, default);
      if IsGap(out[k - 1], out[k]) {
        AppendIncreasing(before, gap);
        AppendIncreasing(before + [gap], out[k]);
      } else {
        AppendIncreasing(before, out[k]);
        assert before + [] + [out[k]] == before + [out[k]];
      }
    } else {
      AppendIncreasing([], out[0]);
      assert [] + [out[0]] == out;
    }
  }

  /** What filling adds takes the default action. */
  predicate IsFiller(r: RangeRule, default: int) {
    r.action == default && 0 <= r.first <= MAX_SYSCALL_NR
  }

  lemma {:induction false} FillAdds(out: seq<RangeRule>, default: int)
    requires out != [] && IsOrdered(out)
    ensures forall r :: r in FillBetween(out, default) ==> r in out || IsFiller(r, default)
  {
    var k := |out| - 1;
    if k > 0 {
      FillAdds(out[..k], default);
      forall r | r in FillBetween(out, default) ensures r in out || IsFiller(r, default) {
        var gap := Gap(out[k - 1].last + 1, out[k].first - 1, default);
        assert r in FillBetween(out[..k], default) || (IsGap(out[k - 1], out[k]) && r == gap) || r == out[k];
      }
    }
  }

  lemma FindLast(rules: seq<RangeRule>, r: RangeRule, n: int)
    requires FirstsIncrease(rules + [r]) && rules != [] && n >= 0
    ensures FindRule(rules + [r], n) == if n >= r.first then r else FindRule(rules, n)
  {
    FindRuleSplits(rules + [r], n, |rules|);
    assert (rules + [r])[|rules|..] == [r] && (rules + [r])[..|rules|] == rules;
  }

  lemma OrderedPrefix(out: seq<RangeRule>)
    requires |out| > 1 && IsOrdered(out)
    ensures var k := |out| - 1;
            IsOrdered(out[..k]) && out[k - 1].first <= out[k - 1].last < out[k].first
  {
  }

  /** How the search over the filled ranges unfolds at the last range. */
  lemma FillFind(out: seq<RangeRule>, default: int, n: nat)
    requires |out| > 1 && IsOrdered(out)
    ensures var k := |out| - 1;
            FindRule(FillBetween(out, default), n) ==
            if n >= out[k].first then out[k]
            else if n > out[k - 1].last then Gap(out[k - 1].last + 1, out[k].first - 1, default)
            else FindRule(FillBetween(out[..k], default), n)
  {
    hide FindRule, FirstsIncrease, IsOrdered;
    OrderedPrefix(out);
    var k := |out| - 1;
    var before := FillBetween(out[..k], default);
    var gap := Gap(out[k - 1].last + 1, out[k].first - 1, default);
    FillShape(out[..k], default);
    FillShape(out, default);
    if IsGap(out[k - 1], out[k]) {
      AppendIncreasing(before, gap);
      FindLast(before + [gap], out[k], n);
      FindLast(before, gap, n);
    } else {
      assert FillBetween(out, default) == before + [out[k]];
      FindLast(before, out[k], n);
    }
  }

  /** Searching the filled ranges by their first numbers finds what the ranges say. */
  lemma {:induction false} FillLookup(out: seq<RangeRule>, default: int, n: nat)
    requires out != [] && IsOrdered(out) && out[0].first <= n <= out[|out| - 1].last && IsAction(default)
    ensures Effective(FindRule(FillBetween(out, default), n), default) == Lookup(out, n, default)
  {
    hide FindRule;
    var k := |out| - 1;
    if k > 0 {
      FillFind(out, default, n);
      if n <= out[k - 1].last {
        FillLookup(out[..k], default, n);
      } else if n < out[k].first {
        LookupAbove(out[..k], n, default);
      }
    }
  }

  // ----- main results about normalisation -----

  lemma {:induction false} LookupBelow(out: seq<RangeRule>, n: int, default: int)
    requires IsOrdered(out) && (out == [] || n < out[0].first)
    ensures Lookup(out, n, default) == [Mapping(None, default)]
  {
    if out != [] {
      LookupBelow(out[..|out| - 1], n, default);
    }
  }

  lemma WithHeadShape(out: seq<RangeRule>, default: int)
    requires out != [] && IsOrdered(out)
    ensures var full := WithHead(out, default);
            && |full| == |out| + HeadGap(out) + Gaps(out)
            && full[0].first == 0 && full[|full| - 1] == out[|out| - 1] && FirstsIncrease(full)
  {
    hide FillBetween, Gaps;
    FillShape(out, default);
    assert 0 <= out[0].first;
  }

  lemma WithHeadLookup(out: seq<RangeRule>, default: int, n: nat)
    requires out != [] && IsOrdered(out) && n <= out[|out| - 1].last && IsAction(default)
    ensures Effective(FindRule(WithHead(out, default), n), default) == Lookup(out, n, default)
  {
    hide FillBetween, Gaps, Lookup;
    FillShape(out, default);
    var mid := FillBetween(out, default);
    if n < out[0].first {
      LookupBelow(out, n, default);
    } else {
      FillLookup(out, default, n);
      assert WithHead(out, default)[HeadGap(out)..] == mid;
    }
  }

  lemma AddMissingShape(out: seq<RangeRule>, default: int)
    requires out != [] && IsOrdered(out)
    ensures var full := AddMissing(out, default);
            && |full| == |out| + HeadGap(out) + Gaps(out) + TailGap(out)
            && full[0].first == 0 && FirstsIncrease(full)
  {
    hide FillBetween, Gaps, FirstsIncrease;
    WithHeadShape(out, default);
    var last := out[|out| - 1];
    if last.last != MAX_SYSCALL_NR {
      AppendIncreasing(WithHead(out, default), Gap(last.last + 1, MAX_SYSCALL_NR, default));
    }
  }

  /** Searching the completed ranges finds what the ranges say, for every number. */
  lemma AddMissingLookup(out: seq<RangeRule>, default: int, n: nat)
    requires out != [] && IsOrdered(out) && n <= MAX_SYSCALL_NR && IsAction(default)
    ensures Effective(FindRule(AddMissing(out, default), n), default) == Lookup(out, n, default)
  {
    hide FindRule, FillBetween, Gaps, FirstsIncrease, Lookup;
    WithHeadShape(out, default);
    AddMissingShape(out, default);
    var last := out[|out| - 1];
    if last.last != MAX_SYSCALL_NR {
      FindLast(WithHead(out, default), Gap(last.last + 1, MAX_SYSCALL_NR, default), n);
    }
    if n > last.last {
      LookupAbove(out, n, default);
    } else {
      WithHeadLookup(out, default, n);
    }
  }

  /** The list the normalised rules give for number `n`. */
  function Normalized(rules: seq<RangeRule>, default: int, n: nat): (mappings: seq<Mapping>) {
    Effective(FindRule(Normalize(rules, default), n), default)
  }

  lemma NormalizedIsLookup(rules: seq<RangeRule>, default: int, n: nat)
    requires AreSourceRules(rules) && rules != [] && IsAction(default) && n <= MAX_SYSCALL_NR
    ensures Normalized(rules, default, n) == Lookup(Steps(rules, |rules|, default).out, n, default)
  {
    hide Lookup, Gaps, Steps, AddMissing, CountMissing, Effective, FindRule, AreSourceRules, AreLists, AreAllEnded;
    CountIsExact(rules, default);
    CountKeepsMeaning(rules, default, n);
    AddMissingLookup(CountMissing(rules, default).out, default, n);
  }

  /** Normalisation keeps, for a number, exactly the source rules on it, if each of these is
      taken in properly. */
  lemma NormalizeKeepsLists(rules: seq<RangeRule>, default: int, n: nat)
    requires AreSourceRules(rules) && IsAction(default) && n <= MAX_SYSCALL_NR && AreTakenIn(rules, n)
    ensures Normalized(rules, default, n) == Prescribed(rules, n, default)
  {
    hide Lookup, Steps, IsTakenIn, AreSourceRules, Prescribed, AddMissing, CountMissing;
    if rules == [] {
      EmptyIsDefault(default, n);
    } else {
      NormalizedIsLookup(rules, default, n);
      StepsAreExact(rules, |rules|, default, n);
      assert rules[..|rules|] == rules;
    }
  }

  lemma EmptyIsDefault(default: int, n: nat)
    requires IsAction(default)
    ensures Normalized([], default, n) == Prescribed([], n, default)
  {
  }

  lemma FillersAreRules(r: RangeRule, default: int)
    requires IsFiller(r, default) && IsAction(default)
    ensures IsRule(r)
  {
  }

  lemma SingleRange(default: int)
    requires IsAction(default)
    ensures AreRules([Gap(0, MAX_SYSCALL_NR, default)])
  {
  }

  /** Every normalised rule is a kept range or takes the default action. */
  lemma NormalizedRuleIsKept(rules: seq<RangeRule>, default: int, r: RangeRule)
    requires AreSourceRules(rules) && rules != [] && IsAction(default) && r in Normalize(rules, default)
    ensures r in CountMissing(rules, default).out || IsFiller(r, default)
  {
    hide AreSourceRules, CountMissing, Gaps, IsAction, FillBetween, AreLists, AreAllEnded;
    var out := CountMissing(rules, default).out;
    CountIsExact(rules, default);
    FillAdds(out, default);
    assert r in FillBetween(out, default) || IsFiller(r, default);
  }

  /** A number no rule names falls into a range that takes the default action. */
  lemma UnnamedTakesDefault(rules: seq<RangeRule>, default: int, n: nat)
    requires AreSourceRules(rules) && IsAction(default) && n <= MAX_SYSCALL_NR
    requires forall i :: 0 <= i < |rules| ==> rules[i].first != n
    ensures FindRule(Normalize(rules, default), n).action == default
  {
    hide IsTakenIn, IsSourceRule, Normalize, IsOrdered, AreAllEnded, FindRule;
    if rules == [] {
      EmptyTakesDefault(default, n);
    } else {
      var r := FindRule(Normalize(rules, default), n);
      NormalizeKeepsLists(rules, default, n);
      SequenceAbsent(rules, n);
      NormalizedRuleIsKept(rules, default, r);
      CountIsExact(rules, default);
      assert Effective(r, default) == [Mapping(None, default)];
      var out := CountMissing(rules, default).out;
      ConditionalIsNotPlain(r, default);
      if r in out {
        var k :| 0 <= k < |out| && out[k] == r;
      }
    }
  }

  lemma ConditionalIsNotPlain(r: RangeRule, default: int)
    ensures r.action == CONDITIONAL && r.mappings != [] && r.mappings[0].condition.Some? ==>
            Effective(r, default) != [Mapping(None, default)]
  {
    assert r.action == CONDITIONAL && r.mappings != [] ==> Effective(r, default)[0] == r.mappings[0];
  }

  lemma EmptyTakesDefault(default: int, n: nat)
    ensures FindRule(Normalize([], default), n).action == default
  {
  }
}
