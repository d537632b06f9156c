/**
  Normalising sorted rules into ranges that cover all syscall numbers, as functions: a first
  pass merges rules and counts the gaps it leaves, a second pass fills them.
 */
module Normalizing {
  import opened Options
  import opened Expression
  import opened Policy
  import opened RangeRules

  // ----- source rules -----

  /** A rule as flattening makes it: one number, and either a plain action or one condition. */
  predicate IsSourceRule(rule: RangeRule) {
    && 0 <= rule.first == rule.last <= MAX_SYSCALL_NR
    && if rule.action == CONDITIONAL then
         && |rule.mappings| == 1 && rule.mappings[0].condition.Some?
         && IsNormal(rule.mappings[0].condition.value) && IsAction(rule.mappings[0].action)
       else IsAction(rule.action) && rule.mappings == []
  }

  predicate AreSourceRules(rules: seq<RangeRule>) {
    && (forall i :: 0 <= i < |rules| ==> IsSourceRule(rules[i]))
    && (forall i, j :: 0 <= i < j < |rules| ==> rules[i].first <= rules[j].first)
  }

  // ----- what the source rules say about one number -----

  function MappingOf(rule: RangeRule): Mapping
    requires IsSourceRule(rule)
  {
    if rule.action == CONDITIONAL then rule.mappings[0] else Mapping(None, rule.action)
  }

  /** The list ends in an unconditional action. */
  predicate IsEnded(mappings: seq<Mapping>) {
    mappings != [] && mappings[|mappings| - 1].condition.None?
  }

  function Terminated(mappings: seq<Mapping>, default: int): seq<Mapping> {
    if IsEnded(mappings) then mappings else mappings + [Mapping(None, default)]
  }

  /** The conditions on number `n` in source order, up to the first unconditional one. */
  function Sequence(rules: seq<RangeRule>, n: int): (mappings: seq<Mapping>)
    requires forall i :: 0 <= i < |rules| ==> IsSourceRule(rules[i])
  {
    if rules == [] then []
    else
      var last := rules[|rules| - 1];
      var before := Sequence(rules[..|rules| - 1], n);
      if last.first != n || IsEnded(before) then before else before + [MappingOf(last)]
  }

  /** What the rules prescribe for number `n`: the first condition that holds, else the default. */
  function Prescribed(rules: seq<RangeRule>, n: int, default: int): (mappings: seq<Mapping>)
    requires forall i :: 0 <= i < |rules| ==> IsSourceRule(rules[i])
  {
    Terminated(Sequence(rules, n), default)
  }

  // ----- the first pass -----

  function Gap(first: int, last: int, default: int): RangeRule {
    RangeRule(first, last, default, 0, [])
  }

  /** Close an open list of conditions with the default action. */
  function NormalizeList(rule: RangeRule, default: int): RangeRule {
    if rule.mappings != [] && !IsEnded(rule.mappings) then
      rule.(action := CONDITIONAL, mappings := rule.mappings + [Mapping(None, default)])
    else rule
  }

  /** A further rule on the number the last range ends at. */
  function Merge(prev: RangeRule, cur: RangeRule): RangeRule {
    if prev.action != CONDITIONAL then prev
    else if cur.action != CONDITIONAL then prev.(mappings := prev.mappings + [Mapping(None, cur.action)])
    else if prev.mappings != [] && !IsEnded(prev.mappings) then prev.(mappings := prev.mappings + cur.mappings)
    else prev
  }

  /** Ranges built so far and the number of gaps left for the second pass. */
  datatype Pass = Pass(out: seq<RangeRule>, missing: nat)

  /** Take in the `i`-th rule. A gap before it is given to a neighbour with the default action,
      or takes a slot freed by an earlier merge, or is counted as missing. */
  function Step(p: Pass, cur: RangeRule, i: nat, default: int): (p': Pass)
    requires p.out != []
    ensures p'.out != []
  {
    var k := |p.out| - 1;
    var prev := p.out[k];
    if cur.first == prev.last then Pass(p.out[k := Merge(prev, cur)], p.missing)
    else if cur.first == prev.last + 1 then
      if prev.action != CONDITIONAL && prev.action == cur.action then
        Pass(p.out[k := prev.(last := cur.last)], p.missing)
      else Pass(p.out + [NormalizeList(cur, default)], p.missing)
    else if prev.action == default then
      Pass(p.out[k := prev.(last := cur.first - 1)] + [NormalizeList(cur, default)], p.missing)
    else if cur.action == default then
      Pass(p.out + [NormalizeList(cur.(first := prev.last + 1), default)], p.missing)
    else if |p.out| < i then
      Pass(p.out + [Gap(prev.last + 1, cur.first - 1, default), NormalizeList(cur, default)], p.missing)
    else Pass(p.out + [NormalizeList(cur, default)], p.missing + 1)
  }

  /** The first pass over the first `i` rules. */
  function Steps(rules: seq<RangeRule>, i: nat, default: int): (p: Pass)
    requires 1 <= i <= |rules|
    ensures p.out != []
  {
    if i == 1 then Pass([rules[0]], 0)
    else Step(Steps(rules, i - 1, default), rules[i - 1], i - 1, default)
  }

  /** Close the first list and stretch the first range down to 0 if it takes the default. */
  function StretchFirst(p: Pass, default: int): (p': Pass)
    requires p.out != []
    ensures p'.out != []
  {
    var first := NormalizeList(p.out[0], default);
    if first.first == 0 then Pass(p.out[0 := first], p.missing)
    else if first.action == default then Pass(p.out[0 := first.(first := 0)], p.missing)
    else Pass(p.out[0 := first], p.missing + 1)
  }

  /** Stretch the last range up to the greatest number if it takes the default. */
  function StretchLast(p: Pass, default: int): (p': Pass)
    requires p.out != []
    ensures p'.out != []
  {
    var k := |p.out| - 1;
    if p.out[k].last == MAX_SYSCALL_NR then p
    else if p.out[k].action == default then
      Pass(p.out[k := p.out[k].(last := MAX_SYSCALL_NR)], p.missing)
    else p.(missing := p.missing + 1)
  }

  function CountMissing(rules: seq<RangeRule>, default: int): (p: Pass)
    requires rules != []
    ensures p.out != []
  {
    StretchLast(StretchFirst(Steps(rules, |rules|, default), default), default)
  }

  // ----- the second pass -----

  predicate IsGap(prev: RangeRule, next: RangeRule) {
    next.first != prev.last + 1
  }

  /** The ranges with every interior gap filled. */
  function FillBetween(out: seq<RangeRule>, default: int): (full: seq<RangeRule>)
    requires out != []
    ensures full != []
  {
    var k := |out| - 1;
    if k == 0 then out
    else
      FillBetween(out[..k], default)
      + (if IsGap(out[k - 1], out[k]) then [Gap(out[k - 1].last + 1, out[k].first - 1, default)] else [])
      + [out[k]]
  }

  /** The filled ranges, with the gap below the first one in front. */
  function WithHead(out: seq<RangeRule>, default: int): (full: seq<RangeRule>)
    requires out != []
    ensures full != []
  {
    (if out[0].first == 0 then [] else [Gap(0, out[0].first - 1, default)]) + FillBetween(out, default)
  }

  function AddMissing(out: seq<RangeRule>, default: int): (full: seq<RangeRule>)
    requires out != []
    ensures full != []
  {
    var last := out[|out| - 1].last;
    if last == MAX_SYSCALL_NR then WithHead(out, default)
    else WithHead(out, default) + [Gap(last + 1, MAX_SYSCALL_NR, default)]
  }

  /** The normal form of sorted rules: ranges that cover every syscall number. */
  function Normalize(rules: seq<RangeRule>, default: int): (full: seq<RangeRule>)
    ensures full != []
  {
    if rules == [] then [Gap(0, MAX_SYSCALL_NR, default)]
    else AddMissing(CountMissing(rules, default).out, default)
  }
}
