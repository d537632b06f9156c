/**
  The table of range rules as it is worked on: an array that grows, is sorted and is then
  normalised in place by two passes.
 */
module RangeRuleTable {
  import opened Options
  import opened Expression
  import opened Policy
  import opened RangeRules
  import opened Normalizing
  import opened Coverage
  import opened Flattening
  import opened Sorting

  /** Equal in everything the code generator reads: the last number of a range is not. */
  predicate SameButLast(a: RangeRule, b: RangeRule) {
    a.first == b.first && a.action == b.action && a.mappings == b.mappings
  }

  predicate AllSameButLast(a: seq<RangeRule>, b: seq<RangeRule>) {
    |a| == |b| && forall i :: 0 <= i < |a| ==> SameButLast(a[i], b[i])
  }

  /** Equal in everything that is written; the priority of a gap is not. */
  predicate SameButPriority(a: RangeRule, b: RangeRule) {
    SameButLast(a, b) && a.last == b.last
  }

  /** The place of the lowest gap between ranges, or the number of ranges. */
  function FirstGap(out: seq<RangeRule>): (k: nat)
    requires out != []
    ensures 0 < k <= |out| && (k < |out| ==> IsGap(out[k - 1], out[k]))
    ensures forall i :: 0 < i < k ==> !IsGap(out[i - 1], out[i])
  {
    var m := |out| - 1;
    if m == 0 then 1
    else
      var k := FirstGap(out[..m]);
      if k < m then k else if IsGap(out[m - 1], out[m]) then m else |out|
  }

  /** The completed ranges as the second pass writes them. If nothing is missing below the first
      range, the lowest gap is written over the range whose first number it ends before, and the
      number read there is its own. */
  function Written(out: seq<RangeRule>, full: seq<RangeRule>): (r: seq<RangeRule>)
    requires out != []
    ensures |r| == |full|
  {
    var k := FirstGap(out);
    if HeadGap(out) == 0 && k < |out| && k < |full| then full[k := full[k].(last := full[k].first - 1)] else full
  }

  predicate AreWritten(rules: seq<RangeRule>, full: seq<RangeRule>) {
    |rules| == |full| && forall k :: 0 <= k < |rules| ==> SameButPriority(rules[k], full[k])
  }

  lemma WrittenIsSame(rules: seq<RangeRule>, out: seq<RangeRule>, full: seq<RangeRule>)
    requires out != [] && AreWritten(rules, Written(out, full))
    ensures AllSameButLast(rules, full)
  {
  }

  class Table {
    var data: array<RangeRule>
    var len: nat

    ghost predicate Valid()
      reads this
    {
      len <= data.Length
    }

    ghost function Rules(): seq<RangeRule>
      requires Valid()
      reads this, data
    {
      data[..len]
    }

    constructor ()
      ensures Valid() && Rules() == [] && fresh(data)
    {
      data := new RangeRule[16](_ => Gap(0, 0, 0));
      len := 0;
    }

    /** Make room for further rules, moving the table if it is too small. */
    method Grow(minGrowth: nat)
      requires Valid()
      modifies this`data
      ensures Valid() && len + minGrowth <= data.Length && Rules() == old(Rules())
      ensures data == old(data) || fresh(data)
    {
      if len + minGrowth <= data.Length {
        return;
      }
      var capacity := if data.Length * 2 < len + minGrowth then len + minGrowth else data.Length * 2;
      var bigger := new RangeRule[capacity](_ => Gap(0, 0, 0));
      for i := 0 to len
        invariant bigger[..i] == data[..i]
        modifies bigger
      {
        bigger[i] := data[i];
      }
      data := bigger;
    }

    method AddRangeRule(rule: RangeRule)
      requires Valid()
      modifies this, data
      ensures Valid() && Rules() == old(Rules()) + [rule.(priority := old(len) + 1)]
      ensures data == old(data) || fresh(data)
    {
      Grow(1);
      data[len] := rule.(priority := len + 1);
      len := len + 1;
      assert data[..len] == data[..len - 1] + [rule.(priority := len)];
    }

    method AddFilters(action: int, filters: seq<Filter>)
      requires Valid()
      modifies this, data
      ensures Valid() && Rules() == Flattening.AddFilters(old(Rules()), action, filters)
      ensures data == old(data) || fresh(data)
    {
      hide Simplify;
      ghost var was := Rules();
      for i := 0 to |filters|
        invariant Valid() && (data == old(data) || fresh(data))
        invariant Flattening.AddFilters(Rules(), action, filters[i..]) == Flattening.AddFilters(was, action, filters)
      {
        var f := filters[i];
        assert filters[i..][1..] == filters[i + 1..] && filters[i..][0] == f;
        var condition := if f.condition.Some? then Simplify(f.condition.value) else True;
        if condition.False? {
          assert Rules() + [] == Rules();
          continue;
        }
        if condition.True? {
          AddRangeRule(RangeRule(f.nr, f.nr, action, 0, []));
        } else {
          AddRangeRule(RangeRule(f.nr, f.nr, CONDITIONAL, 0, [Mapping(Some(condition), action)]));
        }
      }
    }

    method AddPolicyRules(entries: seq<Entry>)
      requires Valid()
      modifies this, data
      ensures Valid() && Rules() == Flattening.AddPolicyRules(old(Rules()), entries)
      ensures data == old(data) || fresh(data)
      decreases entries
    {
      hide Flattening.AddFilters;
      ghost var was := Rules();
      for i := 0 to |entries|
        invariant Valid() && (data == old(data) || fresh(data))
        invariant Flattening.AddPolicyRules(Rules(), entries[i..]) == Flattening.AddPolicyRules(was, entries)
      {
        assert entries[i..][1..] == entries[i + 1..] && entries[i..][0] == entries[i];
        match entries[i]
        case Use(used) => AddPolicyRules(used);
        case Block(action, filters) => AddFilters(action, filters);
      }
    }

    /** Exchange a rule with the one before it. */
    method SwapRules(j: nat)
      requires Valid() && 0 < j < len
      modifies data
      ensures data[..] == old(data[..])[j - 1 := old(data[j])][j := old(data[j - 1])]
      ensures multiset(Rules()) == old(multiset(Rules()))
    {
      ghost var was := Rules();
      data[j - 1], data[j] := data[j], data[j - 1];
      SwapPermutes(was, j);
      assert Rules() == was[j - 1 := was[j]][j := was[j - 1]];
    }

    /** Let the `i`-th rule sink to its place among the rules before it. */
    method SinkRule(i: nat)
      requires Valid() && i < len && IsInOrder(data[..i])
      modifies data
      ensures IsInOrder(data[..i + 1]) && multiset(Rules()) == old(multiset(Rules()))
    {
      hide ByNumberAndPriority, IsSinking, IsInOrder;
      var j := i;
      assert data[..i] == data[..][..i];
      SinkStarts(data[..], i);
      while j > 0 && ByNumberAndPriority(data[j - 1], data[j]) > 0
        invariant 0 <= j <= i && IsSinking(data[..], i, j)
        invariant multiset(Rules()) == old(multiset(Rules()))
      {
        SinkGoesOn(data[..], i, j);
        SwapRules(j);
        j := j - 1;
      }
      SinkStops(data[..], i, j);
      assert data[..i + 1] == data[..][..i + 1];
    }

    /** Put the table in order. */
    method SortRangeRules()
      requires Valid()
      modifies data
      ensures IsInOrder(Rules()) && multiset(Rules()) == old(multiset(Rules()))
    {
      for i := 0 to len
        invariant IsInOrder(data[..i]) && multiset(Rules()) == old(multiset(Rules()))
      {
        SinkRule(i);
      }
    }

    /** Close an open list of conditions with the default action. */
    method NormalizeExprList(i: nat, default: int)
      requires Valid() && i < data.Length
      modifies data
      ensures data[..] == old(data[..])[i := NormalizeList(old(data[i]), default)]
    {
      var rule := data[i];
      if rule.mappings != [] && rule.mappings[|rule.mappings| - 1].condition.Some? {
        data[i] := rule.(action := CONDITIONAL, mappings := rule.mappings + [Mapping(None, default)]);
      }
    }

    /** Take in the `i`-th rule behind the `j` ranges built so far. */
    method TakeIn(i: nat, j: nat, missing: nat, default: int) returns (j': nat, missing': nat)
      requires Valid() && 1 <= j <= i < len
      modifies data
      ensures var p := Step(Pass(old(data[..j]), missing), old(data[i]), i, default);
              j' == |p.out| <= i + 1 && data[..j'] == p.out && missing' == p.missing
      ensures data[i + 1..] == old(data[i + 1..])
    {
      j', missing' := j, missing;
      var cur, prev := data[i], data[j - 1];
      if cur.first == prev.last {
        data[j - 1] := Merge(prev, cur);
        return;
      }
      if cur.first == prev.last + 1 {
        if prev.action != CONDITIONAL && prev.action == cur.action {
          data[j - 1] := prev.(last := cur.last);
          return;
        }
      } else if prev.action == default {
        data[j - 1] := prev.(last := cur.first - 1);
      } else if cur.action == default {
        data[i] := cur.(first := prev.last + 1);
      } else if j < i {
        data[j] := Gap(prev.last + 1, cur.first - 1, default);
        j' := j' + 1;
      } else {
        missing' := missing' + 1;
      }
      NormalizeExprList(i, default);
      data[j'] := data[i];
      j' := j' + 1;
    }

    /** First pass: merge rules into ranges and count the gaps that remain. */
    method NormalizeRulesCountMissing(default: int) returns (missing: nat)
      requires Valid() && len > 0
      modifies this`len, data
      ensures Valid() && len <= old(len)
      ensures Pass(Rules(), missing) == CountMissing(old(Rules()), default)
    {
      hide Step, NormalizeList;
      ghost var rules := Rules();
      var n, j := len, 1;
      missing := 0;
      assert data[..1] == [rules[0]];
      for i := 1 to n
        invariant len == n && 1 <= j <= i
        invariant Pass(data[..j], missing) == Steps(rules, i, default)
        invariant data[i..n] == rules[i..]
      {
        assert data[i] == data[i..n][0] == rules[i] && data[i + 1..n] == data[i..n][1..];
        assert Steps(rules, i + 1, default) == Step(Steps(rules, i, default), rules[i], i, default);
        j, missing := TakeIn(i, j, missing, default);
        assert data[i + 1..n] == data[i + 1..][..n - i - 1];
      }
      len := j;
      ghost var p := Steps(rules, n, default);
      NormalizeExprList(0, default);
      assert data[..j] == p.out[0 := NormalizeList(p.out[0], default)];
      if data[0].first != 0 {
        if data[0].action == default {
          data[0] := data[0].(first := 0);
        } else {
          missing := missing + 1;
        }
      }
      assert Pass(data[..j], missing) == StretchFirst(p, default);
      if data[j - 1].last != MAX_SYSCALL_NR {
        if data[j - 1].action == default {
          data[j - 1] := data[j - 1].(last := MAX_SYSCALL_NR);
        } else {
          missing := missing + 1;
        }
      }
    }

    /** Put the `i`-th range and the gap after it, if any, where they belong in the completed
        table. The range after the gap is looked up where it used to stand, and the gap may be
        written over just that place: then the gap's last number comes out wrong. */
    method PlaceRange(i: nat, rest: nat, hasNext: bool, default: int) returns (rest': nat)
      requires Valid() && 0 < i && i + rest <= len && (hasNext ==> i < data.Length)
      requires hasNext && IsGap(data[i - 1], data[i]) ==> rest > 0
      modifies data
      ensures var gap := hasNext && IsGap(old(data[i - 1]), old(data[i]));
              && rest' == rest - (if gap then 1 else 0)
              && (gap ==>
                    var (first, next) := (old(data[i - 1]).last + 1, if rest == 1 then old(data[i - 1]).last + 1
                                                                     else old(data[i]).first);
                    SameButPriority(data[i - 1 + rest], Gap(first, next - 1, default)))
              && data[i - 1 + rest'] == old(data[i - 1])
      ensures data[i - 1].first == old(data[i - 1]).first
      ensures forall k :: 0 <= k < i - 1 || i + rest <= k < data.Length ==> data[k] == old(data[k])
    {
      var dst := i - 1 + rest;
      rest' := rest;
      if hasNext && data[i].first != data[i - 1].last + 1 {
        data[dst] := data[dst].(first := data[i - 1].last + 1);
        data[dst] := data[dst].(last := data[i].first - 1);
        data[dst] := data[dst].(action := default, mappings := []);
        rest' := rest' - 1;
        dst := dst - 1;
      }
      if dst != i - 1 {
        data[dst] := data[i - 1];
      }
    }

    /** Spread the ranges out from the end, filling the gaps between them. */
    method SpreadRanges(count: nat, room: nat, ghost out: seq<RangeRule>, default: int) returns (rest: nat)
      requires Valid() && 0 < count == |out| <= len && IsOrdered(out) && data[..count] == out
      requires count + room == |WithHead(out, default)| <= len
      modifies data
      ensures rest == HeadGap(out)
      ensures forall k :: rest <= k < count + room ==> SameButPriority(data[k], Written(out, WithHead(out, default))[k])
      ensures forall k :: count + room <= k < data.Length ==> data[k] == old(data[k])
    {
      hide SameButPriority, IsOrdered, Gaps, FirstsIncrease, FillBetween, WithHead, HeadGap, Written;
      ghost var mid := Written(out, WithHead(out, default));
      WholeRoom(out, default);
      rest := room;
      var i := count;
      while i > 0
        invariant 0 <= i <= count
        invariant i + rest == if i == count then |mid| else Room(out, i + 1) - 1
        invariant forall k :: 0 <= k < i ==> data[k] == out[k]
        invariant i < count ==> data[i].first == out[i].first
        invariant forall k :: i + rest <= k < |mid| ==> SameButPriority(data[k], mid[k])
        invariant forall k :: |mid| <= k < data.Length ==> data[k] == old(data[k])
      {
        WrittenAt(out, i, default);
        RangeIsItself(out[i - 1]);
        rest := PlaceRange(i, rest, i < count, default);
        i := i - 1;
      }
      RoomOfFirst(out);
    }

    /** Second pass: fill every gap. */
    method AddMissingRules(missing: nat, default: int)
      requires Valid() && len > 0 && IsOrdered(Rules())
      requires missing == HeadGap(Rules()) + Gaps(Rules()) + TailGap(Rules())
      modifies this, data
      ensures Valid() && AreWritten(Rules(), Written(old(Rules()), AddMissing(old(Rules()), default)))
    {
      hide IsOrdered, Gaps, FirstsIncrease, WithHead, Written, SameButPriority, AreWritten;
      ghost var out := Rules();
      WithHeadShape(out, default);
      var oldlen, rest := len, missing;
      Grow(missing);
      len := oldlen + missing;
      assert forall k :: 0 <= k < oldlen ==> data[k] == out[k];
      if data[oldlen - 1].last != MAX_SYSCALL_NR {
        data[len - 1] := Gap(data[oldlen - 1].last + 1, MAX_SYSCALL_NR, default);
        rest := rest - 1;
      }
      rest := SpreadRanges(oldlen, rest, out, default);
      if rest == 1 {
        data[0] := Gap(0, data[1].first - 1, default);
      }
      AllIsWritten(data[..len], out, default);
    }

    /** Sort the rules and normalise them into ranges that cover every number. */
    method NormalizeRules(default: int)
      requires Valid() && AreNumbered(Rules()) && IsAction(default)
      modifies this, data
      ensures Valid() && AllSameButLast(Rules(), Normalize(Sorted(old(Rules())), default))
      ensures old(len) > 0 ==>
                var sorted := Sorted(old(Rules()));
                sorted != [] &&
                AreWritten(Rules(), Written(CountMissing(sorted, default).out, Normalize(sorted, default)))
    {
      hide AreNumbered, AreSourceRules, AreLists, AreAllEnded, Sorted, AddMissing, CountMissing, IsAction, Written,
           AreWritten, AllSameButLast;
      if len == 0 {
        NothingSorts();
        AddRangeRule(Gap(0, MAX_SYSCALL_NR, default));
        SingleIsSame(Rules(), default);
        return;
      }
      SortedAreSourceRules(Rules());
      SortRangeRules();
      OrderIsSorted(old(Rules()), Rules());
      CountIsExact(Rules(), default);
      var missing := NormalizeRulesCountMissing(default);
      ghost var out := Rules();
      AddMissingRules(missing, default);
      WrittenIsSame(Rules(), out, AddMissing(out, default));
    }
  }

  lemma SingleIsSame(rules: seq<RangeRule>, default: int)
    requires |rules| == 1 && SameButLast(rules[0], Gap(0, MAX_SYSCALL_NR, default))
    ensures AllSameButLast(rules, Normalize([], default))
  {
  }

  lemma NothingSorts()
    ensures Sorted([]) == []
  {
  }

  // ----- where the second pass puts things -----

  lemma {:induction false} FillPrefix(out: seq<RangeRule>, i: nat, default: int)
    requires 0 < i <= |out|
    ensures FillBetween(out[..i], default) <= FillBetween(out, default)
    decreases |out|
  {
    var k := |out| - 1;
    if i <= k {
      FillPrefix(out[..k], i, default);
      assert out[..k][..i] == out[..i];
    } else {
      assert out[..i] == out;
    }
  }

  /** How many rules the first `i` ranges become, with the head gap and the gaps between. */
  function Room(out: seq<RangeRule>, i: nat): nat
    requires 0 < i <= |out|
  {
    i + HeadGap(out) + Gaps(out[..i])
  }

  lemma WholeRoom(out: seq<RangeRule>, default: int)
    requires out != [] && IsOrdered(out)
    ensures |WithHead(out, default)| == Room(out, |out|)
  {
    hide FillBetween, Gaps, FirstsIncrease;
    WithHeadShape(out, default);
    assert out[..|out|] == out;
  }

  lemma RoomOfFirst(out: seq<RangeRule>)
    requires out != []
    ensures Room(out, 1) == 1 + HeadGap(out)
  {
  }

  /** In the completed table the `i`-th range and the gap after it stand where the second pass
      puts them. */
  lemma FilledAt(out: seq<RangeRule>, i: nat, default: int)
    requires 0 < i <= |out| && IsOrdered(out)
    ensures var full := WithHead(out, default);
            && Room(out, i) <= |full| && full[Room(out, i) - 1] == out[i - 1]
            && (i < |out| ==> Room(out, i + 1) == Room(out, i) + 1 + if IsGap(out[i - 1], out[i]) then 1 else 0)
            && (i < |out| && IsGap(out[i - 1], out[i]) ==>
                  Room(out, i) < |full| && full[Room(out, i)] == Gap(out[i - 1].last + 1, out[i].first - 1, default))
  {
    hide IsOrdered, FirstsIncrease;
    OrderedTake(out, i);
    FillShape(out[..i], default);
    FillPrefix(out, i, default);
    var part := FillBetween(out[..i], default);
    assert part[|part| - 1] == FillBetween(out, default)[|part| - 1];
    if i < |out| {
      FilledNext(out, i, default);
    }
  }

  /** The gap after the `i`-th range. */
  lemma FilledNext(out: seq<RangeRule>, i: nat, default: int)
    requires 0 < i < |out| && IsOrdered(out)
    ensures var full := WithHead(out, default);
            && Room(out, i + 1) == Room(out, i) + 1 + (if IsGap(out[i - 1], out[i]) then 1 else 0)
            && (IsGap(out[i - 1], out[i]) ==>
                  Room(out, i) < |full| && full[Room(out, i)] == Gap(out[i - 1].last + 1, out[i].first - 1, default))
  {
    hide IsOrdered, FirstsIncrease;
    OrderedTake(out, i);
    OrderedTake(out, i + 1);
    FillShape(out[..i], default);
    FillShape(out[..i + 1], default);
    FillPrefix(out, i + 1, default);
    assert out[..i + 1][..i] == out[..i];
    if IsGap(out[i - 1], out[i]) {
      var part, more := FillBetween(out[..i], default), FillBetween(out[..i + 1], default);
      assert more[|part|] == FillBetween(out, default)[|part|];
    }
  }

  lemma RangeIsItself(r: RangeRule)
    ensures SameButPriority(r, r)
  {
  }

  lemma {:induction false} GapsBelow(out: seq<RangeRule>, i: nat)
    requires 0 < i <= |out|
    ensures Gaps(out[..i]) == 0 <==> i <= FirstGap(out)
    decreases i
  {
    if i > 1 {
      GapsBelow(out, i - 1);
      assert out[..i][..i - 1] == out[..i - 1];
    }
  }

  /** Where the second pass puts the `i`-th range and the gap after it, and what it reads there. */
  lemma WrittenAt(out: seq<RangeRule>, i: nat, default: int)
    requires 0 < i <= |out| && IsOrdered(out)
    ensures var mid := Written(out, WithHead(out, default));
            && Room(out, i) <= |mid| && mid[Room(out, i) - 1] == out[i - 1]
            && (i < |out| ==> Room(out, i + 1) == Room(out, i) + 1 + if IsGap(out[i - 1], out[i]) then 1 else 0)
            && (i < |out| && IsGap(out[i - 1], out[i]) ==>
                  var (first, next) := (out[i - 1].last + 1, if Room(out, i) == i then out[i - 1].last + 1
                                                             else out[i].first);
                  Room(out, i) < |mid| && mid[Room(out, i)] == Gap(first, next - 1, default))
  {
    hide IsOrdered, FirstsIncrease, Gaps, WithHead;
    FilledAt(out, i, default);
    GapsBelow(out, i);
  }

  /** Ranges, head gap and tail gap make the completed table. */
  lemma AllIsWritten(rules: seq<RangeRule>, out: seq<RangeRule>, default: int)
    requires out != [] && IsOrdered(out) && |rules| == |WithHead(out, default)| + TailGap(out) && |rules| > HeadGap(out)
    requires forall k :: HeadGap(out) <= k < |WithHead(out, default)| ==>
               SameButPriority(rules[k], Written(out, WithHead(out, default))[k])
    requires HeadGap(out) == 1 ==> rules[0] == Gap(0, rules[1].first - 1, default)
    requires TailGap(out) == 1 ==> rules[|rules| - 1] == Gap(out[|out| - 1].last + 1, MAX_SYSCALL_NR, default)
    ensures AreWritten(rules, Written(out, AddMissing(out, default)))
  {
    hide IsOrdered, Gaps, FirstsIncrease, FillBetween;
    var mid, full := WithHead(out, default), AddMissing(out, default);
    WithHeadShape(out, default);
    FillShape(out, default);
    assert FirstGap(out) < |out| ==> FirstGap(out) < |mid|;
    assert forall k :: 0 <= k < |mid| ==> full[k] == mid[k];
    if HeadGap(out) == 1 {
      assert mid[1] == FillBetween(out, default)[0];
      assert SameButPriority(rules[1], mid[1]);
    }
    assert forall k :: HeadGap(out) <= k < |mid| ==> Written(out, full)[k] == Written(out, mid)[k];
  }

  lemma OrderedTake(out: seq<RangeRule>, i: nat)
    requires IsOrdered(out) && i <= |out|
    ensures IsOrdered(out[..i])
  {
  }
}
