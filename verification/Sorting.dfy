/**
  Sorting rules by number and, on one number, by the order in which they were added.
 */
module Sorting {
  import opened RangeRules
  import opened Normalizing
  import opened Coverage
  import opened Flattening

  /** The comparison function of the sort. */
  function ByNumberAndPriority(a: RangeRule, b: RangeRule): (r: int) {
    if a.first < b.first then -1
    else if a.first == b.first && a.priority < b.priority then -1
    else if a.first == b.first && a.priority == b.priority then 0
    else 1
  }

  /** No two rules out of order, and none equal. */
  predicate IsSorted(rules: seq<RangeRule>) {
    forall i, j :: 0 <= i < j < |rules| ==> ByNumberAndPriority(rules[i], rules[j]) < 0
  }

  /** No two rules out of order. */
  predicate IsInOrder(rules: seq<RangeRule>) {
    forall i, j :: 0 <= i < j < |rules| ==> ByNumberAndPriority(rules[i], rules[j]) <= 0
  }

  function Insert(rules: seq<RangeRule>, r: RangeRule): seq<RangeRule> {
    var k := |rules| - 1;
    if k < 0 || ByNumberAndPriority(r, rules[k]) >= 0 then rules + [r]
    else Insert(rules[..k], r) + [rules[k]]
  }

  function Sorted(rules: seq<RangeRule>): seq<RangeRule> {
    var k := |rules| - 1;
    if k < 0 then [] else Insert(Sorted(rules[..k]), rules[k])
  }

  lemma {:induction false} InsertPermutes(rules: seq<RangeRule>, r: RangeRule)
    ensures multiset(Insert(rules, r)) == multiset(rules) + multiset{r}
  {
    var k := |rules| - 1;
    if k >= 0 {
      InsertPermutes(rules[..k], r);
      assert rules == rules[..k] + [rules[k]];
    }
  }

  lemma {:induction false} SortedPermutes(rules: seq<RangeRule>)
    ensures multiset(Sorted(rules)) == multiset(rules)
  {
    var k := |rules| - 1;
    if k >= 0 {
      SortedPermutes(rules[..k]);
      InsertPermutes(Sorted(rules[..k]), rules[k]);
      assert rules == rules[..k] + [rules[k]];
    }
  }

  lemma MembersOfPermutation(a: seq<RangeRule>, b: seq<RangeRule>)
    requires multiset(a) == multiset(b)
    ensures forall r :: r in a <==> r in b
  {
    assert forall r :: r in a <==> r in multiset(a);
    assert forall r :: r in b <==> r in multiset(b);
  }

  predicate IsBelow(rules: seq<RangeRule>, r: RangeRule) {
    forall i :: 0 <= i < |rules| ==> ByNumberAndPriority(rules[i], r) < 0
  }

  lemma SortedAppend(rules: seq<RangeRule>, r: RangeRule)
    requires IsSorted(rules) && IsBelow(rules, r)
    ensures IsSorted(rules + [r])
  {
    hide ByNumberAndPriority;
  }

  /** The comparison is transitive, so what follows the last rule follows them all. */
  lemma AboveLast(rules: seq<RangeRule>, r: RangeRule)
    requires IsSorted(rules) && (rules != [] ==> ByNumberAndPriority(rules[|rules| - 1], r) < 0)
    ensures IsBelow(rules, r)
  {
    forall i | 0 <= i < |rules| ensures ByNumberAndPriority(rules[i], r) < 0 {
      assert i < |rules| - 1 ==> ByNumberAndPriority(rules[i], rules[|rules| - 1]) < 0;
    }
  }

  lemma BelowPermutation(a: seq<RangeRule>, b: seq<RangeRule>, r: RangeRule)
    requires IsBelow(a, r) && multiset(a) == multiset(b)
    ensures IsBelow(b, r)
  {
    hide ByNumberAndPriority;
    MembersOfPermutation(a, b);
    forall i | 0 <= i < |b| ensures ByNumberAndPriority(b[i], r) < 0 {
      assert b[i] in a;
    }
  }

  lemma {:induction false} InsertSorts(rules: seq<RangeRule>, r: RangeRule)
    requires IsSorted(rules) && forall q :: q in rules ==> q.priority != r.priority
    ensures IsSorted(Insert(rules, r))
  {
    hide IsSorted, IsBelow, ByNumberAndPriority;
    var k := |rules| - 1;
    if k >= 0 && ByNumberAndPriority(r, rules[k]) < 0 {
      SortedPrefix(rules, k);
      InsertSorts(rules[..k], r);
      InsertPermutes(rules[..k], r);
      LastIsAbove(rules, r);
      BelowPermutation(rules[..k] + [r], Insert(rules[..k], r), rules[k]);
      SortedAppend(Insert(rules[..k], r), rules[k]);
    } else {
      if k >= 0 {
        DistinctCompare(r, rules[k]);
      }
      AboveLast(rules, r);
      SortedAppend(rules, r);
    }
  }

  lemma LastIsAbove(rules: seq<RangeRule>, r: RangeRule)
    requires IsSorted(rules) && rules != [] && ByNumberAndPriority(r, rules[|rules| - 1]) < 0
    ensures IsBelow(rules[..|rules| - 1] + [r], rules[|rules| - 1])
  {
    hide ByNumberAndPriority;
  }

  lemma DistinctCompare(a: RangeRule, b: RangeRule)
    requires a.priority != b.priority
    ensures ByNumberAndPriority(a, b) < 0 || ByNumberAndPriority(b, a) < 0
    ensures !(ByNumberAndPriority(a, b) < 0 && ByNumberAndPriority(b, a) < 0)
  {
  }

  lemma {:induction false} SortedSorts(rules: seq<RangeRule>)
    requires AreNumbered(rules)
    ensures IsSorted(Sorted(rules))
  {
    hide IsSourceRule, IsSorted, Insert;
    var k := |rules| - 1;
    if k >= 0 {
      SortedSorts(rules[..k]);
      SortedPermutes(rules[..k]);
      MembersOfPermutation(Sorted(rules[..k]), rules[..k]);
      InsertSorts(Sorted(rules[..k]), rules[k]);
    } else {
      assert IsSorted([]) by { EmptyIsSorted(); }
    }
  }

  lemma EmptyIsSorted()
    ensures IsSorted([])
  {
  }

  /** Whatever sorting algorithm is used, the result is the same. */
  lemma {:induction false} SortIsUnique(s: seq<RangeRule>, t: seq<RangeRule>)
    requires IsSorted(s) && IsSorted(t) && multiset(s) == multiset(t)
    ensures s == t
  {
    hide IsSorted;
    SameSize(s, t);
    var k := |s| - 1;
    if k >= 0 {
      SameGreatest(s, t);
      assert s == s[..k] + [s[k]] && t == t[..k] + [t[k]];
      SortedPrefix(s, k);
      SortedPrefix(t, k);
      assert multiset(s[..k]) == multiset(s) - multiset{s[k]};
      SortIsUnique(s[..k], t[..k]);
    }
  }

  lemma SortedPrefix(s: seq<RangeRule>, k: nat)
    requires IsSorted(s) && k <= |s|
    ensures IsSorted(s[..k])
  {
  }

  lemma SameGreatest(s: seq<RangeRule>, t: seq<RangeRule>)
    requires IsSorted(s) && IsSorted(t) && multiset(s) == multiset(t) && |s| == |t| > 0
    ensures s[|s| - 1] == t[|s| - 1]
  {
    var k := |s| - 1;
    MembersOfPermutation(s, t);
    assert s[k] in s && t[k] in t;
    var i :| 0 <= i <= k && t[i] == s[k];
    var j :| 0 <= j <= k && s[j] == t[k];
    assert i == k || ByNumberAndPriority(s[k], t[k]) < 0;
    assert j == k || ByNumberAndPriority(t[k], s[k]) < 0;
  }

  lemma SameSize(s: seq<RangeRule>, t: seq<RangeRule>)
    requires multiset(s) == multiset(t)
    ensures |s| == |t|
  {
    assert |multiset(s)| == |s| && |multiset(t)| == |t|;
  }

  lemma SwapPermutes(s: seq<RangeRule>, j: nat)
    requires 0 < j < |s|
    ensures multiset(s[j - 1 := s[j]][j := s[j - 1]]) == multiset(s)
  {
    assert s == s[..j - 1] + [s[j - 1]] + [s[j]] + s[j + 1..];
    assert s[j - 1 := s[j]][j := s[j - 1]] == s[..j - 1] + [s[j]] + [s[j - 1]] + s[j + 1..];
  }

  /** The first rules up to the `i`-th are in order but for the one at `j`, which may be too high. */
  predicate IsSinking(s: seq<RangeRule>, i: nat, j: nat)
    requires i < |s|
  {
    forall p, q :: 0 <= p < q <= i && q != j ==> ByNumberAndPriority(s[p], s[q]) <= 0
  }

  lemma SinkStarts(s: seq<RangeRule>, i: nat)
    requires i < |s| && IsInOrder(s[..i])
    ensures IsSinking(s, i, i)
  {
    hide ByNumberAndPriority;
    forall p, q | 0 <= p < q < i ensures ByNumberAndPriority(s[p], s[q]) <= 0 {
      assert s[p] == s[..i][p] && s[q] == s[..i][q];
    }
  }

  lemma SinkGoesOn(s: seq<RangeRule>, i: nat, j: nat)
    requires 0 < j <= i < |s| && IsSinking(s, i, j) && ByNumberAndPriority(s[j - 1], s[j]) > 0
    ensures IsSinking(s[j - 1 := s[j]][j := s[j - 1]], i, j - 1)
  {
    CompareReverses(s[j - 1], s[j]);
    hide ByNumberAndPriority;
  }

  lemma SinkStops(s: seq<RangeRule>, i: nat, j: nat)
    requires j <= i < |s| && IsSinking(s, i, j) && (j == 0 || ByNumberAndPriority(s[j - 1], s[j]) <= 0)
    ensures IsInOrder(s[..i + 1])
  {
    hide ByNumberAndPriority;
    forall p | 0 <= p < j ensures ByNumberAndPriority(s[p], s[j]) <= 0 {
      if p < j - 1 {
        CompareComposes(s[p], s[j - 1], s[j]);
      }
    }
  }

  lemma CompareReverses(a: RangeRule, b: RangeRule)
    ensures ByNumberAndPriority(a, b) > 0 ==> ByNumberAndPriority(b, a) <= 0
  {
  }

  lemma CompareComposes(a: RangeRule, b: RangeRule, c: RangeRule)
    ensures ByNumberAndPriority(a, b) <= 0 && ByNumberAndPriority(b, c) <= 0 ==> ByNumberAndPriority(a, c) <= 0
  {
  }

  lemma PrioritiesDiffer(rules: seq<RangeRule>, s: seq<RangeRule>, i: nat, j: nat)
    requires AreNumbered(rules) && multiset(s) == multiset(rules) && i < j < |s|
    ensures s[i].priority != s[j].priority
  {
    hide IsSourceRule;
    MembersOfPermutation(s, rules);
    assert s[i] in rules && s[j] in rules;
    if s[i] == s[j] {
      assert s == s[..i] + [s[i]] + s[i + 1..j] + [s[j]] + s[j + 1..];
      assert multiset(s)[s[i]] >= 2;
      NumberedOnce(rules, s[i]);
    }
  }

  lemma {:induction false} NumberedOnce(rules: seq<RangeRule>, r: RangeRule)
    requires AreNumbered(rules)
    ensures multiset(rules)[r] <= 1
    decreases |rules|
  {
    hide IsSourceRule;
    var k := |rules| - 1;
    if k >= 0 {
      NumberedOnce(rules[..k], r);
      assert rules == rules[..k] + [rules[k]];
      assert r == rules[k] ==> r !in rules[..k];
    }
  }

  /** Putting numbered rules in order, by whatever algorithm, arrives at the one sorted order. */
  lemma OrderIsSorted(rules: seq<RangeRule>, s: seq<RangeRule>)
    requires AreNumbered(rules) && IsInOrder(s) && multiset(s) == multiset(rules)
    ensures s == Sorted(rules)
  {
    hide Sorted, AreNumbered;
    forall i, j | 0 <= i < j < |s| ensures ByNumberAndPriority(s[i], s[j]) < 0 {
      PrioritiesDiffer(rules, s, i, j);
      DistinctCompare(s[i], s[j]);
    }
    SortedSorts(rules);
    SortedPermutes(rules);
    SortIsUnique(s, Sorted(rules));
  }

  // ----- the order on one number survives -----

  lemma {:induction false} InsertKeepsSequence(rules: seq<RangeRule>, r: RangeRule, n: int)
    requires forall i :: 0 <= i < |rules| ==> IsSourceRule(rules[i]) && rules[i].priority < r.priority
    requires IsSourceRule(r)
    ensures forall q :: q in Insert(rules, r) ==> IsSourceRule(q)
    ensures Sequence(Insert(rules, r), n) == Sequence(rules + [r], n)
  {
    hide IsSourceRule, Sequence;
    var k := |rules| - 1;
    if k >= 0 && ByNumberAndPriority(r, rules[k]) < 0 {
      InsertKeepsSequence(rules[..k], r, n);
      SequenceAppend(Insert(rules[..k], r), rules[k], n);
      SequenceAppend(rules[..k], r, n);
      assert rules == rules[..k] + [rules[k]];
      SequenceAppend(rules[..k], rules[k], n);
      SequenceAppend(rules, r, n);
    }
  }

  /** Sorting leaves the rules on every number in the order in which they were added. */
  lemma {:induction false} SortedKeepsSequence(rules: seq<RangeRule>, n: int)
    requires AreNumbered(rules)
    ensures forall i :: 0 <= i < |Sorted(rules)| ==> IsSourceRule(Sorted(rules)[i])
    ensures Sequence(Sorted(rules), n) == Sequence(rules, n)
  {
    hide IsSourceRule, Sequence, Insert;
    var k := |rules| - 1;
    if k >= 0 {
      SortedKeepsSequence(rules[..k], n);
      SortedPermutes(rules[..k]);
      MembersOfPermutation(Sorted(rules[..k]), rules[..k]);
      forall i | 0 <= i < |Sorted(rules[..k])| ensures Sorted(rules[..k])[i].priority < rules[k].priority {
        assert Sorted(rules[..k])[i] in rules[..k];
      }
      InsertKeepsSequence(Sorted(rules[..k]), rules[k], n);
      SequenceAppend(Sorted(rules[..k]), rules[k], n);
      SequenceAppend(rules[..k], rules[k], n);
      assert rules == rules[..k] + [rules[k]];
    }
  }

  lemma SortedAreSourceRules(rules: seq<RangeRule>)
    requires AreNumbered(rules)
    ensures AreSourceRules(Sorted(rules))
  {
    hide IsSourceRule, Sequence, Sorted;
    SortedKeepsSequence(rules, 0);
    SortedSorts(rules);
  }
}
