/**
  What resolving a target guarantees: the offset fits a jump field and leads to the target,
  cached returns really return their own action, and the cache never overflows.
 */
module Resolving {
  import opened FiniteSets
  import opened Options
  import opened Words
  import opened Bpf
  import opened Policy
  import opened Codegen

  // ----- the invariant of the generator's state -----

  predicate ReturnsAt(code: seq<Instr>, loc: int, action: int)
    requires IsAction(action)
  {
    0 <= loc < |code| && code[loc] == Ret(ActionToBpf(action))
  }

  predicate IsCacheEntry(code: seq<Instr>, e: CacheEntry) {
    IsAction(e.action) && e.action > BASIC_MAX && ReturnsAt(code, e.location, e.action)
  }

  predicate ActionsDistinct(cache: seq<CacheEntry>) {
    forall i, j :: 0 <= i < j < |cache| ==> cache[i].action != cache[j].action
  }

  /** Remembered returns return their own action and the cache fits its 255 slots. */
  predicate IsAnchored(g: Gen) {
    && (forall a :: KILL <= a <= BASIC_MAX ==>
          g.basic[a] == INVALID_LOCATION || ReturnsAt(g.code, g.basic[a], a))
    && (forall i :: 0 <= i < |g.cache| ==> IsCacheEntry(g.code, g.cache[i]))
    && ActionsDistinct(g.cache)
    && |g.cache| <= MAX_JUMP
  }

  /** The buffer does not end in more than `n` return instructions. */
  predicate TrailAtMost(code: seq<Instr>, n: nat) {
    |code| <= n || exists i :: |code| - 1 - n <= i < |code| && !code[i].Ret?
  }

  predicate Inv(g: Gen) {
    IsAnchored(g) && IsClosed(g.code) && (g.stale ==> |g.code| > MAX_JUMP + 1)
  }

  /** No return follows its like. */
  predicate IsSpaced(code: seq<Instr>) {
    forall i :: 0 < i < |code| && code[i].Ret? ==> code[i - 1] != code[i]
  }

  /** Between jumps the newest instruction is not a return. */
  predicate AtRest(g: Gen) {
    Inv(g) && TrailAtMost(g.code, 0) && IsSpaced(g.code)
  }

  lemma TrailAppend(code: seq<Instr>, i: Instr, n: nat)
    requires TrailAtMost(code, n)
    ensures TrailAtMost(code + [i], n + 1)
    ensures !i.Ret? ==> TrailAtMost(code + [i], 0)
  {
    if |code| > n {
      var k :| |code| - 1 - n <= k < |code| && !code[k].Ret?;
      assert (code + [i])[k] == code[k];
    }
    assert (code + [i])[|code|] == i;
  }

  lemma TrailWeaken(code: seq<Instr>, n: nat)
    requires TrailAtMost(code, n)
    ensures TrailAtMost(code, n + 1)
  {
  }

  // ----- the cache cannot overflow -----

  lemma {:induction false} PurgedKeeps(cache: seq<CacheEntry>, current: int)
    ensures |Purged(cache, current)| <= |cache|
    ensures forall e :: e in Purged(cache, current) <==> e in cache && current - e.location < MAX_JUMP
  {
    if cache != [] {
      var n := |cache| - 1;
      PurgedKeeps(cache[..n], current);
      assert cache == cache[..n] + [cache[n]];
    }
  }

  lemma {:induction false} PurgedDistinct(cache: seq<CacheEntry>, current: int)
    requires ActionsDistinct(cache)
    ensures ActionsDistinct(Purged(cache, current))
  {
    if cache != [] {
      var n := |cache| - 1;
      PurgedDistinct(cache[..n], current);
      PurgedKeeps(cache[..n], current);
      var p := Purged(cache[..n], current);
      forall i | 0 <= i < |p| ensures p[i].action != cache[n].action {
        assert p[i] in p;
        var k :| 0 <= k < n && cache[..n][k] == p[i];
        assert cache[k].action != cache[n].action;
      }
    }
  }

  /** Distinct integers in an interval with one point missing. */
  lemma {:induction false} DistinctInPuncturedRange(locs: seq<int>, lo: int, hi: int, hole: int)
    requires lo <= hole < hi
    requires forall i :: 0 <= i < |locs| ==> lo <= locs[i] < hi && locs[i] != hole
    requires forall i, j :: 0 <= i < j < |locs| ==> locs[i] != locs[j]
    ensures |locs| < hi - lo
  {
    DistinctWithin(locs, Interval(lo, hi) - {hole});
  }

  /** Purging always makes room: what remains lies among the 255 newest instructions, each
      entry at a return of its own, and those instructions are not all returns. */
  lemma PurgeMakesRoom(g: Gen)
    requires IsAnchored(g) && TrailAtMost(g.code, MAX_JUMP - 1)
    ensures |Purged(g.cache, g.Current())| < MAX_JUMP
  {
    var p := Purged(g.cache, g.Current());
    PurgedKeeps(g.cache, g.Current());
    PurgedDistinct(g.cache, g.Current());
    var locs := seq(|p|, i requires 0 <= i < |p| => p[i].location);
    forall i | 0 <= i < |p| ensures IsCacheEntry(g.code, p[i]) && g.Current() - locs[i] < MAX_JUMP {
      assert p[i] in p;
    }
    forall i, j | 0 <= i < j < |locs| ensures locs[i] != locs[j] {
      if locs[i] == locs[j] {
        ActionToBpfInjective(p[i].action, p[j].action);
      }
    }
    if |p| >= MAX_JUMP {
      var hole :| g.Current() - MAX_JUMP < hole < |g.code| && (hole < 0 || !g.code[hole].Ret?);
      DistinctInPuncturedRange(locs, g.Current() - MAX_JUMP + 1, |g.code|, hole);
    }
  }

  // ----- resolved offsets lead to their targets -----

  /** Control entering `at` arrives at target `loc` with the registers unchanged. */
  predicate Reaches(code: seq<Instr>, at: int, loc: int) {
    && 0 <= at < |code|
    && if loc < 0 then IsAction(-loc) && ReturnsAt(code, at, -loc)
       else at == loc || (code[at].Ja? && at - 1 - code[at].distance == loc)
  }

  lemma AppendKeepsInv(g: Gen, i: Instr, n: nat)
    requires Inv(g) && IsPlaced(i, |g.code|) && TrailAtMost(g.code, n)
    ensures Inv(AddInstruction(g, i)) && TrailAtMost(AddInstruction(g, i).code, n + 1)
    ensures !i.Ret? && IsSpaced(g.code) ==> AtRest(AddInstruction(g, i))
  {
    TrailAppend(g.code, i, n);
    AnchorsStay(g, i);
  }

  /** The returns remembered in `g` are still where they were after an append. */
  lemma AnchorsStay(g: Gen, i: Instr)
    requires IsAnchored(g)
    ensures IsAnchored(AddInstruction(g, i))
  {
    var g' := AddInstruction(g, i);
    forall k | 0 <= k < |g'.cache| ensures IsCacheEntry(g'.code, g'.cache[k]) {
      assert IsCacheEntry(g.code, g.cache[k]);
    }
  }

  lemma MoveBasic(g: Gen, action: int, loc: nat)
    requires IsAnchored(g) && KILL <= action <= BASIC_MAX && ReturnsAt(g.code, loc, action)
    ensures IsAnchored(g.(basic := g.basic[action := loc]))
  {
  }

  lemma MoveCached(g: Gen, i: nat, loc: nat)
    requires IsAnchored(g) && i < |g.cache| && ReturnsAt(g.code, loc, g.cache[i].action)
    ensures IsAnchored(g.(cache := g.cache[i := CacheEntry(g.cache[i].action, loc)]))
  {
  }

  lemma CacheNew(g: Gen, action: int, loc: nat)
    requires IsAnchored(g)
    requires IsAction(action) && action > BASIC_MAX && CacheIndex(g.cache, action) == |g.cache|
    requires |Purged(g.cache, loc - 1)| < MAX_JUMP && ReturnsAt(g.code, loc, action)
    ensures IsAnchored(g.(cache := Purged(g.cache, loc - 1) + [CacheEntry(action, loc)]))
  {
    hide ActionToBpf;
    var kept := Purged(g.cache, loc - 1);
    PurgedDistinct(g.cache, loc - 1);
    PurgedKeeps(g.cache, loc - 1);
    forall k | 0 <= k < |kept| ensures IsCacheEntry(g.code, kept[k]) && kept[k].action != action {
      assert kept[k] in kept;
      assert kept[k] in g.cache;
    }
  }

  /** Resolving keeps the invariant, adds at most one instruction, and yields an offset that
      fits a jump and reaches the target. */
  predicate IsResolved(g: Gen, pos: nat, loc: int) {
    Inv(g) && pos <= MAX_JUMP && Reaches(g.code, g.Current() - pos, loc)
  }

  lemma ResolveBasic(g: Gen, action: int, n: nat)
    requires Inv(g) && KILL <= action <= BASIC_MAX && TrailAtMost(g.code, n)
    ensures var (g', pos) := ResolveAction(g, action);
            IsResolved(g', pos, -action) && TrailAtMost(g'.code, n + 1)
  {
    hide ActionToBpf, IsClosed, ActionsDistinct;
    var grown := AddInstruction(g, Ret(ActionToBpf(action)));
    AppendKeepsInv(g, Ret(ActionToBpf(action)), n);
    MoveBasic(grown, action, |g.code|);
  }

  lemma ResolveCached(g: Gen, action: int, n: nat)
    requires Inv(g) && IsAction(action) && action > BASIC_MAX && CacheIndex(g.cache, action) < |g.cache|
    requires TrailAtMost(g.code, n)
    ensures var (g', pos) := ResolveAction(g, action);
            IsResolved(g', pos, -action) && TrailAtMost(g'.code, n + 1)
  {
    hide ActionToBpf, IsClosed, ActionsDistinct, TrailAtMost;
    TrailWeaken(g.code, n);
    var i := CacheIndex(g.cache, action);
    assert IsCacheEntry(g.code, g.cache[i]);
    if g.Distance(g.cache[i].location) > MAX_JUMP {
      ResolveCachedFar(g, action, n);
    }
  }

  lemma ResolveCachedFar(g: Gen, action: int, n: nat)
    requires Inv(g) && IsAction(action) && action > BASIC_MAX && CacheIndex(g.cache, action) < |g.cache|
    requires TrailAtMost(g.code, n) && g.Distance(g.cache[CacheIndex(g.cache, action)].location) > MAX_JUMP
    ensures var (g', pos) := ResolveAction(g, action);
            IsResolved(g', pos, -action) && TrailAtMost(g'.code, n + 1)
  {
    hide ActionToBpf, IsClosed, IsAnchored, TrailAtMost;
    AppendKeepsInv(g, Ret(ActionToBpf(action)), n);
    MoveCached(AddInstruction(g, Ret(ActionToBpf(action))), CacheIndex(g.cache, action), |g.code|);
  }

  lemma ResolveNew(g: Gen, action: int, n: nat)
    requires Inv(g) && IsAction(action) && action > BASIC_MAX && CacheIndex(g.cache, action) == |g.cache|
    requires n < MAX_JUMP && TrailAtMost(g.code, n)
    ensures var (g', pos) := ResolveAction(g, action);
            IsResolved(g', pos, -action) && TrailAtMost(g'.code, n + 1)
  {
    hide ActionToBpf, IsClosed, IsAnchored;
    PurgeMakesRoom(g);
    AppendKeepsInv(g, Ret(ActionToBpf(action)), n);
    CacheNew(AddInstruction(g, Ret(ActionToBpf(action))), action, |g.code|);
  }

  lemma ResolveLocationReaches(g: Gen, loc: int, n: nat)
    requires Inv(g) && IsTarget(g.code, loc) && n < MAX_JUMP && TrailAtMost(g.code, n)
    ensures var (g', pos) := ResolveLocation(g, loc);
            IsResolved(g', pos, loc) && TrailAtMost(g'.code, n + 1)
  {
    hide ResolveAction, IsAnchored, IsClosed, ActionToBpf;
    if loc >= 0 {
      if g.Distance(loc) > MAX_JUMP {
        AppendKeepsInv(g, Ja(g.Distance(loc)), n);
      }
    } else if -loc <= BASIC_MAX {
      ResolveBasic(g, -loc, n);
    } else if CacheIndex(g.cache, -loc) < |g.cache| {
      ResolveCached(g, -loc, n);
    } else {
      ResolveNew(g, -loc, n);
    }
  }

  // ----- jumps -----

  /** A jump at `loc` sends control to `tloc` or `floc`. */
  predicate Forks(code: seq<Instr>, loc: int, op: JumpOp, src: Source, k: u32, tloc: int, floc: int) {
    && 0 <= loc < |code| && code[loc].Jump?
    && code[loc].op == op && code[loc].src == src && code[loc].k == k
    && Reaches(code, loc - 1 - code[loc].jt, tloc)
    && Reaches(code, loc - 1 - code[loc].jf, floc)
  }

  lemma ReachesExtends(code: seq<Instr>, more: seq<Instr>, at: int, loc: int)
    requires code <= more && Reaches(code, at, loc)
    ensures Reaches(more, at, loc)
  {
    hide ActionToBpf, IsAction;
    assert more[at] == code[at];
  }

  // ----- the second resolution of the true target -----

  /** Where a target is known to be: a location itself, or the remembered return of an action. */
  function KnownAt(g: Gen, loc: int): (at: Option<int>)
    requires IsTarget(g.code, loc)
  {
    if loc >= 0 then Some(loc)
    else if -loc <= BASIC_MAX then
      if g.basic[-loc] == INVALID_LOCATION then None else Some(g.basic[-loc])
    else
      var i := CacheIndex(g.cache, -loc);
      if i < |g.cache| then Some(g.cache[i].location) else None
  }

  /** The target is at no known place that an 8-bit offset reaches. */
  predicate IsOutOfReach(g: Gen, loc: int)
    requires IsTarget(g.code, loc)
  {
    var at := KnownAt(g, loc);
    at.None? || g.Distance(at.value) > MAX_JUMP
  }

  /** Resolving adds an instruction exactly for a target out of reach; then that one is known. */
  lemma ResolveAddsIff(g: Gen, loc: int)
    requires IsTarget(g.code, loc)
    ensures var g' := ResolveLocation(g, loc).0;
            if IsOutOfReach(g, loc) then
              && g'.code == g.code + [if loc < 0 then Ret(ActionToBpf(-loc)) else Ja(g.Distance(loc))]
              && (loc < 0 ==> KnownAt(g', loc) == Some(|g.code|))
            else g' == g
  {
    hide ActionToBpf;
    if loc < -BASIC_MAX && CacheIndex(g.cache, -loc) == |g.cache| {
      PurgedKeeps(g.cache, g.Current());
      NewEntryIsFound(Purged(g.cache, g.Current()), CacheEntry(-loc, |g.code|));
    }
  }

  lemma NewEntryIsFound(cache: seq<CacheEntry>, e: CacheEntry)
    requires forall i :: 0 <= i < |cache| ==> cache[i].action != e.action
    ensures CacheIndex(cache + [e], e.action) == |cache|
  {
    assert (cache + [e])[|cache|] == e;
  }

  /** The cache when a return of `action` has been emitted at `at`. */
  function CacheAfter(cache: seq<CacheEntry>, action: int, at: nat): (cache': seq<CacheEntry>) {
    var (i, e) := (CacheIndex(cache, action), CacheEntry(action, at));
    if i < |cache| then cache[i := e] else Purged(cache, at - 1) + [e]
  }

  /** What resolving a target out of reach does to the remembered returns. */
  lemma ResolveRemembers(g: Gen, loc: int)
    requires IsTarget(g.code, loc) && IsOutOfReach(g, loc)
    ensures var g' := ResolveLocation(g, loc).0;
            && g'.basic == (if -BASIC_MAX <= loc < 0 then g.basic[-loc := |g.code|] else g.basic)
            && g'.cache == (if loc >= -BASIC_MAX then g.cache else CacheAfter(g.cache, -loc, |g.code|))
  {
    hide ActionToBpf;
  }

  lemma SameActionsSameIndex(cache: seq<CacheEntry>, cache': seq<CacheEntry>, action: int)
    requires |cache| == |cache'| && forall j :: 0 <= j < |cache| ==> cache'[j].action == cache[j].action
    ensures CacheIndex(cache', action) == CacheIndex(cache, action)
    decreases |cache|
  {
    if cache != [] {
      SameActionsSameIndex(cache[1..], cache'[1..], action);
    }
  }

  lemma EntryIsFound(cache: seq<CacheEntry>, e: CacheEntry, other: CacheEntry)
    requires ActionsDistinct(cache) && e in cache && e.action != other.action
    ensures var i := CacheIndex(cache + [other], e.action); i < |cache| && cache[i] == e
  {
    var k :| 0 <= k < |cache| && cache[k] == e;
    var i := CacheIndex(cache + [other], e.action);
    assert (cache + [other])[k] == e && i <= k;
  }

  /** Another action's entry is kept up to the edge of reach, and never moved. */
  lemma CacheAfterKeeps(cache: seq<CacheEntry>, other: int, at: nat, action: int)
    requires ActionsDistinct(cache) && action != other && CacheIndex(cache, action) < |cache|
    ensures var e := cache[CacheIndex(cache, action)];
            var cache' := CacheAfter(cache, other, at);
            var j := CacheIndex(cache', action);
            && (j < |cache'| ==> cache'[j] == e)
            && (at - 1 - e.location < MAX_JUMP ==> j < |cache'|)
  {
    var e := cache[CacheIndex(cache, action)];
    if CacheIndex(cache, other) < |cache| {
      SameActionsSameIndex(cache, CacheAfter(cache, other, at), action);
    } else {
      PurgedKeeps(cache, at - 1);
      PurgedDistinct(cache, at - 1);
      var p := Purged(cache, at - 1);
      if e in p {
        EntryIsFound(p, e, CacheEntry(other, at));
      } else {
        OnlyEntry(cache, p, e);
      }
    }
  }

  lemma OnlyEntry(cache: seq<CacheEntry>, p: seq<CacheEntry>, e: CacheEntry)
    requires ActionsDistinct(cache) && e in cache && e !in p && forall f :: f in p ==> f in cache
    ensures forall i :: 0 <= i < |p| ==> p[i].action != e.action
  {
    forall i | 0 <= i < |p| ensures p[i].action != e.action {
      assert p[i] in p;
    }
  }

  /** The jump loses its false target: its true target is a location out of reach, which takes
      another instruction each time it is resolved, or it lies at the very edge and the false
      target needs an instruction that pushes it out. */
  predicate LosesFalse(g: Gen, tloc: int, floc: int)
    requires IsTarget(g.code, tloc) && IsTarget(g.code, floc)
  {
    || (tloc >= 0 && g.Distance(tloc) > MAX_JUMP)
    || (var at := KnownAt(g, tloc);
        at.Some? && g.Distance(at.value) == MAX_JUMP && IsOutOfReach(g, floc))
  }

  /** Resolving another target leaves a known one where it is, at least up to the edge of reach. */
  lemma OthersStayKnown(g: Gen, loc: int, other: int)
    requires IsAnchored(g) && IsTarget(g.code, loc) && IsTarget(g.code, other) && loc != other
    requires KnownAt(g, loc).Some? && IsOutOfReach(g, other)
    ensures var at := KnownAt(ResolveLocation(g, other).0, loc);
            && (at.Some? ==> at == KnownAt(g, loc))
            && (g.Distance(KnownAt(g, loc).value) < MAX_JUMP ==> at.Some?)
  {
    hide ResolveLocation, IsCacheEntry, CacheAfter, ReturnsAt, CacheIndex;
    ResolveAddsIff(g, other);
    ResolveRemembers(g, other);
    if loc < -BASIC_MAX && other < -BASIC_MAX {
      CacheAfterKeeps(g.cache, -other, |g.code|, -loc);
    }
  }

  /** When it comes to resolving the true target again it is out of reach exactly if the jump loses
      its false target. */
  lemma ResolvesAgainIff(g: Gen, tloc: int, floc: int)
    requires IsAnchored(g) && IsTarget(g.code, tloc) && IsTarget(g.code, floc) && tloc != floc
    requires IsAnchored(ResolveLocation(g, tloc).0)
    ensures var g2 := ResolveLocation(ResolveLocation(g, tloc).0, floc).0;
            IsOutOfReach(g2, tloc) <==> LosesFalse(g, tloc, floc)
  {
    hide ResolveLocation, IsAnchored;
    var g1 := ResolveLocation(g, tloc).0;
    ResolveAddsIff(g, tloc);
    ResolveAddsIff(g1, floc);
    if tloc < 0 {
      var at := KnownAt(g1, tloc);
      assert at.Some? && g1.Distance(at.value) <= MAX_JUMP;
      if IsOutOfReach(g1, floc) {
        OthersStayKnown(g1, tloc, floc);
      }
    }
  }

  lemma KnownIsEmitted(g: Gen, loc: int)
    requires IsAnchored(g) && IsTarget(g.code, loc)
    ensures KnownAt(g, loc).Some? ==> 0 <= KnownAt(g, loc).value < |g.code|
  {
    hide ActionToBpf;
    if loc < -BASIC_MAX && CacheIndex(g.cache, -loc) < |g.cache| {
      assert IsCacheEntry(g.code, g.cache[CacheIndex(g.cache, -loc)]);
    }
  }

  /** Within the first 256 instructions no jump loses its false target. */
  lemma ResolveAgainNear(g: Gen, tloc: int, floc: int)
    requires IsAnchored(g) && IsTarget(g.code, tloc) && IsTarget(g.code, floc) && tloc != floc
    requires IsAnchored(ResolveLocation(g, tloc).0)
    ensures var g2 := ResolveLocation(ResolveLocation(g, tloc).0, floc).0;
            |g2.code| <= MAX_JUMP + 1 ==> ResolveLocation(g2, tloc).0.code == g2.code
  {
    hide ResolveLocation, IsAnchored, KnownAt;
    var g1 := ResolveLocation(g, tloc).0;
    var g2 := ResolveLocation(g1, floc).0;
    ResolveAddsIff(g, tloc);
    ResolveAddsIff(g1, floc);
    ResolveAddsIff(g2, tloc);
    ResolvesAgainIff(g, tloc, floc);
    KnownIsEmitted(g, tloc);
  }

  lemma SpacedAppend(code: seq<Instr>, i: Instr)
    requires IsSpaced(code) && (code == [] || code[|code| - 1] != i || !i.Ret?)
    ensures IsSpaced(code + [i])
  {
  }

  /** No return is emitted next to its like while a jump's targets are resolved. */
  lemma ResolvedIsSpaced(g: Gen, tloc: int, floc: int)
    requires AtRest(g) && IsTarget(g.code, tloc) && IsTarget(g.code, floc) && tloc != floc
    requires IsAnchored(ResolveLocation(g, tloc).0)
    ensures var g2 := ResolveLocation(ResolveLocation(g, tloc).0, floc).0;
            IsSpaced(g2.code) && IsSpaced(ResolveLocation(g2, tloc).0.code)
  {
    hide ResolveLocation, IsAnchored, IsClosed, IsOutOfReach, LosesFalse, ActionToBpf, IsAction, IsSpaced;
    var g1 := ResolveLocation(g, tloc).0;
    var g2 := ResolveLocation(g1, floc).0;
    var t := if tloc < 0 then Ret(ActionToBpf(-tloc)) else Ja(g.Distance(tloc));
    var f := if floc < 0 then Ret(ActionToBpf(-floc)) else Ja(g1.Distance(floc));
    var t' := if tloc < 0 then Ret(ActionToBpf(-tloc)) else Ja(g2.Distance(tloc));
    if tloc < 0 && floc < 0 && ActionToBpf(-tloc) == ActionToBpf(-floc) {
      ActionToBpfInjective(-tloc, -floc);
    }
    ResolveAddsIff(g, tloc);
    ResolveAddsIff(g1, floc);
    ResolveAddsIff(g2, tloc);
    ResolvesAgainIff(g, tloc, floc);
    FreshlyKnown(g, tloc, floc);
    if IsOutOfReach(g, tloc) { SpacedAppend(g.code, t); }
    if IsOutOfReach(g1, floc) { SpacedAppend(g1.code, f); }
    if IsOutOfReach(g2, tloc) { SpacedAppend(g2.code, t'); }
  }

  lemma FreshlyKnown(g: Gen, tloc: int, floc: int)
    requires IsTarget(g.code, tloc) && IsTarget(g.code, floc)
    ensures tloc < 0 && IsOutOfReach(g, tloc) ==> !LosesFalse(g, tloc, floc)
  {
  }

  /** A jump between different targets is emitted last; unless an offset went stale it forks
      to exactly these targets. */
  lemma AddJumpForks(g: Gen, op: JumpOp, src: Source, k: u32, tloc: int, floc: int)
    requires AtRest(g) && IsTarget(g.code, tloc) && IsTarget(g.code, floc) && tloc != floc
    ensures var (g', r) := AddJump(g, op, src, k, tloc, floc);
            && AtRest(g') && r == g'.Current() && r > g.Current()
            && (!g'.stale ==> !g.stale && Forks(g'.code, r, op, src, k, tloc, floc))
  {
    hide ResolveLocation, IsAnchored, IsClosed, IsAction, TrailAtMost, Reaches, IsSpaced;
    var g1 := ResolveLocation(g, tloc).0;
    ResolveLocationReaches(g, tloc, 0);
    var (g2, fpos) := ResolveLocation(g1, floc);
    ResolveLocationReaches(g1, floc, 1);
    var (g3, tpos) := ResolveLocation(g2, tloc);
    ResolveLocationReaches(g2, tloc, 2);
    ResolveAgainNear(g, tloc, floc);
    ResolvedIsSpaced(g, tloc, floc);
    JumpIsPlaced(g2, g3, op, src, k, tpos, fpos, tloc, floc);
    HistoryDoesNotMatter(AddInstruction(g3, Jump(op, src, k, tpos, fpos)), g.stale || |g3.code| > |g2.code|);
  }

  /** One location above its false target a jump does not find it. */
  lemma AboveFalseIsOther(g2: Gen, fpos: nat, tloc: int, floc: int, jump: Instr)
    requires Inv(g2) && IsSpaced(g2.code) && IsTarget(g2.code, tloc) && IsTarget(g2.code, floc) && tloc != floc
    requires fpos <= MAX_JUMP && Reaches(g2.code, g2.Current() - fpos, floc)
    requires floc >= 0 && fpos > 0 ==> g2.Current() - fpos == floc
    requires IsOutOfReach(g2, tloc)
    ensures !Reaches(ResolveLocation(g2, tloc).0.code + [jump], g2.Current() - fpos + 1, floc)
  {
    hide ResolveLocation, IsAnchored, ActionToBpf, IsAction;
    var code := ResolveLocation(g2, tloc).0.code;
    ResolveAddsIff(g2, tloc);
    var at := g2.Current() - fpos + 1;
    if fpos == 0 {
      assert code[at] == if tloc < 0 then Ret(ActionToBpf(-tloc)) else Ja(g2.Distance(tloc));
      if tloc < 0 && floc < 0 && ActionToBpf(-tloc) == ActionToBpf(-floc) {
        ActionToBpfInjective(-tloc, -floc);
      }
    } else {
      assert code[at] == g2.code[at] && IsPlaced(g2.code[at], at);
    }
  }

  /** A jump forks to its two targets if and only if it does not lose its false one, and it is
      then that it goes stale. */
  lemma JumpForksIff(g: Gen, op: JumpOp, src: Source, k: u32, tloc: int, floc: int)
    requires AtRest(g) && IsTarget(g.code, tloc) && IsTarget(g.code, floc) && tloc != floc
    ensures var (g', r) := AddJump(g, op, src, k, tloc, floc);
            && (Forks(g'.code, r, op, src, k, tloc, floc) <==> !LosesFalse(g, tloc, floc))
            && (g'.stale <==> g.stale || LosesFalse(g, tloc, floc))
  {
    hide ResolveLocation, IsAnchored, IsClosed, IsAction, TrailAtMost, Reaches, IsSpaced, LosesFalse, IsOutOfReach;
    var g1 := ResolveLocation(g, tloc).0;
    ResolveLocationReaches(g, tloc, 0);
    var (g2, fpos) := ResolveLocation(g1, floc);
    ResolveLocationReaches(g1, floc, 1);
    var (g3, tpos) := ResolveLocation(g2, tloc);
    ResolveLocationReaches(g2, tloc, 2);
    ResolvedIsSpaced(g, tloc, floc);
    ResolveAddsIff(g2, tloc);
    ResolvesAgainIff(g, tloc, floc);
    if LosesFalse(g, tloc, floc) {
      LocationOffset(g1, floc);
      AboveFalseIsOther(g2, fpos, tloc, floc, Jump(op, src, k, tpos, fpos));
    } else {
      JumpIsPlaced(g2, g3, op, src, k, tpos, fpos, tloc, floc);
    }
  }

  lemma LocationOffset(g: Gen, loc: int)
    requires IsTarget(g.code, loc)
    ensures var (g', pos) := ResolveLocation(g, loc);
            loc >= 0 && pos > 0 ==> g'.Current() - pos == loc
  {
    hide ResolveAction;
  }

  lemma HistoryDoesNotMatter(g: Gen, stale: bool)
    requires AtRest(g) && (stale ==> |g.code| > MAX_JUMP + 1)
    ensures AtRest(g.(stale := stale))
  {
    hide IsCacheEntry, IsClosed, ReturnsAt;
  }

  lemma JumpIsPlaced(g2: Gen, g3: Gen, op: JumpOp, src: Source, k: u32, tpos: nat, fpos: nat, tloc: int, floc: int)
    requires IsResolved(g2, fpos, floc) && IsResolved(g3, tpos, tloc) && g2.code <= g3.code && TrailAtMost(g3.code, 3)
    requires IsSpaced(g3.code)
    ensures var g4 := AddInstruction(g3, Jump(op, src, k, tpos, fpos));
            && AtRest(g4)
            && (|g3.code| == |g2.code| ==> Forks(g4.code, g4.Current(), op, src, k, tloc, floc))
  {
    hide IsAnchored, IsClosed, IsAction, TrailAtMost, IsSpaced;
    var jump := Jump(op, src, k, tpos, fpos);
    var g4 := AddInstruction(g3, jump);
    AppendKeepsInv(g3, jump, 3);
    ReachesExtends(g3.code, g4.code, g3.Current() - tpos, tloc);
    ReachesExtends(g2.code, g4.code, g2.Current() - fpos, floc);
  }
}
