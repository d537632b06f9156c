/**
  The code generator as it runs: a buffer that grows, a table of basic returns and a cache of
  other returns, updated in place. Every method is tied to its function in `Codegen`.
 */
module CodeGenerator {
  import opened Words
  import opened Expression
  import opened Wide
  import opened Bpf
  import opened Policy
  import opened RangeRules
  import opened Codegen
  import opened Resolving
  import opened Comparing
  import opened Generating
  import opened Compiling

  function HighWords(g: Gen, l: Expr, r: Expr, tloc: int, floc: int, low: int): (res: (Gen, int))
    requires IsSimpleOperand(l) && IsSimpleOperand(r)
    requires IsTarget(g.code, tloc) && IsTarget(g.code, floc) && IsTarget(g.code, low)
    ensures g.code <= res.0.code && IsTarget(res.0.code, res.1)
  {
    var (g2, next) := Codegen.GenerateCmp32(g, JGe, l, r, low, floc, High, Never);
    Codegen.GenerateCmp32(g2, JGt, l, r, tloc, next, High, if next > g.Current() then Always else Normal)
  }

  lemma InequalityUnfolds(g: Gen, op: JumpOp, l: Expr, r: Expr, tloc: int, floc: int)
    requires IsSimpleOperand(l) && IsSimpleOperand(r) && IsTarget(g.code, tloc) && IsTarget(g.code, floc)
    ensures var (g1, low) := Codegen.GenerateCmp32(g, op, l, r, tloc, floc, Low, Normal);
            Codegen.GenerateInequality(g, op, l, r, tloc, floc) ==
            if Is64Bit(l) || Is64Bit(r) then HighWords(g1, l, r, tloc, floc, low) else (g1, low)
  {
    hide Codegen.GenerateCmp32, IsAction;
  }

  class Generator {
    var code: seq<Instr>
    const basic: array<int>
    const cache: array<CacheEntry>
    var cacheSize: nat
    ghost var stale: bool

    ghost predicate Valid()
      reads this
    {
      basic.Length == 6 && cache.Length == MAX_JUMP && cacheSize <= cache.Length
    }

    ghost function State(): Gen
      requires Valid()
      reads this, basic, cache
    {
      Gen(code, basic[..], cache[..cacheSize], stale)
    }

    lemma CodeIs()
      requires Valid()
      ensures State().code == code && State().Current() == |code| - 1
    {
    }

    constructor ()
      ensures Valid() && State() == Codegen.FRESH
      ensures fresh(basic) && fresh(cache)
    {
      code := [];
      basic := new int[6](_ => INVALID_LOCATION);
      cache := new CacheEntry[255](_ => CacheEntry(0, 0));
      cacheSize := 0;
      stale := false;
      new;
      assert basic[..] == Codegen.FRESH.basic;
      assert cache[..0] == [];
    }

    method AddInstruction(i: Instr) returns (loc: int)
      requires Valid()
      modifies this`code
      ensures Valid() && State() == Codegen.AddInstruction(old(State()), i) && loc == State().Current()
    {
      code := code + [i];
      loc := |code| - 1;
    }

    /** Compact the cache in place, keeping the entries still in reach. */
    method PurgeLocationCache()
      requires Valid()
      modifies this`cacheSize, cache
      ensures Valid()
      ensures State() == old(State()).(cache := Purged(old(State()).cache, old(State()).Current()))
    {
      ghost var was := cache[..cacheSize];
      var current := |code| - 1;
      var j := 0;
      for i := 0 to cacheSize
        invariant cacheSize == old(cacheSize) && j <= i
        invariant cache[..j] == Purged(was[..i], current)
        invariant forall k :: i <= k < cacheSize ==> cache[k] == was[k]
      {
        ghost var kept := cache[..j];
        assert was[..i + 1][..i] == was[..i];
        if current - cache[i].location < MAX_JUMP {
          cache[j] := cache[i];
          j := j + 1;
          assert cache[..j] == kept + [was[i]];
        }
      }
      assert was[..|was|] == was;
      cacheSize := j;
    }

    method ResolveBasic(action: int) returns (pos: nat)
      requires Valid() && KILL <= action <= BASIC_MAX
      modifies this`code, basic
      ensures Valid() && (State(), pos) == Codegen.ResolveAction(old(State()), action)
    {
      hide ActionToBpf;
      if basic[action] == INVALID_LOCATION || |code| - 1 - basic[action] > MAX_JUMP {
        var loc := AddInstruction(Ret(ActionToBpf(action)));
        basic[action] := loc;
        assert basic[..] == old(basic[..])[action := loc];
      }
      pos := (|code| - 1 - basic[action]) % 256;
    }

    /** Search the cache for an action. */
    method FindCached(action: int) returns (i: nat)
      requires Valid()
      ensures i == CacheIndex(State().cache, action)
    {
      i := 0;
      while i < cacheSize && cache[i].action != action
        invariant i <= cacheSize && forall k :: 0 <= k < i ==> cache[k].action != action
      {
        i := i + 1;
      }
    }

    method ResolveCached(action: int, i: nat) returns (pos: nat)
      requires Valid() && IsAction(action) && action > BASIC_MAX
      requires i == CacheIndex(State().cache, action) < cacheSize
      modifies this`code, cache
      ensures Valid() && (State(), pos) == Codegen.ResolveAction(old(State()), action)
    {
      hide ActionToBpf;
      if |code| - 1 - cache[i].location > MAX_JUMP {
        var loc := AddInstruction(Ret(ActionToBpf(action)));
        cache[i] := CacheEntry(action, loc);
        assert cache[..cacheSize] == old(cache[..cacheSize])[i := CacheEntry(action, loc)];
      }
      pos := (|code| - 1 - cache[i].location) % 256;
    }

    /** Cache a return for an action not in the cache; purging has made room for it. */
    method ResolveNew(action: int) returns (pos: nat)
      requires Valid() && IsAction(action) && action > BASIC_MAX
      requires CacheIndex(State().cache, action) == cacheSize
      requires |Purged(State().cache, State().Current())| < MAX_JUMP
      modifies this, cache
      ensures Valid() && (State(), pos) == Codegen.ResolveAction(old(State()), action)
    {
      hide ActionToBpf;
      PurgeLocationCache();
      var loc := AddInstruction(Ret(ActionToBpf(action)));
      cache[cacheSize] := CacheEntry(action, loc);
      cacheSize := cacheSize + 1;
      assert cache[..cacheSize] == cache[..cacheSize - 1] + [CacheEntry(action, loc)];
      pos := (|code| - 1 - loc) % 256;
    }

    method ResolveAction(action: int) returns (pos: nat)
      requires Valid() && Inv(State()) && IsAction(action) && TrailAtMost(code, MAX_JUMP - 1)
      modifies this, basic, cache
      ensures Valid() && (State(), pos) == Codegen.ResolveAction(old(State()), action)
    {
      hide ActionToBpf, IsAction, Codegen.ResolveAction, IsAnchored, IsClosed;
      if action <= BASIC_MAX {
        assert KILL <= action by { PositiveAction(action); }
        pos := ResolveBasic(action);
        return;
      }
      var i := FindCached(action);
      if i < cacheSize {
        pos := ResolveCached(action, i);
        return;
      }
      PurgeMakesRoom(State());
      pos := ResolveNew(action);
    }

    method ResolveLocation(loc: int) returns (pos: nat)
      requires Valid() && Inv(State()) && IsTarget(code, loc) && TrailAtMost(code, MAX_JUMP - 1)
      modifies this, basic, cache
      ensures Valid() && (State(), pos) == Codegen.ResolveLocation(old(State()), loc)
    {
      if loc < 0 {
        pos := ResolveAction(-loc);
        return;
      }
      var distance := |code| - 1 - loc;
      if distance > MAX_JUMP {
        var jump := AddInstruction(Ja(distance));
        distance := |code| - 1 - jump;
      }
      pos := distance % 256;
    }

    method AddJump(op: JumpOp, src: Source, k: u32, tloc: int, floc: int) returns (loc: int)
      requires Valid() && AtRest(State()) && IsTarget(code, tloc) && IsTarget(code, floc)
      modifies this, basic, cache
      ensures Valid() && (State(), loc) == Codegen.AddJump(old(State()), op, src, k, tloc, floc)
    {
      hide Codegen.ResolveLocation, Inv, TrailAtMost, IsAction, Reaches;
      if tloc == floc {
        return tloc;
      }
      TrailWider(code, 0, MAX_JUMP - 1);
      ResolveLocationReaches(State(), tloc, 0);
      var tpos := ResolveLocation(tloc);
      TrailWider(code, 1, MAX_JUMP - 1);
      ResolveLocationReaches(State(), floc, 1);
      var fpos := ResolveLocation(floc);
      TrailWider(code, 2, MAX_JUMP - 1);
      ghost var before := |code|;
      tpos := ResolveLocation(tloc);
      stale := stale || |code| > before;
      loc := AddInstruction(Jump(op, src, k, tpos, fpos));
    }

    method AddJumpK(op: JumpOp, k: u32, tloc: int, floc: int) returns (loc: int)
      requires Valid() && AtRest(State()) && IsTarget(code, tloc) && IsTarget(code, floc)
      modifies this, basic, cache
      ensures Valid() && (State(), loc) == Codegen.AddJumpK(old(State()), op, k, tloc, floc)
    {
      hide AtRest, IsAction, Codegen.AddJump;
      if op.JGt? && k == UINT32_MAX {
        return floc;
      }
      if op.JGe? && k == 0 {
        return tloc;
      }
      if op.JSet? && k == 0 {
        return floc;
      }
      loc := AddJump(op, K, k, tloc, floc);
    }

    method GenerateLoad(e: Expr, w: Word) returns (loc: int)
      requires Valid() && IsLoadable(e, w)
      modifies this`code
      ensures Valid() && State() == Codegen.GenerateLoad(old(State()), e, w) && loc == State().Current()
      decreases e
    {
      if e.Var? {
        loc := AddInstruction(LdAbs(ArgOffset(e.v, w)));
      } else if IsConst(e.right, w) {
        loc := AddInstruction(AndK(ValueOf(e.right, w)));
        loc := GenerateLoad(e.left, w);
      } else {
        loc := AddInstruction(AndX);
        loc := GenerateLoad(e.left, w);
        loc := AddInstruction(Tax);
        loc := GenerateLoad(e.right, w);
      }
    }

    method GenerateCmp32(op: JumpOp, l: Expr, r: Expr, tloc: int, floc: int, w: Word, load: Load) returns (next: int)
      requires Valid() && AtRest(State()) && IsSimpleOperand(l) && IsSimpleOperand(r)
      requires IsTarget(code, tloc) && IsTarget(code, floc)
      modifies this, basic, cache
      ensures Valid() && (State(), next) == Codegen.GenerateCmp32(old(State()), op, l, r, tloc, floc, w, load)
    {
      hide AtRest, IsAction, Codegen.AddJump, Codegen.AddJumpK, Codegen.GenerateLoad, TestBits, SwapOperands, ValueOf,
           Test;
      var begin := |code| - 1;
      var p := PlanCompare(op, l, r, tloc, floc, w);
      if p.Settled? {
        return p.loc;
      }
      if IsConst(p.right, w) {
        next := AddJumpK(p.op, ValueOf(p.right, w), p.tloc, p.floc);
        if load.Always? || (!load.Never? && next > begin) {
          next := GenerateLoad(p.left, w);
        }
      } else {
        next := AddJump(p.op, X, 0, p.tloc, p.floc);
        if load.Always? || (!load.Never? && next > begin) {
          next := GenerateLoad(p.left, w);
          next := AddInstruction(Tax);
          next := GenerateLoad(p.right, w);
        }
      }
    }

    /** The comparison of the high words in front of that of the low ones. */
    method GenerateHighWords(l: Expr, r: Expr, tloc: int, floc: int, low: int) returns (next: int)
      requires Valid() && AtRest(State()) && IsSimpleOperand(l) && IsSimpleOperand(r)
      requires IsTarget(code, tloc) && IsTarget(code, floc) && IsTarget(code, low)
      modifies this, basic, cache
      ensures Valid() && (State(), next) == HighWords(old(State()), l, r, tloc, floc, low)
    {
      hide AtRest, IsAction, Codegen.GenerateCmp32, IsSimpleOperand, State;
      CodeIs();
      var begin := |code| - 1;
      Cmp32Rests(State(), JGe, l, r, low, floc, High, Never);
      next := GenerateCmp32(JGe, l, r, low, floc, High, Never);
      CodeIs();
      next := GenerateCmp32(JGt, l, r, tloc, next, High, if next > begin then Always else Normal);
    }

    method GenerateInequality(op: JumpOp, l: Expr, r: Expr, tloc: int, floc: int) returns (next: int)
      requires Valid() && AtRest(State()) && IsSimpleOperand(l) && IsSimpleOperand(r)
      requires IsTarget(code, tloc) && IsTarget(code, floc)
      modifies this, basic, cache
      ensures Valid() && (State(), next) == Codegen.GenerateInequality(old(State()), op, l, r, tloc, floc)
    {
      hide AtRest, IsAction, Codegen.GenerateCmp32, Codegen.GenerateInequality, Is64Bit, State, HighWords;
      CodeIs();
      InequalityUnfolds(State(), op, l, r, tloc, floc);
      Cmp32Rests(State(), op, l, r, tloc, floc, Low, Normal);
      next := GenerateCmp32(op, l, r, tloc, floc, Low, Normal);
      CodeIs();
      if Is64Bit(l) || Is64Bit(r) {
        next := GenerateHighWords(l, r, tloc, floc, next);
      }
    }

    method GenerateEquality(l: Expr, r: Expr, tloc: int, floc: int) returns (next: int)
      requires Valid() && AtRest(State()) && IsSimpleOperand(l) && IsSimpleOperand(r)
      requires IsTarget(code, tloc) && IsTarget(code, floc)
      modifies this, basic, cache
      ensures Valid() && (State(), next) == Codegen.GenerateEquality(old(State()), l, r, tloc, floc)
    {
      hide AtRest, IsAction, Codegen.GenerateCmp32, Is64Bit, State;
      CodeIs();
      Cmp32Rests(State(), JEq, l, r, tloc, floc, Low, Normal);
      next := GenerateCmp32(JEq, l, r, tloc, floc, Low, Normal);
      CodeIs();
      if Is64Bit(l) || Is64Bit(r) {
        next := GenerateCmp32(JEq, l, r, next, floc, High, Normal);
      }
    }

    method GenerateExpr(e: Expr, tloc: int, floc: int) returns (next: int)
      requires Valid() && AtRest(State()) && IsNormal(e)
      requires IsTarget(code, tloc) && IsTarget(code, floc)
      modifies this, basic, cache
      ensures Valid() && (State(), next) == Codegen.GenerateExpr(old(State()), e, tloc, floc)
      decreases e
    {
      hide AtRest, IsAction, Codegen.GenerateInequality, Codegen.GenerateEquality, IsSimpleOperand;
      match e
      case And(l, r) =>
        ExprRests(State(), r, tloc, floc);
        next := GenerateExpr(r, tloc, floc);
        next := GenerateExpr(l, next, floc);
      case Or(l, r) =>
        ExprRests(State(), r, tloc, floc);
        next := GenerateExpr(r, tloc, floc);
        next := GenerateExpr(l, tloc, next);
      case Compare(op, l, r) =>
        match op
        case Le => next := GenerateInequality(JGt, l, r, floc, tloc);
        case Gt => next := GenerateInequality(JGt, l, r, tloc, floc);
        case Lt => next := GenerateInequality(JGe, l, r, floc, tloc);
        case Ge => next := GenerateInequality(JGe, l, r, tloc, floc);
        case Neq => next := GenerateEquality(l, r, floc, tloc);
        case Eq => next := GenerateEquality(l, r, tloc, floc);
    }

    method GenerateAction(rule: RangeRule) returns (last: int)
      requires Valid() && AtRest(State()) && IsRule(rule)
      modifies this, basic, cache
      ensures Valid() && (State(), last) == Codegen.GenerateAction(old(State()), rule)
    {
      hide AtRest, IsAction, Codegen.GenerateExpr, IsNormal, State;
      if rule.action != CONDITIONAL {
        return -rule.action;
      }
      var m := rule.mappings;
      ghost var was := State();
      var k := |m| - 1;
      last := -m[k].action;
      TailIsList(m, k);
      while k > 0
        invariant 0 <= k < |m| && Valid() && IsDecisionList(m[k..])
        invariant (State(), last) == GenerateMappings(was, m[k..])
      {
        MappingsRest(was, m[k..]);
        CodeIs();
        PositiveAction(m[k - 1].action);
        TailIsList(m, k - 1);
        assert m[k - 1..][1..] == m[k..];
        k := k - 1;
        last := GenerateExpr(m[k].condition.value, -m[k].action, last);
      }
      assert m[0..] == m;
    }

    method GenerateRules(rules: seq<RangeRule>) returns (next: int)
      requires Valid() && AtRest(State()) && rules != [] && forall i :: 0 <= i < |rules| ==> IsRule(rules[i])
      modifies this, basic, cache
      ensures Valid() && (State(), next) == Codegen.GenerateRules(old(State()), rules)
      decreases |rules|
    {
      hide AtRest, IsAction, Codegen.GenerateAction, Codegen.GenerateRules, Codegen.AddJump, IsDecisionList;
      GenerateRulesUnfolds(State(), rules);
      if |rules| == 1 {
        next := GenerateAction(rules[0]);
        return;
      }
      var mid := |rules| / 2;
      RulesRest(State(), rules[..mid]);
      var lower := GenerateRules(rules[..mid]);
      RulesRest(State(), rules[mid..]);
      var upper := GenerateRules(rules[mid..]);
      next := AddJump(JGe, K, rules[mid].first, upper, lower);
    }

    method ReverseInstructionBuffer()
      requires Valid()
      modifies this`code
      ensures Valid() && code == Reversed(old(code))
    {
      ghost var was := code;
      var first, last := 0, |code| - 1;
      while first < last
        invariant |code| == |was| && 0 <= first <= last + 1 && first + last == |was| - 1
        invariant forall i :: 0 <= i < first ==> code[i] == was[|was| - 1 - i] && code[|was| - 1 - i] == was[i]
        invariant forall i :: first <= i <= last ==> code[i] == was[i]
      {
        code := code[first := code[last]][last := code[first]];
        first, last := first + 1, last - 1;
      }
      assert forall i :: 0 <= i < |was| ==> code[i] == was[|was| - 1 - i] by {
        forall i | 0 <= i < |was| ensures code[i] == was[|was| - 1 - i] {
          assert i >= first ==> code[|was| - 1 - (|was| - 1 - i)] == code[i];
        }
      }
    }

    method CheckArch(begin: int, loc: int, arch: u32)
      requires Valid() && AtRest(State()) && IsTarget(code, loc)
      modifies this, basic, cache
      ensures Valid() && State() == Codegen.CheckArch(old(State()), begin, loc, arch)
    {
      hide IsAnchored, IsClosed, IsAction, Codegen.AddJump, Codegen.ResolveLocation, Forks;
      KillIsAction();
      if loc != -KILL {
        AddJumpForks(State(), JEq, K, arch, loc, -KILL);
      }
      SameTargets(State(), JEq, arch, loc);
      var next := AddJump(JEq, K, arch, loc, -KILL);
      if next > begin {
        next := AddInstruction(LdAbs(ARCH_OFFSET));
      }
      if next < 0 {
        TrailWider(code, 0, MAX_JUMP - 1);
        var pos := ResolveLocation(next);
      }
    }
  }

  lemma KillIsAction()
    ensures IsAction(KILL)
  {
  }

  lemma SameTargets(g: Gen, op: JumpOp, k: u32, loc: int)
    requires IsTarget(g.code, loc)
    ensures loc == -KILL ==> Codegen.AddJump(g, op, K, k, loc, -KILL) == (g, loc)
  {
  }

  lemma TrailWider(code: seq<Instr>, n: nat, m: nat)
    requires TrailAtMost(code, n) && n <= m
    ensures TrailAtMost(code, m)
  {
  }

  /** Generate the search, put the architecture check in front, and turn the buffer round. */
  method GenerateProgram(rules: seq<RangeRule>, default: int, arch: u32) returns (prog: seq<Instr>)
    requires rules != [] && forall i :: 0 <= i < |rules| ==> IsRule(rules[i])
    requires IsAction(default)
    ensures prog == Reversed(CompileRules(rules, default, arch).code)
  {
    hide AtRest, IsAction, Codegen.GenerateRules, Codegen.CheckArch, IsRule, Reversed;
    FreshIsAtRest();
    RulesRest(FRESH, rules);
    PositiveAction(default);
    var g := new Generator();
    var begin := |g.code| - 1;
    var next := g.GenerateRules(rules);
    if next > begin {
      AppendRests(g.State(), LdAbs(NR_OFFSET));
      next := g.AddInstruction(LdAbs(NR_OFFSET));
      begin := next;
    } else {
      next := -default;
    }
    g.CheckArch(begin, next, arch);
    g.ReverseInstructionBuffer();
    prog := g.code;
  }

  lemma TailIsList(m: seq<Mapping>, k: nat)
    requires IsDecisionList(m) && k < |m|
    ensures IsDecisionList(m[k..])
  {
    hide IsAction, IsNormal;
  }
}
