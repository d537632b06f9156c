/**
  The code generator as functions on its state. Code is emitted back to front, so a location
  is an index into the buffer and a target is either a location (>= 0) or a negated action.
 */
module Codegen {
  import opened Words
  import opened Expression
  import opened Wide
  import opened Bpf
  import opened Policy
  import opened RangeRules

  const INVALID_LOCATION: int := -0x8000_0000
  const MAX_JUMP: int := 255

  type Basics = s: seq<int> | |s| == 6
    witness [-0x8000_0000, -0x8000_0000, -0x8000_0000, -0x8000_0000, -0x8000_0000, -0x8000_0000]

  datatype CacheEntry = CacheEntry(action: int, location: int)

  /** The generator's state. `stale` is a history variable: it records that some jump was
      emitted whose false offset had been computed before a further instruction went in. */
  datatype Gen = Gen(code: seq<Instr>, basic: Basics, cache: seq<CacheEntry>, stale: bool)
  {
    function Current(): int { |code| - 1 }

    /** LOC_TO_JUMP: how far back a location lies from the newest instruction. */
    function Distance(loc: int): int { Current() - loc }
  }

  const FRESH: Gen := Gen([], [INVALID_LOCATION, INVALID_LOCATION, INVALID_LOCATION,
                               INVALID_LOCATION, INVALID_LOCATION, INVALID_LOCATION], [], false)

  predicate IsTarget(code: seq<Instr>, loc: int) {
    if loc < 0 then IsAction(-loc) else loc < |code|
  }

  function AddInstruction(g: Gen, i: Instr): (r: Gen) {
    g.(code := g.code + [i])
  }

  // ----- the cache of return instructions -----

  /** What purging leaves of the cache: the entries still close enough to jump to. */
  function Purged(cache: seq<CacheEntry>, current: int): (r: seq<CacheEntry>) {
    if cache == [] then []
    else
      var last := cache[|cache| - 1];
      Purged(cache[..|cache| - 1], current) + if current - last.location < MAX_JUMP then [last] else []
  }

  /** The index of the entry for `action`, or the cache's length. */
  function CacheIndex(cache: seq<CacheEntry>, action: int): (i: nat)
    ensures i <= |cache|
    ensures i < |cache| ==> cache[i].action == action
    ensures forall j :: 0 <= j < i ==> cache[j].action != action
  {
    if cache == [] then 0
    else if cache[0].action == action then 0
    else 1 + CacheIndex(cache[1..], action)
  }

  // ----- resolving targets to 8-bit jump offsets -----

  function ResolveAction(g: Gen, action: int): (r: (Gen, nat))
    requires IsAction(action)
    ensures g.code <= r.0.code <= g.code + [Ret(ActionToBpf(action))]
    ensures r.0.stale == g.stale
  {
    var ret := Ret(ActionToBpf(action));
    if action <= BASIC_MAX then
      var g' :=
        if g.basic[action] == INVALID_LOCATION || g.Distance(g.basic[action]) > MAX_JUMP then
          AddInstruction(g, ret).(basic := g.basic[action := |g.code|])
        else g;
      (g', g'.Distance(g'.basic[action]) % 256)
    else
      var i := CacheIndex(g.cache, action);
      if i < |g.cache| then
        var g' :=
          if g.Distance(g.cache[i].location) > MAX_JUMP then
            AddInstruction(g, ret).(cache := g.cache[i := CacheEntry(action, |g.code|)])
          else g;
        (g', g'.Distance(g'.cache[i].location) % 256)
      else
        var kept := Purged(g.cache, g.Current());
        (AddInstruction(g, ret).(cache := kept + [CacheEntry(action, |g.code|)]), 0)
  }

  function ResolveLocation(g: Gen, loc: int): (r: (Gen, nat))
    requires IsTarget(g.code, loc)
    ensures g.code <= r.0.code && |r.0.code| <= |g.code| + 1
    ensures r.0.stale == g.stale
  {
    if loc < 0 then ResolveAction(g, -loc)
    else if g.Distance(loc) > MAX_JUMP then (AddInstruction(g, Ja(g.Distance(loc))), 0)
    else (g, g.Distance(loc) % 256)
  }

  // ----- jumps -----

  function AddJump(g: Gen, op: JumpOp, src: Source, k: u32, tloc: int, floc: int): (r: (Gen, int))
    requires IsTarget(g.code, tloc) && IsTarget(g.code, floc)
    ensures g.code <= r.0.code && IsTarget(r.0.code, r.1)
  {
    if tloc == floc then (g, tloc)
    else
      var g1 := ResolveLocation(g, tloc).0;
      var (g2, fpos) := ResolveLocation(g1, floc);
      var (g3, tpos) := ResolveLocation(g2, tloc);
      var g4 := AddInstruction(g3, Jump(op, src, k, tpos, fpos));
      (g4.(stale := g.stale || |g3.code| > |g2.code|), g4.Current())
  }

  /** A jump against a constant; comparisons that cannot go both ways emit nothing. */
  function AddJumpK(g: Gen, op: JumpOp, k: u32, tloc: int, floc: int): (r: (Gen, int))
    requires IsTarget(g.code, tloc) && IsTarget(g.code, floc)
    ensures g.code <= r.0.code && IsTarget(r.0.code, r.1)
  {
    if op.JGt? && k == UINT32_MAX then (g, floc)
    else if op.JGe? && k == 0 then (g, tloc)
    else if op.JSet? && k == 0 then (g, floc)
    else AddJump(g, op, K, k, tloc, floc)
  }

  // ----- operands -----

  predicate IsConst(e: Expr, w: Word)
    requires IsMaskedOperand(e)
    decreases e, 0
  {
    match e
    case Number(_) => true
    case Var(_, _) => false
    case Mask(l, r) =>
      (IsConst(r, w) && ValueOf(r, w) == 0) || (IsConst(l, w) && ValueOf(l, w) == 0)
  }

  function ValueOf(e: Expr, w: Word): (r: u32)
    requires IsMaskedOperand(e) && IsConst(e, w)
    decreases e, 1
  {
    match e
    case Number(n) => WordOf(n, w)
    case Mask(_, _) => 0
  }

  function ArgOffset(v: nat, w: Word): (r: u32)
    requires v < MAX_ARGS
  {
    ARGS_OFFSET + 8 * v + (if w.High? then 4 else 0)
  }

  /** A mask of two variables: loading it needs X. */
  predicate IsVarMask(e: Expr) {
    e.Mask? && IsVar(e.left) && IsVar(e.right)
  }

  /** An operand that has to be loaded: not constant in word `w`. */
  predicate IsLoadable(e: Expr, w: Word) {
    IsSimpleOperand(e) && !IsConst(e, w)
  }

  function GenerateLoad(g: Gen, e: Expr, w: Word): (r: Gen)
    requires IsLoadable(e, w)
    ensures g.code < r.code && r.stale == g.stale && r.basic == g.basic && r.cache == g.cache
    decreases e
  {
    match e
    case Var(v, _) => AddInstruction(g, LdAbs(ArgOffset(v, w)))
    case Mask(l, r) =>
      if IsConst(r, w) then GenerateLoad(AddInstruction(g, AndK(ValueOf(r, w))), l, w)
      else
        var g1 := GenerateLoad(AddInstruction(g, AndX), l, w);
        GenerateLoad(AddInstruction(g1, Tax), r, w)
  }

  // ----- comparing one word -----

  datatype Load = Never | Normal | Always

  /** How one word is compared: already settled, or by a branch on loaded operands. */
  datatype Plan =
    | Settled(loc: int)
    | Branch(op: JumpOp, left: Expr, right: Expr, tloc: int, floc: int)

  /** Bring the constant to the right; an order comparison flips with its targets. */
  function SwapOperands(op: JumpOp, l: Expr, r: Expr, tloc: int, floc: int): Plan {
    match op
    case JGt => Branch(JGe, r, l, floc, tloc)
    case JGe => Branch(JGt, r, l, floc, tloc)
    case _ => Branch(op, r, l, tloc, floc)
  }

  /** Comparing a mask with zero becomes a bit test of its two parts. */
  function TestBits(b: Plan, w: Word): Plan
    requires b.Branch? && IsSimpleOperand(b.left) && IsSimpleOperand(b.right)
  {
    if (b.op.JEq? || b.op.JGt?) && b.left.Mask? && IsConst(b.right, w) && ValueOf(b.right, w) == 0 then
      var (l, r) := if IsConst(b.left.left, w) then (b.left.right, b.left.left) else (b.left.left, b.left.right);
      if b.op.JEq? then Branch(JSet, l, r, b.floc, b.tloc) else Branch(JSet, l, r, b.tloc, b.floc)
    else b
  }

  function PlanCompare(op: JumpOp, l: Expr, r: Expr, tloc: int, floc: int, w: Word): (p: Plan)
    requires IsSimpleOperand(l) && IsSimpleOperand(r)
    ensures p.Settled? ==> p.loc == tloc || p.loc == floc
    ensures p.Branch? ==> IsLoadable(p.left, w) && IsSimpleOperand(p.right)
    ensures p.Branch? ==> (p.tloc == tloc && p.floc == floc) || (p.tloc == floc && p.floc == tloc)
  {
    if IsConst(l, w) then
      if IsConst(r, w) then Settled(if Test(op, ValueOf(l, w), ValueOf(r, w)) then tloc else floc)
      else TestBits(SwapOperands(op, l, r, tloc, floc), w)
    else TestBits(Branch(op, l, r, tloc, floc), w)
  }

  function AddBranch(g: Gen, p: Plan, w: Word): (r: (Gen, int))
    requires p.Branch? && IsLoadable(p.left, w) && IsSimpleOperand(p.right)
    requires IsTarget(g.code, p.tloc) && IsTarget(g.code, p.floc)
    ensures g.code <= r.0.code && IsTarget(r.0.code, r.1)
  {
    if IsConst(p.right, w) then AddJumpK(g, p.op, ValueOf(p.right, w), p.tloc, p.floc)
    else AddJump(g, p.op, X, 0, p.tloc, p.floc)
  }

  /** Load both sides of a branch: the left one into A, a non-constant right one into X. */
  function LoadBranch(g: Gen, p: Plan, w: Word): (r: Gen)
    requires p.Branch? && IsLoadable(p.left, w) && IsSimpleOperand(p.right)
    ensures g.code < r.code && r.stale == g.stale
  {
    if IsConst(p.right, w) then GenerateLoad(g, p.left, w)
    else GenerateLoad(AddInstruction(GenerateLoad(g, p.left, w), Tax), p.right, w)
  }

  function GenerateCmp32(g: Gen, op: JumpOp, l: Expr, r: Expr, tloc: int, floc: int, w: Word,
                         load: Load): (res: (Gen, int))
    requires IsSimpleOperand(l) && IsSimpleOperand(r)
    requires IsTarget(g.code, tloc) && IsTarget(g.code, floc)
    ensures g.code <= res.0.code && IsTarget(res.0.code, res.1)
  {
    match PlanCompare(op, l, r, tloc, floc, w)
    case Settled(loc) => (g, loc)
    case Branch(op', l', r', tloc', floc') =>
      var p := Branch(op', l', r', tloc', floc');
      var (g1, next) := AddBranch(g, p, w);
      if load.Always? || (!load.Never? && next > g.Current()) then
        var g2 := LoadBranch(g1, p, w);
        (g2, g2.Current())
      else (g1, next)
  }

  // ----- comparing 64 bits -----

  function GenerateInequality(g: Gen, op: JumpOp, l: Expr, r: Expr, tloc: int, floc: int): (res: (Gen, int))
    requires IsSimpleOperand(l) && IsSimpleOperand(r)
    requires IsTarget(g.code, tloc) && IsTarget(g.code, floc)
    ensures g.code <= res.0.code && IsTarget(res.0.code, res.1)
  {
    var (g1, next1) := GenerateCmp32(g, op, l, r, tloc, floc, Low, Normal);
    if Is64Bit(l) || Is64Bit(r) then
      var (g2, next2) := GenerateCmp32(g1, JGe, l, r, next1, floc, High, Never);
      GenerateCmp32(g2, JGt, l, r, tloc, next2, High, if next2 > g1.Current() then Always else Normal)
    else (g1, next1)
  }

  function GenerateEquality(g: Gen, l: Expr, r: Expr, tloc: int, floc: int): (res: (Gen, int))
    requires IsSimpleOperand(l) && IsSimpleOperand(r)
    requires IsTarget(g.code, tloc) && IsTarget(g.code, floc)
    ensures g.code <= res.0.code && IsTarget(res.0.code, res.1)
  {
    var (g1, next) := GenerateCmp32(g, JEq, l, r, tloc, floc, Low, Normal);
    if Is64Bit(l) || Is64Bit(r) then GenerateCmp32(g1, JEq, l, r, next, floc, High, Normal)
    else (g1, next)
  }

  // ----- expressions -----

  function GenerateExpr(g: Gen, e: Expr, tloc: int, floc: int): (res: (Gen, int))
    requires IsNormal(e)
    requires IsTarget(g.code, tloc) && IsTarget(g.code, floc)
    ensures g.code <= res.0.code && IsTarget(res.0.code, res.1)
    decreases e
  {
    match e
    case And(l, r) =>
      var (g1, next) := GenerateExpr(g, r, tloc, floc);
      GenerateExpr(g1, l, next, floc)
    case Or(l, r) =>
      var (g1, next) := GenerateExpr(g, r, tloc, floc);
      GenerateExpr(g1, l, tloc, next)
    case Compare(op, l, r) =>
      match op
      case Le => GenerateInequality(g, JGt, l, r, floc, tloc)
      case Gt => GenerateInequality(g, JGt, l, r, tloc, floc)
      case Lt => GenerateInequality(g, JGe, l, r, floc, tloc)
      case Ge => GenerateInequality(g, JGe, l, r, tloc, floc)
      case Neq => GenerateEquality(g, l, r, floc, tloc)
      case Eq => GenerateEquality(g, l, r, tloc, floc)
  }

  // ----- rules -----

  /** A rule's list of conditions, generated from the last one to the first. */
  function GenerateMappings(g: Gen, mappings: seq<Mapping>): (res: (Gen, int))
    requires IsDecisionList(mappings)
    ensures g.code <= res.0.code && IsTarget(res.0.code, res.1)
  {
    if |mappings| == 1 then (g, -mappings[0].action)
    else
      assert IsDecisionList(mappings[1..]);
      var (g1, last) := GenerateMappings(g, mappings[1..]);
      GenerateExpr(g1, mappings[0].condition.value, -mappings[0].action, last)
  }

  function GenerateAction(g: Gen, rule: RangeRule): (res: (Gen, int))
    requires IsRule(rule)
    ensures g.code <= res.0.code && IsTarget(res.0.code, res.1)
  {
    if rule.action != CONDITIONAL then (g, -rule.action) else GenerateMappings(g, rule.mappings)
  }

  /** A balanced tree of jumps over the rules' first numbers. */
  function GenerateRules(g: Gen, rules: seq<RangeRule>): (res: (Gen, int))
    requires rules != [] && forall i :: 0 <= i < |rules| ==> IsRule(rules[i])
    ensures g.code <= res.0.code && IsTarget(res.0.code, res.1)
    decreases |rules|
  {
    if |rules| == 1 then GenerateAction(g, rules[0])
    else
      var mid := |rules| / 2;
      var (g1, lower) := GenerateRules(g, rules[..mid]);
      var (g2, upper) := GenerateRules(g1, rules[mid..]);
      AddJump(g2, JGe, K, rules[mid].first, upper, lower)
  }

  // ----- the whole program -----

  /** The search over the rules, then the check of the architecture in front of it. */
  function CompileRules(rules: seq<RangeRule>, default: int, arch: u32): (g: Gen)
    requires rules != [] && forall i :: 0 <= i < |rules| ==> IsRule(rules[i])
    requires IsAction(default)
  {
    var (g1, next1) := GenerateRules(FRESH, rules);
    if next1 > FRESH.Current() then
      var g2 := AddInstruction(g1, LdAbs(NR_OFFSET));
      CheckArch(g2, g2.Current(), g2.Current(), arch)
    else CheckArch(g1, FRESH.Current(), -default, arch)
  }

  function CheckArch(g: Gen, begin: int, next: int, arch: u32): (g': Gen)
    requires IsTarget(g.code, next)
  {
    var (g1, next1) := AddJump(g, JEq, K, arch, next, -KILL);
    if next1 > begin then AddInstruction(g1, LdAbs(ARCH_OFFSET))
    else if next1 < 0 then ResolveLocation(g1, next1).0
    else g1
  }
}
