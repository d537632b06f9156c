/**
  The code emitted for a comparison takes the true target exactly when the comparison holds,
  from any register contents: through operand swaps, bit tests, the split into two words and
  loads shared between jumps.
 */
module Comparing {
  import opened Options
  import opened Words
  import opened Expression
  import opened Wide
  import opened Bpf
  import opened Policy
  import opened Codegen
  import opened Resolving

  /** What a run returns that continues at a target. */
  function Outcome(code: seq<Instr>, loc: int, a: u32, x: u32, d: SeccompData): (r: Option<u32>) {
    if loc >= 0 then Exec(code, loc, a, x, d)
    else if IsAction(-loc) then Some(ActionToBpf(-loc)) else None
  }

  /** From `loc` every run on `d` returns `res`, whatever A and X hold. */
  ghost predicate Decides(code: seq<Instr>, loc: int, d: SeccompData, res: Option<u32>) {
    forall a: u32, x: u32 :: Outcome(code, loc, a, x, d) == res
  }

  lemma OutcomeExtends(code: seq<Instr>, more: seq<Instr>, loc: int, a: u32, x: u32, d: SeccompData)
    requires code <= more && loc < |code|
    ensures Outcome(more, loc, a, x, d) == Outcome(code, loc, a, x, d)
  {
    hide Exec, ActionToBpf, IsAction;
    if loc >= 0 {
      ExecExtends(code, more, loc, a, x, d);
    }
  }

  lemma DecidesExtends(code: seq<Instr>, more: seq<Instr>, loc: int, d: SeccompData, res: Option<u32>)
    requires code <= more && loc < |code| && Decides(code, loc, d, res)
    ensures Decides(more, loc, d, res)
  {
    hide Outcome;
    forall a: u32, x: u32 ensures Outcome(more, loc, a, x, d) == res {
      OutcomeExtends(code, more, loc, a, x, d);
    }
  }

  lemma ReachesOutcome(code: seq<Instr>, at: int, loc: int, a: u32, x: u32, d: SeccompData)
    requires Reaches(code, at, loc)
    ensures Exec(code, at, a, x, d) == Outcome(code, loc, a, x, d)
  {
    hide ActionToBpf, IsAction;
  }

  // ----- jumps -----

  lemma AddJumpOutcome(g: Gen, op: JumpOp, src: Source, k: u32, tloc: int, floc: int, a: u32, x: u32, d: SeccompData)
    requires AtRest(g) && IsTarget(g.code, tloc) && IsTarget(g.code, floc)
    ensures var (g', r) := AddJump(g, op, src, k, tloc, floc);
            !g'.stale ==>
              Outcome(g'.code, r, a, x, d) ==
              Outcome(g.code, if Test(op, a, if src.K? then k else x) then tloc else floc, a, x, d)
  {
    hide AtRest, Reaches, ResolveLocation, ActionToBpf, IsAction, Test;
    var (g', r) := AddJump(g, op, src, k, tloc, floc);
    if tloc != floc {
      AddJumpForks(g, op, src, k, tloc, floc);
      if !g'.stale {
        var loc := if Test(op, a, if src.K? then k else x) then tloc else floc;
        var pos := if Test(op, a, if src.K? then k else x) then g'.code[r].jt else g'.code[r].jf;
        ReachesOutcome(g'.code, r - 1 - pos, loc, a, x, d);
        OutcomeExtends(g.code, g'.code, loc, a, x, d);
      }
    }
  }

  lemma AddJumpKOutcome(g: Gen, op: JumpOp, k: u32, tloc: int, floc: int, a: u32, x: u32, d: SeccompData)
    requires AtRest(g) && IsTarget(g.code, tloc) && IsTarget(g.code, floc)
    ensures var (g', r) := AddJumpK(g, op, k, tloc, floc);
            !g'.stale ==>
              Outcome(g'.code, r, a, x, d) == Outcome(g.code, if Test(op, a, k) then tloc else floc, a, x, d)
  {
    hide AtRest, AddJump, ActionToBpf, IsAction, Outcome;
    AddJumpOutcome(g, op, K, k, tloc, floc, a, x, d);
  }

  /** The value a branch compares A with. */
  function RightWord(p: Plan, w: Word, x: u32): (r: u32)
    requires p.Branch? && IsSimpleOperand(p.right)
  {
    if IsConst(p.right, w) then ValueOf(p.right, w) else x
  }

  lemma AddBranchOutcome(g: Gen, p: Plan, w: Word, a: u32, x: u32, d: SeccompData)
    requires AtRest(g) && p.Branch? && IsLoadable(p.left, w) && IsSimpleOperand(p.right)
    requires IsTarget(g.code, p.tloc) && IsTarget(g.code, p.floc)
    ensures var (g', r) := AddBranch(g, p, w);
            !g'.stale ==>
              Outcome(g'.code, r, a, x, d) ==
              Outcome(g.code, if Test(p.op, a, RightWord(p, w, x)) then p.tloc else p.floc, a, x, d)
  {
    hide AtRest, AddJump, AddJumpK, ActionToBpf, IsAction, Outcome, Test;
    if IsConst(p.right, w) {
      AddJumpKOutcome(g, p.op, ValueOf(p.right, w), p.tloc, p.floc, a, x, d);
    } else {
      AddJumpOutcome(g, p.op, X, 0, p.tloc, p.floc, a, x, d);
    }
  }

  /** A branch either emits a jump last, or emits nothing. */
  lemma AddBranchShape(g: Gen, p: Plan, w: Word)
    requires AtRest(g) && p.Branch? && IsLoadable(p.left, w) && IsSimpleOperand(p.right)
    requires IsTarget(g.code, p.tloc) && IsTarget(g.code, p.floc)
    ensures var (g', r) := AddBranch(g, p, w);
            && AtRest(g') && (!g'.stale ==> !g.stale)
            && ((r == g'.Current() && r > g.Current()) || (g' == g && (r == p.tloc || r == p.floc)))
  {
    hide AtRest, ResolveLocation, Forks, ActionToBpf, IsAction;
    if p.tloc != p.floc {
      AddJumpForks(g, p.op, if IsConst(p.right, w) then K else X,
                   if IsConst(p.right, w) then ValueOf(p.right, w) else 0, p.tloc, p.floc);
    }
  }

  // ----- loads -----

  lemma LoadWordOfArg(d: SeccompData, v: nat, w: Word)
    requires v < MAX_ARGS
    ensures LoadWord(d, ArgOffset(v, w)) == Some(WordOf(d.args[v], w))
  {
  }

  lemma ConstValue(e: Expr, w: Word, args: Args)
    requires IsSimpleOperand(e) && IsConst(e, w)
    ensures ValueOf(e, w) == WordValue(e, w, args)
  {
    if e.Mask? {
      BitAndWords(FullValue(e.left, args), FullValue(e.right, args));
    }
  }

  /** What X holds after loading `e`. */
  function XAfter(e: Expr, w: Word, x: u32, args: Args): (r: u32)
    requires IsSimpleOperand(e)
  {
    if IsVarMask(e) then WordValue(e.right, w, args) else x
  }

  lemma LoadVar(g: Gen, e: Expr, w: Word, a: u32, x: u32, d: SeccompData)
    requires g.code != [] && IsVar(e)
    ensures var g' := GenerateLoad(g, e, w);
            Exec(g'.code, g'.Current(), a, x, d) == Exec(g.code, g.Current(), WordValue(e, w, d.args), x, d)
  {
    hide LoadWord;
    var ld := LdAbs(ArgOffset(e.v, w));
    LoadWordOfArg(d, e.v, w);
    ExecExtends(g.code, g.code + [ld], g.Current(), WordValue(e, w, d.args), x, d);
  }

  lemma AppendAnd(g: Gen, i: Instr, a: u32, x: u32, d: SeccompData)
    requires g.code != [] && (i.AndK? || i.AndX? || i.Tax?)
    ensures var g' := AddInstruction(g, i);
            Exec(g'.code, g'.Current(), a, x, d) ==
               Exec(g.code, g.Current(),
                    if i.AndK? then BitAnd(a, i.k) else if i.AndX? then BitAnd(a, x) else a,
                    if i.Tax? then a else x, d)
  {
    hide BitAnd;
    ExecExtends(g.code, g.code + [i], g.Current(),
                if i.AndK? then BitAnd(a, i.k) else if i.AndX? then BitAnd(a, x) else a,
                if i.Tax? then a else x, d);
  }

  lemma MaskWord(e: Expr, w: Word, args: Args)
    requires e.Mask? && IsSimpleOperand(e)
    ensures WordValue(e, w, args) == BitAnd(WordValue(e.left, w, args), WordValue(e.right, w, args))
  {
    BitAndWords(FullValue(e.left, args), FullValue(e.right, args));
  }

  /** Loading puts the operand's word into A and falls through to the older code. */
  lemma GenerateLoadOutcome(g: Gen, e: Expr, w: Word, a: u32, x: u32, d: SeccompData)
    requires g.code != [] && IsLoadable(e, w)
    ensures var g' := GenerateLoad(g, e, w);
            Exec(g'.code, g'.Current(), a, x, d) ==
            Exec(g.code, g.Current(), WordValue(e, w, d.args), XAfter(e, w, x, d.args), d)
  {
    hide Exec, WordValue;
    if e.Var? {
      LoadVar(g, e, w, a, x, d);
    } else if IsConst(e.right, w) {
      var and := AndK(ValueOf(e.right, w));
      AppendAnd(g, and, WordValue(e.left, w, d.args), x, d);
      LoadVar(AddInstruction(g, and), e.left, w, a, x, d);
      ConstValue(e.right, w, d.args);
      MaskWord(e, w, d.args);
    } else {
      var right := WordValue(e.right, w, d.args);
      var g1 := AddInstruction(g, AndX);
      AppendAnd(g, AndX, WordValue(e.left, w, d.args), right, d);
      var g2 := GenerateLoad(g1, e.left, w);
      LoadVar(g1, e.left, w, right, right, d);
      AppendAnd(g2, Tax, right, x, d);
      LoadVar(AddInstruction(g2, Tax), e.right, w, a, x, d);
      MaskWord(e, w, d.args);
    }
  }

  /** The operand that the left one is really compared with. A right operand that is not constant
      waits in X, and loading a mask of two variables puts its second variable there. */
  function SeenOperand(l: Expr, r: Expr, w: Word): (seen: Expr)
    requires IsSimpleOperand(l) && IsSimpleOperand(r)
    ensures IsSimpleOperand(seen)
  {
    if IsVarMask(l) && !IsConst(r, w) then l.right else r
  }

  function SeenWord(l: Expr, r: Expr, w: Word, args: Args): (n: u32)
    requires IsSimpleOperand(l) && IsSimpleOperand(r)
  {
    WordValue(SeenOperand(l, r, w), w, args)
  }

  /** Loading a branch makes its test decide between the left operand's word and the word seen. */
  lemma LoadBranchOutcome(g: Gen, p: Plan, w: Word, a: u32, x: u32, d: SeccompData)
    requires g.code != [] && p.Branch? && IsLoadable(p.left, w) && IsSimpleOperand(p.right)
    ensures var g' := LoadBranch(g, p, w);
            exists x' ::
              && RightWord(p, w, x') == SeenWord(p.left, p.right, w, d.args)
              && (IsVarMask(p.left) ==> x' == WordValue(p.left.right, w, d.args))
              && Exec(g'.code, g'.Current(), a, x, d) ==
                 Exec(g.code, g.Current(), WordValue(p.left, w, d.args), x', d)
  {
    hide Exec, WordValue;
    if IsConst(p.right, w) {
      GenerateLoadOutcome(g, p.left, w, a, x, d);
      ConstValue(p.right, w, d.args);
      assert RightWord(p, w, XAfter(p.left, w, x, d.args)) == SeenWord(p.left, p.right, w, d.args);
    } else {
      var right := WordValue(p.right, w, d.args);
      var g1 := GenerateLoad(g, p.left, w);
      GenerateLoadOutcome(g, p.left, w, right, right, d);
      var x1 := XAfter(p.right, w, x, d.args);
      AppendAnd(g1, Tax, right, x1, d);
      GenerateLoadOutcome(AddInstruction(g1, Tax), p.right, w, a, x, d);
      assert RightWord(p, w, XAfter(p.left, w, right, d.args)) == SeenWord(p.left, p.right, w, d.args);
    }
  }

  // ----- the state stays at rest, whatever happens to offsets -----

  lemma AppendRests(g: Gen, i: Instr)
    requires AtRest(g) && g.code != [] && !i.Ret? && !i.Ja? && !i.Jump?
    requires i.LdAbs? ==> i.offset % 4 == 0 && i.offset < ARGS_OFFSET + 8 * MAX_ARGS
    ensures AtRest(AddInstruction(g, i))
  {
    hide IsAnchored, IsClosed, TrailAtMost;
    AppendKeepsInv(g, i, 0);
  }

  lemma {:induction false} GenerateLoadRests(g: Gen, e: Expr, w: Word)
    requires AtRest(g) && g.code != [] && IsLoadable(e, w)
    ensures AtRest(GenerateLoad(g, e, w))
    decreases e
  {
    hide AtRest;
    if e.Var? {
      AppendRests(g, LdAbs(ArgOffset(e.v, w)));
    } else if IsConst(e.right, w) {
      AppendRests(g, AndK(ValueOf(e.right, w)));
      GenerateLoadRests(AddInstruction(g, AndK(ValueOf(e.right, w))), e.left, w);
    } else {
      AppendRests(g, AndX);
      GenerateLoadRests(AddInstruction(g, AndX), e.left, w);
      var g1 := GenerateLoad(AddInstruction(g, AndX), e.left, w);
      AppendRests(g1, Tax);
      GenerateLoadRests(AddInstruction(g1, Tax), e.right, w);
    }
  }

  lemma LoadBranchRests(g: Gen, p: Plan, w: Word)
    requires AtRest(g) && g.code != [] && p.Branch? && IsLoadable(p.left, w) && IsSimpleOperand(p.right)
    ensures AtRest(LoadBranch(g, p, w))
  {
    hide AtRest, GenerateLoad;
    GenerateLoadRests(g, p.left, w);
    if !IsConst(p.right, w) {
      var g1 := GenerateLoad(g, p.left, w);
      AppendRests(g1, Tax);
      GenerateLoadRests(AddInstruction(g1, Tax), p.right, w);
    }
  }

  /** Comparing a word keeps the invariant and ends on a fresh location or an old target. */
  lemma Cmp32Rests(g: Gen, op: JumpOp, l: Expr, r: Expr, tloc: int, floc: int, w: Word, load: Load)
    requires AtRest(g) && IsSimpleOperand(l) && IsSimpleOperand(r)
    requires IsTarget(g.code, tloc) && IsTarget(g.code, floc) && (load.Always? ==> g.code != [])
    ensures var (g', next) := GenerateCmp32(g, op, l, r, tloc, floc, w, load);
            && AtRest(g') && (g.stale ==> g'.stale)
            && (next == tloc || next == floc || next > g.Current())
  {
    hide AtRest, AddBranch, LoadBranch, PlanCompare, IsAction;
    var p := PlanCompare(op, l, r, tloc, floc, w);
    if p.Branch? {
      AddBranchShape(g, p, w);
      var (g1, next) := AddBranch(g, p, w);
      if load.Always? || (!load.Never? && next > g.Current()) {
        LoadBranchRests(g1, p, w);
      }
    }
  }

  // ----- one word -----

  /** Where a branch goes once its operands have been loaded. */
  function Goal(p: Plan, w: Word, args: Args): (loc: int)
    requires p.Branch? ==> IsSimpleOperand(p.left) && IsSimpleOperand(p.right)
  {
    match p
    case Settled(loc) => loc
    case Branch(op, l, r, tloc, floc) =>
      if Test(op, WordValue(l, w, args), SeenWord(l, r, w, args)) then tloc else floc
  }

  lemma TestBitsGoal(p: Plan, w: Word, args: Args)
    requires p.Branch? && IsLoadable(p.left, w) && IsSimpleOperand(p.right)
    ensures Goal(TestBits(p, w), w, args) == Goal(p, w, args)
  {
    hide BitAnd, WordValue;
    if p.left.Mask? {
      MaskWord(p.left, w, args);
    }
    if IsConst(p.right, w) {
      ConstValue(p.right, w, args);
    }
  }

  lemma ConstantSeesAll(l: Expr, r: Expr, w: Word)
    requires IsSimpleOperand(l) && IsSimpleOperand(r) && IsConst(l, w)
    ensures SeenOperand(l, r, w) == r && SeenOperand(r, l, w) == l
  {
  }

  /** The plan goes where the planned comparison goes. */
  lemma PlanCompareGoal(op: JumpOp, l: Expr, r: Expr, tloc: int, floc: int, w: Word, args: Args)
    requires IsSimpleOperand(l) && IsSimpleOperand(r)
    ensures Goal(PlanCompare(op, l, r, tloc, floc, w), w, args) ==
            if Test(op, WordValue(l, w, args), SeenWord(l, r, w, args)) then tloc else floc
  {
    hide BitAnd, WordValue, TestBits;
    if !IsConst(l, w) {
      TestBitsGoal(Branch(op, l, r, tloc, floc), w, args);
    } else if IsConst(r, w) {
      ConstantSeesAll(l, r, w);
      ConstValue(l, w, args);
      ConstValue(r, w, args);
    } else {
      ConstantSeesAll(l, r, w);
      BitAndCommutes(WordValue(l, w, args), WordValue(r, w, args));
      TestBitsGoal(SwapOperands(op, l, r, tloc, floc), w, args);
    }
  }

  /** A branch that emits nothing goes to the planned goal whatever A and X hold. */
  lemma SilentBranch(g: Gen, p: Plan, w: Word, d: SeccompData, res: Option<u32>)
    requires AtRest(g) && p.Branch? && IsLoadable(p.left, w) && IsSimpleOperand(p.right)
    requires IsTarget(g.code, p.tloc) && IsTarget(g.code, p.floc)
    requires AddBranch(g, p, w).0 == g && !g.stale
    requires Decides(g.code, Goal(p, w, d.args), d, res)
    requires exists other :: Decides(g.code, AddBranch(g, p, w).1, d, other)
    ensures Decides(g.code, AddBranch(g, p, w).1, d, res)
  {
    hide AtRest, AddBranch, Outcome, WordValue, Test, IsTarget;
    var other :| Decides(g.code, AddBranch(g, p, w).1, d, other);
    var a, x := WordValue(p.left, w, d.args), SeenWord(p.left, p.right, w, d.args);
    AddBranchOutcome(g, p, w, a, x, d);
    if IsConst(p.right, w) {
      ConstValue(p.right, w, d.args);
    }
    assert Outcome(g.code, AddBranch(g, p, w).1, a, x, d) == res;
  }

  /** A loaded branch goes to the planned goal from any A and X. */
  lemma LoadedBranch(g: Gen, p: Plan, w: Word, d: SeccompData, res: Option<u32>)
    requires AtRest(g) && p.Branch? && IsLoadable(p.left, w) && IsSimpleOperand(p.right)
    requires IsTarget(g.code, p.tloc) && IsTarget(g.code, p.floc)
    requires var (g1, next) := AddBranch(g, p, w); !g1.stale && next == g1.Current() && next > g.Current()
    requires Decides(g.code, Goal(p, w, d.args), d, res)
    ensures var g2 := LoadBranch(AddBranch(g, p, w).0, p, w);
            Decides(g2.code, g2.Current(), d, res)
  {
    hide AtRest, AddBranch, LoadBranch, Exec, WordValue, Test, IsTarget;
    var (g1, next) := AddBranch(g, p, w);
    AddBranchShape(g, p, w);
    var g2 := LoadBranch(g1, p, w);
    forall a: u32, x: u32 ensures Outcome(g2.code, g2.Current(), a, x, d) == res {
      LoadBranchOutcome(g1, p, w, a, x, d);
      var a' := WordValue(p.left, w, d.args);
      var x' :| RightWord(p, w, x') == SeenWord(p.left, p.right, w, d.args) &&
                Exec(g2.code, g2.Current(), a, x, d) == Exec(g1.code, g1.Current(), a', x', d);
      AddBranchOutcome(g, p, w, a', x', d);
    }
  }

  /** Comparing one word with its own load: from any A and X the code takes the true target
      exactly when the word compares so with the word seen. */
  lemma Cmp32Decides(g: Gen, op: JumpOp, l: Expr, r: Expr, tloc: int, floc: int, w: Word, d: SeccompData,
                     rt: Option<u32>, rf: Option<u32>)
    requires AtRest(g) && IsSimpleOperand(l) && IsSimpleOperand(r)
    requires IsTarget(g.code, tloc) && IsTarget(g.code, floc)
    requires Decides(g.code, tloc, d, rt) && Decides(g.code, floc, d, rf)
    requires !GenerateCmp32(g, op, l, r, tloc, floc, w, Normal).0.stale
    ensures var (g', next) := GenerateCmp32(g, op, l, r, tloc, floc, w, Normal);
            Decides(g'.code, next, d, if Test(op, WordValue(l, w, d.args), SeenWord(l, r, w, d.args)) then rt else rf)
  {
    hide AtRest, AddBranch, LoadBranch, WordValue, Test, IsAction, PlanCompare, Goal, Decides;
    var p := PlanCompare(op, l, r, tloc, floc, w);
    var res := if Test(op, WordValue(l, w, d.args), SeenWord(l, r, w, d.args)) then rt else rf;
    PlanCompareGoal(op, l, r, tloc, floc, w, d.args);
    assert Decides(g.code, Goal(p, w, d.args), d, res);
    if p.Branch? {
      AddBranchShape(g, p, w);
      if AddBranch(g, p, w).1 > g.Current() {
        LoadedBranch(g, p, w, d, res);
      } else {
        SilentBranch(g, p, w, d, res);
      }
    } else {
      SettledGoal(p, w, d.args);
    }
  }

  lemma SettledGoal(p: Plan, w: Word, args: Args)
    requires p.Settled?
    ensures Goal(p, w, args) == p.loc
  {
  }

  // ----- two words -----

  /** A branch on `>= 0` is no branch at all. */
  predicate IsTrivialGe(p: Plan, w: Word)
    requires p.Branch? && IsSimpleOperand(p.right)
  {
    p.op.JGe? && IsConst(p.right, w) && ValueOf(p.right, w) == 0
  }

  /** The registers loaded for the `>` branch on a word also serve the `>=` branch on it. */
  lemma SharedLoad(l: Expr, r: Expr, w: Word, p: Plan, q: Plan, tloc: int, floc: int, tloc': int, floc': int,
                   x: u32, args: Args)
    requires IsSimpleOperand(l) && IsSimpleOperand(r)
    requires p == PlanCompare(JGe, l, r, tloc, floc, w) && p.Branch? && !IsTrivialGe(p, w)
    requires q == PlanCompare(JGt, l, r, tloc', floc', w) && q.Branch?
    requires RightWord(q, w, x) == SeenWord(q.left, q.right, w, args)
    requires IsVarMask(q.left) ==> x == WordValue(q.left.right, w, args)
    ensures Test(p.op, WordValue(q.left, w, args), RightWord(p, w, x)) ==
            Test(p.op, WordValue(p.left, w, args), SeenWord(p.left, p.right, w, args))
  {
    hide BitAnd, WordValue;
    if IsConst(l, w) && r.Mask? {
      MaskWord(r, w, args);
      BitAndAbsorbs(WordValue(r.left, w, args), WordValue(r.right, w, args));
      if IsConst(r.right, w) {
        ConstValue(r.right, w, args);
      }
    }
    if IsConst(l, w) {
      ConstValue(l, w, args);
    }
  }

  /** When the `>` branch emits nothing, it falls to the newer of its two targets. */
  lemma SilentGt(g: Gen, l: Expr, r: Expr, tloc: int, next: int, w: Word)
    requires AtRest(g) && IsSimpleOperand(l) && IsSimpleOperand(r)
    requires IsTarget(g.code, tloc) && next == g.Current() && next >= 0 && tloc < next
    ensures var q := PlanCompare(JGt, l, r, tloc, next, w);
            q.Branch? ==>
              var (g', r) := AddBranch(g, q, w); AtRest(g') && r == g'.Current() && (g.stale ==> g'.stale)
  {
    hide AtRest, ResolveLocation, IsAction, AddJump;
    var q := PlanCompare(JGt, l, r, tloc, next, w);
    if q.Branch? {
      AddBranchShape(g, q, w);
      assert q.tloc != q.floc;
      AddJumpForks(g, q.op, if IsConst(q.right, w) then K else X,
                   if IsConst(q.right, w) then ValueOf(q.right, w) else 0, q.tloc, q.floc);
    }
  }

  /** An emitted `>=` branch without a load is never the trivial one. */
  lemma EmittedGe(g: Gen, p: Plan, w: Word)
    requires AtRest(g) && p.Branch? && IsLoadable(p.left, w) && IsSimpleOperand(p.right)
    requires IsTarget(g.code, p.tloc) && IsTarget(g.code, p.floc)
    requires AddBranch(g, p, w).1 > g.Current()
    ensures !IsTrivialGe(p, w)
    ensures AddBranch(g, p, w).1 == AddBranch(g, p, w).0.Current()
  {
    hide AtRest, IsAction, AddJump;
    AddBranchShape(g, p, w);
  }

  /** The registers set up by the `>` branch carry over: entering the `>=` branch with them
      settles the comparison of the high words. */
  lemma SharedGe(g: Gen, l: Expr, r: Expr, p: Plan, q: Plan, next: int, floc: int, tloc': int, floc': int,
                 w: Word, x: u32, d: SeccompData, res: Option<u32>)
    requires AtRest(g) && IsSimpleOperand(l) && IsSimpleOperand(r)
    requires IsTarget(g.code, next) && IsTarget(g.code, floc)
    requires p == PlanCompare(JGe, l, r, next, floc, w) && p.Branch?
    requires var (g', n) := AddBranch(g, p, w); n > g.Current() && !g'.stale
    requires q == PlanCompare(JGt, l, r, tloc', floc', w) && q.Branch?
    requires RightWord(q, w, x) == SeenWord(q.left, q.right, w, d.args)
    requires IsVarMask(q.left) ==> x == WordValue(q.left.right, w, d.args)
    requires Decides(g.code, Goal(p, w, d.args), d, res)
    ensures var (g', n) := AddBranch(g, p, w);
            Outcome(g'.code, n, WordValue(q.left, w, d.args), x, d) == res
  {
    hide AtRest, AddBranch, PlanCompare, Outcome, WordValue, Test, RightWord, IsTrivialGe;
    EmittedGe(g, p, w);
    SharedLoad(l, r, w, p, q, next, floc, tloc', floc', x, d.args);
    AddBranchOutcome(g, p, w, WordValue(q.left, w, d.args), x, d);
  }

  /** High words: greater decides at once, at least as great leaves it to the low words. */
  lemma HighWordsDecide(g: Gen, l: Expr, r: Expr, tloc: int, floc: int, next: int, d: SeccompData,
                        rt: Option<u32>, rf: Option<u32>, rlow: Option<u32>)
    requires AtRest(g) && IsSimpleOperand(l) && IsSimpleOperand(r)
    requires IsTarget(g.code, tloc) && IsTarget(g.code, floc) && IsTarget(g.code, next)
    requires Decides(g.code, tloc, d, rt) && Decides(g.code, floc, d, rf) && Decides(g.code, next, d, rlow)
    requires var (g2, next2) := GenerateCmp32(g, JGe, l, r, next, floc, High, Never);
             !GenerateCmp32(g2, JGt, l, r, tloc, next2, High, if next2 > g.Current() then Always else Normal).0.stale
    ensures var (g2, next2) := GenerateCmp32(g, JGe, l, r, next, floc, High, Never);
            var (g3, next3) := GenerateCmp32(g2, JGt, l, r, tloc, next2, High,
                                             if next2 > g.Current() then Always else Normal);
            var (hl, hr) := (WordValue(l, High, d.args), SeenWord(l, r, High, d.args));
            Decides(g3.code, next3, d, if hl > hr then rt else if hl >= hr then rlow else rf)
  {
    hide AtRest, AddBranch, LoadBranch, PlanCompare, WordValue, Decides, IsAction;
    var (g2, next2) := GenerateCmp32(g, JGe, l, r, next, floc, High, Never);
    if next2 > g.Current() {
      HighWordsShared(g, l, r, tloc, floc, next, d, rt, rf, rlow);
    } else {
      NeverIsNormal(g, JGe, l, r, next, floc, High);
      Cmp32Rests(g, JGe, l, r, next, floc, High, Never);
      Cmp32Rests(g2, JGt, l, r, tloc, next2, High, Normal);
      Cmp32Decides(g, JGe, l, r, next, floc, High, d, rlow, rf);
      var rge := if Test(JGe, WordValue(l, High, d.args), SeenWord(l, r, High, d.args)) then rlow else rf;
      DecidesExtends(g.code, g2.code, tloc, d, rt);
      Cmp32Decides(g2, JGt, l, r, tloc, next2, High, d, rt, rge);
    }
  }

  lemma NeverIsNormal(g: Gen, op: JumpOp, l: Expr, r: Expr, tloc: int, floc: int, w: Word)
    requires IsSimpleOperand(l) && IsSimpleOperand(r)
    requires IsTarget(g.code, tloc) && IsTarget(g.code, floc)
    requires GenerateCmp32(g, op, l, r, tloc, floc, w, Never).1 <= g.Current()
    ensures GenerateCmp32(g, op, l, r, tloc, floc, w, Normal) == GenerateCmp32(g, op, l, r, tloc, floc, w, Never)
  {
    hide AddBranch, LoadBranch, PlanCompare, IsAction;
  }

  lemma HighWordsShared(g: Gen, l: Expr, r: Expr, tloc: int, floc: int, next: int, d: SeccompData,
                        rt: Option<u32>, rf: Option<u32>, rlow: Option<u32>)
    requires AtRest(g) && IsSimpleOperand(l) && IsSimpleOperand(r)
    requires IsTarget(g.code, tloc) && IsTarget(g.code, floc) && IsTarget(g.code, next)
    requires Decides(g.code, tloc, d, rt) && Decides(g.code, floc, d, rf) && Decides(g.code, next, d, rlow)
    requires GenerateCmp32(g, JGe, l, r, next, floc, High, Never).1 > g.Current()
    requires var (g2, next2) := GenerateCmp32(g, JGe, l, r, next, floc, High, Never);
             !GenerateCmp32(g2, JGt, l, r, tloc, next2, High, Always).0.stale
    ensures var (g2, next2) := GenerateCmp32(g, JGe, l, r, next, floc, High, Never);
            var (g3, next3) := GenerateCmp32(g2, JGt, l, r, tloc, next2, High, Always);
            var (hl, hr) := (WordValue(l, High, d.args), SeenWord(l, r, High, d.args));
            Decides(g3.code, next3, d, if hl > hr then rt else if hl >= hr then rlow else rf)
  {
    hide AtRest, AddBranch, LoadBranch, PlanCompare, WordValue, Decides, IsAction;
    var (g2, next2) := GenerateCmp32(g, JGe, l, r, next, floc, High, Never);
    var p := PlanCompare(JGe, l, r, next, floc, High);
    AddBranchShape(g, p, High);
    var q := PlanCompare(JGt, l, r, tloc, next2, High);
    SameSides(l, r, next, floc, tloc, next2, High);
    SharedDecides(g, l, r, tloc, floc, next, d, rt, rf, rlow, p, q);
  }

  lemma SameSides(l: Expr, r: Expr, tloc: int, floc: int, tloc': int, floc': int, w: Word)
    requires IsSimpleOperand(l) && IsSimpleOperand(r)
    ensures PlanCompare(JGe, l, r, tloc, floc, w).Branch? == PlanCompare(JGt, l, r, tloc', floc', w).Branch?
  {
  }

  lemma SharedDecides(g: Gen, l: Expr, r: Expr, tloc: int, floc: int, next: int, d: SeccompData,
                      rt: Option<u32>, rf: Option<u32>, rlow: Option<u32>, p: Plan, q: Plan)
    requires AtRest(g) && IsSimpleOperand(l) && IsSimpleOperand(r)
    requires IsTarget(g.code, tloc) && IsTarget(g.code, floc) && IsTarget(g.code, next)
    requires Decides(g.code, tloc, d, rt) && Decides(g.code, floc, d, rf) && Decides(g.code, next, d, rlow)
    requires p == PlanCompare(JGe, l, r, next, floc, High) && p.Branch?
    requires AddBranch(g, p, High).1 > g.Current()
    requires q == PlanCompare(JGt, l, r, tloc, AddBranch(g, p, High).1, High) && q.Branch?
    requires AtRest(AddBranch(g, p, High).0) && !AddBranch(AddBranch(g, p, High).0, q, High).0.stale
    ensures var g2 := AddBranch(g, p, High).0;
            var g3 := LoadBranch(AddBranch(g2, q, High).0, q, High);
            var (hl, hr) := (WordValue(l, High, d.args), SeenWord(l, r, High, d.args));
            Decides(g3.code, g3.Current(), d, if hl > hr then rt else if hl >= hr then rlow else rf)
  {
    hide AtRest, AddBranch, LoadBranch, PlanCompare, WordValue, RightWord, Exec, IsAction;
    var (g2, next2) := AddBranch(g, p, High);
    var (hl, hr) := (WordValue(l, High, d.args), SeenWord(l, r, High, d.args));
    var res := if hl > hr then rt else if hl >= hr then rlow else rf;
    AddBranchShape(g, p, High);
    PlanCompareGoal(JGe, l, r, next, floc, High, d.args);
    PlanCompareGoal(JGt, l, r, tloc, next2, High, d.args);
    SilentGt(g2, l, r, tloc, next2, High);
    var g2' := AddBranch(g2, q, High).0;
    var g3 := LoadBranch(g2', q, High);
    forall a: u32, x: u32 ensures Outcome(g3.code, g3.Current(), a, x, d) == res {
      LoadBranchOutcome(g2', q, High, a, x, d);
      var a' := WordValue(q.left, High, d.args);
      var x' :| RightWord(q, High, x') == SeenWord(q.left, q.right, High, d.args) &&
                (IsVarMask(q.left) ==> x' == WordValue(q.left.right, High, d.args)) &&
                Exec(g3.code, g3.Current(), a, x, d) == Exec(g2'.code, g2'.Current(), a', x', d);
      AddBranchOutcome(g2, q, High, a', x', d);
      if hl > hr {
        OutcomeExtends(g.code, g2.code, tloc, a', x', d);
      } else {
        SharedGe(g, l, r, p, q, next, floc, tloc, next2, High, x', d, res);
      }
    }
  }
}
