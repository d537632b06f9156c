/**
  Code for whole expressions, for a rule's list of conditions and for the search over rules.
 */
module Generating {
  import opened Options
  import opened Words
  import opened Expression
  import opened Wide
  import opened Bpf
  import opened Policy
  import opened Codegen
  import opened Resolving
  import opened Comparing

  /** The value that the left operand is really compared with, word by word. */
  function SeenValue(l: Expr, r: Expr, args: Args): (n: u64)
    requires IsSimpleOperand(l) && IsSimpleOperand(r)
    ensures HighWord(n) == SeenWord(l, r, High, args) && LowWord(n) == SeenWord(l, r, Low, args)
  {
    WORD * SeenWord(l, r, High, args) + SeenWord(l, r, Low, args)
  }

  /** The truth value the emitted code computes, with no assumption on operands or arguments. */
  predicate CodeHolds(e: Expr, args: Args)
    requires IsNormal(e)
  {
    match e
    case And(l, r) => CodeHolds(l, args) && CodeHolds(r, args)
    case Or(l, r) => CodeHolds(l, args) || CodeHolds(r, args)
    case Compare(op, l, r) =>
      if Is64Bit(l) || Is64Bit(r) then CompareHolds(op, FullValue(l, args), SeenValue(l, r, args))
      else CompareHolds(op, WordValue(l, Low, args), SeenWord(l, r, Low, args))
  }

  /** A comparison of whole operands, as the jump operator sees it. */
  predicate WholeTest(op: JumpOp, l: Expr, r: Expr, args: Args)
    requires IsSimpleOperand(l) && IsSimpleOperand(r)
  {
    if Is64Bit(l) || Is64Bit(r) then
      match op
      case JEq => FullValue(l, args) == SeenValue(l, r, args)
      case JGt => FullValue(l, args) > SeenValue(l, r, args)
      case JGe => FullValue(l, args) >= SeenValue(l, r, args)
      case JSet => false
    else Test(op, WordValue(l, Low, args), SeenWord(l, r, Low, args))
  }

  lemma InequalityDecides(g: Gen, op: JumpOp, l: Expr, r: Expr, tloc: int, floc: int, d: SeccompData,
                          rt: Option<u32>, rf: Option<u32>)
    requires AtRest(g) && IsSimpleOperand(l) && IsSimpleOperand(r) && (op.JGt? || op.JGe?)
    requires IsTarget(g.code, tloc) && IsTarget(g.code, floc)
    requires Decides(g.code, tloc, d, rt) && Decides(g.code, floc, d, rf)
    requires !GenerateInequality(g, op, l, r, tloc, floc).0.stale
    ensures var (g', next) := GenerateInequality(g, op, l, r, tloc, floc);
            Decides(g'.code, next, d, if WholeTest(op, l, r, d.args) then rt else rf)
  {
    hide AtRest, GenerateCmp32, SeenWord, SeenValue, Decides, IsAction, Is64Bit;
    var (g1, next1) := GenerateCmp32(g, op, l, r, tloc, floc, Low, Normal);
    Cmp32Rests(g, op, l, r, tloc, floc, Low, Normal);
    var rlow := if Test(op, WordValue(l, Low, d.args), SeenWord(l, r, Low, d.args)) then rt else rf;
    if Is64Bit(l) || Is64Bit(r) {
      HighWordsRest(g1, l, r, tloc, floc, next1);
      Cmp32Decides(g, op, l, r, tloc, floc, Low, d, rt, rf);
      DecidesExtends(g.code, g1.code, tloc, d, rt);
      DecidesExtends(g.code, g1.code, floc, d, rf);
      HighWordsDecide(g1, l, r, tloc, floc, next1, d, rt, rf, rlow);
      CompareByWords(FullValue(l, d.args), SeenValue(l, r, d.args));
    } else {
      Cmp32Decides(g, op, l, r, tloc, floc, Low, d, rt, rf);
    }
  }

  lemma HighWordsRest(g: Gen, l: Expr, r: Expr, tloc: int, floc: int, next: int)
    requires AtRest(g) && IsSimpleOperand(l) && IsSimpleOperand(r)
    requires IsTarget(g.code, tloc) && IsTarget(g.code, floc) && IsTarget(g.code, next)
    ensures var (g2, next2) := GenerateCmp32(g, JGe, l, r, next, floc, High, Never);
            var (g3, next3) := GenerateCmp32(g2, JGt, l, r, tloc, next2, High,
                                             if next2 > g.Current() then Always else Normal);
            && AtRest(g3) && (g.stale ==> g3.stale)
            && (next3 in {tloc, floc, next} || next3 > g.Current())
  {
    hide AtRest, GenerateCmp32, IsAction;
    var (g2, next2) := GenerateCmp32(g, JGe, l, r, next, floc, High, Never);
    Cmp32Rests(g, JGe, l, r, next, floc, High, Never);
    Cmp32Rests(g2, JGt, l, r, tloc, next2, High, if next2 > g.Current() then Always else Normal);
  }

  lemma EqualityDecides(g: Gen, l: Expr, r: Expr, tloc: int, floc: int, d: SeccompData,
                        rt: Option<u32>, rf: Option<u32>)
    requires AtRest(g) && IsSimpleOperand(l) && IsSimpleOperand(r)
    requires IsTarget(g.code, tloc) && IsTarget(g.code, floc)
    requires Decides(g.code, tloc, d, rt) && Decides(g.code, floc, d, rf)
    requires !GenerateEquality(g, l, r, tloc, floc).0.stale
    ensures var (g', next) := GenerateEquality(g, l, r, tloc, floc);
            Decides(g'.code, next, d, if WholeTest(JEq, l, r, d.args) then rt else rf)
  {
    hide AtRest, GenerateCmp32, SeenWord, SeenValue, Decides, IsAction, Is64Bit;
    var (g1, next1) := GenerateCmp32(g, JEq, l, r, tloc, floc, Low, Normal);
    Cmp32Rests(g, JEq, l, r, tloc, floc, Low, Normal);
    var rlow := if Test(JEq, WordValue(l, Low, d.args), SeenWord(l, r, Low, d.args)) then rt else rf;
    if Is64Bit(l) || Is64Bit(r) {
      Cmp32Rests(g1, JEq, l, r, next1, floc, High, Normal);
      Cmp32Decides(g, JEq, l, r, tloc, floc, Low, d, rt, rf);
      DecidesExtends(g.code, g1.code, floc, d, rf);
      Cmp32Decides(g1, JEq, l, r, next1, floc, High, d, rlow, rf);
      CompareByWords(FullValue(l, d.args), SeenValue(l, r, d.args));
    } else {
      Cmp32Decides(g, JEq, l, r, tloc, floc, Low, d, rt, rf);
    }
  }

  // ----- expressions -----

  /** Generating an expression keeps the invariant and ends on a fresh location or a target. */
  lemma {:induction false} ExprRests(g: Gen, e: Expr, tloc: int, floc: int)
    requires AtRest(g) && IsNormal(e) && IsTarget(g.code, tloc) && IsTarget(g.code, floc)
    ensures var (g', next) := GenerateExpr(g, e, tloc, floc);
            && AtRest(g') && (g.stale ==> g'.stale)
            && (next == tloc || next == floc || next > g.Current())
    decreases e
  {
    hide AtRest, GenerateCmp32, IsAction;
    match e
    case And(l, r) =>
      ExprRests(g, r, tloc, floc);
      var (g1, next) := GenerateExpr(g, r, tloc, floc);
      ExprRests(g1, l, next, floc);
    case Or(l, r) =>
      ExprRests(g, r, tloc, floc);
      var (g1, next) := GenerateExpr(g, r, tloc, floc);
      ExprRests(g1, l, tloc, next);
    case Compare(op, l, r) =>
      if op.Le? || op.Lt? || op.Neq? {
        CompareRests(g, op, l, r, floc, tloc);
      } else {
        CompareRests(g, op, l, r, tloc, floc);
      }
  }

  lemma CompareRests(g: Gen, op: CompareOp, l: Expr, r: Expr, tloc: int, floc: int)
    requires AtRest(g) && IsSimpleOperand(l) && IsSimpleOperand(r)
    requires IsTarget(g.code, tloc) && IsTarget(g.code, floc)
    ensures var (g', next) :=
              if op.Eq? || op.Neq? then GenerateEquality(g, l, r, tloc, floc)
              else GenerateInequality(g, if op.Gt? || op.Le? then JGt else JGe, l, r, tloc, floc);
            && AtRest(g') && (g.stale ==> g'.stale)
            && (next == tloc || next == floc || next > g.Current())
  {
    hide AtRest, GenerateCmp32, IsAction;
    var jump := if op.Eq? || op.Neq? then JEq else if op.Gt? || op.Le? then JGt else JGe;
    var (g1, next1) := GenerateCmp32(g, jump, l, r, tloc, floc, Low, Normal);
    Cmp32Rests(g, jump, l, r, tloc, floc, Low, Normal);
    if op.Eq? || op.Neq? {
      Cmp32Rests(g1, JEq, l, r, next1, floc, High, Normal);
    } else {
      HighWordsRest(g1, l, r, tloc, floc, next1);
    }
  }

  /** Expression code is correct: from the location returned, with any A and X, the run goes on
      as from the true target exactly when the expression holds as the code sees it. */
  lemma {:induction false} ExprDecides(g: Gen, e: Expr, tloc: int, floc: int, d: SeccompData,
                                       rt: Option<u32>, rf: Option<u32>)
    requires AtRest(g) && IsNormal(e)
    requires IsTarget(g.code, tloc) && IsTarget(g.code, floc)
    requires Decides(g.code, tloc, d, rt) && Decides(g.code, floc, d, rf)
    requires !GenerateExpr(g, e, tloc, floc).0.stale
    ensures var (g', next) := GenerateExpr(g, e, tloc, floc);
            Decides(g'.code, next, d, if CodeHolds(e, d.args) then rt else rf)
    decreases e
  {
    hide AtRest, GenerateInequality, GenerateEquality, Decides, IsAction, SeenWord, SeenValue;
    match e
    case And(l, r) =>
      var (g1, next) := GenerateExpr(g, r, tloc, floc);
      ExprRests(g, r, tloc, floc);
      ExprRests(g1, l, next, floc);
      ExprDecides(g, r, tloc, floc, d, rt, rf);
      DecidesExtends(g.code, g1.code, floc, d, rf);
      ExprDecides(g1, l, next, floc, d, if CodeHolds(r, d.args) then rt else rf, rf);
    case Or(l, r) =>
      var (g1, next) := GenerateExpr(g, r, tloc, floc);
      ExprRests(g, r, tloc, floc);
      ExprRests(g1, l, tloc, next);
      ExprDecides(g, r, tloc, floc, d, rt, rf);
      DecidesExtends(g.code, g1.code, tloc, d, rt);
      ExprDecides(g1, l, tloc, next, d, rt, if CodeHolds(r, d.args) then rt else rf);
    case Compare(op, l, r) =>
      match op
      case Le => InequalityDecides(g, JGt, l, r, floc, tloc, d, rf, rt);
      case Gt => InequalityDecides(g, JGt, l, r, tloc, floc, d, rt, rf);
      case Lt => InequalityDecides(g, JGe, l, r, floc, tloc, d, rf, rt);
      case Ge => InequalityDecides(g, JGe, l, r, tloc, floc, d, rt, rf);
      case Neq => EqualityDecides(g, l, r, floc, tloc, d, rf, rt);
      case Eq => EqualityDecides(g, l, r, tloc, floc, d, rt, rf);
  }
}
