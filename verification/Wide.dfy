/**
  The meaning compiled comparisons have, word by word. A comparison is 64 bits wide as soon
  as one operand is; then the high word of every variable takes part, also of a 4-byte one.
 */
module Wide {
  import opened Words
  import opened Expression

  datatype Word = High | Low

  function WordOf(n: u64, w: Word): (r: u32) {
    if w.High? then HighWord(n) else LowWord(n)
  }

  /** The value of an operand when variables denote their full 64-bit argument. */
  function FullValue(e: Expr, args: Args): (r: u64)
    requires IsMaskedOperand(e)
  {
    match e
    case Number(n) => n
    case Var(v, _) => args[v]
    case Mask(l, r) => BitAnd(FullValue(l, args), FullValue(r, args))
  }

  function WordValue(e: Expr, w: Word, args: Args): (r: u32)
    requires IsMaskedOperand(e)
  {
    WordOf(FullValue(e, args), w)
  }

  predicate Is64Bit(e: Expr)
    requires IsMaskedOperand(e)
  {
    match e
    case Number(n) => n > UINT32_MAX
    case Var(_, size) => size == 8
    case Mask(l, r) => Is64Bit(l) || Is64Bit(r)
  }

  /** The truth value the compiled code computes, with no assumption on the arguments. */
  predicate CompiledHolds(e: Expr, args: Args)
    requires IsNormal(e)
  {
    match e
    case And(l, r) => CompiledHolds(l, args) && CompiledHolds(r, args)
    case Or(l, r) => CompiledHolds(l, args) || CompiledHolds(r, args)
    case Compare(op, l, r) =>
      if Is64Bit(l) || Is64Bit(r) then CompareHolds(op, FullValue(l, args), FullValue(r, args))
      else CompareHolds(op, WordValue(l, Low, args), WordValue(r, Low, args))
  }

  // ----- 4-byte arguments with a high word -----

  /** Seen by the code, the high words lead to the verdict they are meant to lead to. A variable
      of 4 bytes is meant to have none. */
  predicate HighWordsTell(op: CompareOp, l: Expr, r: Expr, args: Args)
    requires IsMaskedOperand(l) && IsMaskedOperand(r)
  {
    var (h, k) := (HighWord(Value(l, args)), HighWord(Value(r, args)));
    var (h', k') := (WordValue(l, High, args), WordValue(r, High, args));
    var (a, b) := (WordValue(l, Low, args), WordValue(r, Low, args));
    match op
    case Eq => a != b || (h == k <==> h' == k')
    case Neq => a != b || (h == k <==> h' == k')
    case Gt => if a > b then h >= k <==> h' >= k' else h > k <==> h' > k'
    case Le => if a > b then h >= k <==> h' >= k' else h > k <==> h' > k'
    case Ge => if a >= b then h >= k <==> h' >= k' else h > k <==> h' > k'
    case Lt => if a >= b then h >= k <==> h' >= k' else h > k <==> h' > k'
  }

  /** The low word of an operand is the low word meant. */
  lemma LowWordIsMeant(e: Expr, args: Args)
    requires IsMaskedOperand(e)
    ensures WordValue(e, Low, args) == LowWord(Value(e, args))
    ensures !Is64Bit(e) ==> Value(e, args) == WordValue(e, Low, args)
  {
    if e.Mask? {
      BitAndWords(FullValue(e.left, args), FullValue(e.right, args));
      BitAndWords(Value(e.left, args), Value(e.right, args));
    }
  }

  /** A compiled comparison means what it says on given arguments if and only if it is 32 bits
      wide or the high words lead to the same verdict with and without what 4-byte variables
      carry there. */
  lemma ComparedRightIff(e: Expr, args: Args)
    requires IsNormalCompare(e)
    ensures CompiledHolds(e, args) == Holds(e, args) <==>
            (Is64Bit(e.left) || Is64Bit(e.right) ==> HighWordsTell(e.op, e.left, e.right, args))
  {
    hide Is64Bit, Value, FullValue;
    LowWordIsMeant(e.left, args);
    LowWordIsMeant(e.right, args);
    CompareByWords(FullValue(e.left, args), FullValue(e.right, args));
    CompareByWords(Value(e.left, args), Value(e.right, args));
  }

  /** The comparison of a 4-byte variable with a 64-bit constant is decided right exactly on
      these arguments. */
  lemma NarrowAgainstConstant(op: CompareOp, v: nat, n: u64, args: Args)
    requires v < MAX_ARGS && n > UINT32_MAX
    ensures var e := Compare(op, Var(v, 4), Number(n));
            CompiledHolds(e, args) == Holds(e, args) <==>
            match op
            case Eq => args[v] != n
            case Neq => args[v] != n
            case Gt => args[v] <= n
            case Le => args[v] <= n
            case Ge => args[v] < n
            case Lt => args[v] < n
  {
  }

  /** Every 64-bit comparison in `e` is told right by its high words. */
  predicate TellsThroughout(e: Expr, args: Args)
    requires IsNormal(e)
  {
    match e
    case And(l, r) => TellsThroughout(l, args) && TellsThroughout(r, args)
    case Or(l, r) => TellsThroughout(l, args) && TellsThroughout(r, args)
    case Compare(op, l, r) => Is64Bit(l) || Is64Bit(r) ==> HighWordsTell(op, l, r, args)
  }

  lemma {:induction false} CompiledMeaning(e: Expr, args: Args)
    requires IsNormal(e) && IsCondition(e) && TellsThroughout(e, args)
    ensures CompiledHolds(e, args) == Holds(e, args)
  {
    hide HighWordsTell, CompareHolds, Is64Bit;
    match e
    case And(l, r) => CompiledMeaning(l, args); CompiledMeaning(r, args);
    case Or(l, r) => CompiledMeaning(l, args); CompiledMeaning(r, args);
    case Compare(op, l, r) => ComparedRightIff(e, args);
  }

  /** Without that proviso the high half of a 4-byte argument is compared too: with garbage
      there, `fd < 2^32` is false although every 4-byte value is below 2^32. */
  lemma DirtyNarrowArgumentMisleads()
    ensures var e := Compare(Lt, Var(0, 4), Number(WORD));
            var args: Args := [WORD, 0, 0, 0, 0, 0];
            IsNormal(e) && Holds(e, args) && !CompiledHolds(e, args)
  {
  }

  /** Wherever a 4-byte variable meets a 64-bit operand its argument fits in 32 bits. */
  predicate NarrowArgsFit(e: Expr, args: Args)
    requires IsDecidable(e)
  {
    match e
    case Not(c) => NarrowArgsFit(c, args)
    case And(l, r) => NarrowArgsFit(l, args) && NarrowArgsFit(r, args)
    case Or(l, r) => NarrowArgsFit(l, args) && NarrowArgsFit(r, args)
    case Compare(_, l, r) => Is64Bit(l) || Is64Bit(r) ==> OperandFits(l, args) && OperandFits(r, args)
    case _ => true
  }

  predicate OperandFits(e: Expr, args: Args)
    requires IsMaskedOperand(e)
  {
    match e
    case Number(_) => true
    case Var(v, size) => size == 4 ==> args[v] < WORD
    case Mask(l, r) => OperandFits(l, args) && OperandFits(r, args)
  }

  /** Comparing 64-bit values is comparing high words first and low words on a tie. */
  lemma CompareByWords(a: u64, b: u64)
    ensures a > b <==> HighWord(a) > HighWord(b) || (HighWord(a) >= HighWord(b) && LowWord(a) > LowWord(b))
    ensures a >= b <==> HighWord(a) > HighWord(b) || (HighWord(a) >= HighWord(b) && LowWord(a) >= LowWord(b))
    ensures a == b <==> HighWord(a) == HighWord(b) && LowWord(a) == LowWord(b)
  {
  }

  // ----- arguments that fit -----

  lemma FittingValue(e: Expr, args: Args)
    requires IsMaskedOperand(e) && OperandFits(e, args)
    ensures Value(e, args) == FullValue(e, args)
  {
  }

  /** Simplification introduces no variables and widens no comparison, so arguments that fit a
      condition are told right in what it is simplified to. */
  lemma {:induction false} FittingArgsTell(e: Expr, neg: bool, args: Args)
    requires IsCondition(e) && NarrowArgsFit(e, args)
    ensures var s := Precompute(SortOperands(EliminateNegation(e, neg)));
            IsNormal(s) ==> TellsThroughout(s, args)
  {
    hide HighWordsTell, Is64Bit, OperandFits, IsMaskedOperand, PrecomputeCompare, Kind;
    match e
    case Not(c) => FittingArgsTell(c, !neg, args);
    case And(l, r) => FittingArgsTell(l, neg, args); FittingArgsTell(r, neg, args);
    case Or(l, r) => FittingArgsTell(l, neg, args); FittingArgsTell(r, neg, args);
    case Compare(op, l, r) => FittingCompareTells(if neg then Compare(Negated(op), l, r) else e, args);
  }

  lemma FittingCompareTells(e: Expr, args: Args)
    requires e.Compare? && IsCondition(e) && NarrowArgsFit(e, args)
    ensures var s := Precompute(SortOperands(e)); IsNormal(s) ==> TellsThroughout(s, args)
  {
    hide HighWordsTell, Is64Bit, OperandFits, IsMaskedOperand, PrecomputeMask;
    OperandStaysFitting(e.left, args);
    OperandStaysFitting(e.right, args);
    var s := Precompute(SortOperands(e));
    if IsNormal(s) && (Is64Bit(s.left) || Is64Bit(s.right)) {
      FittingHighWords(s.op, s.left, s.right, args);
    }
  }

  lemma FittingHighWords(op: CompareOp, l: Expr, r: Expr, args: Args)
    requires IsMaskedOperand(l) && IsMaskedOperand(r) && OperandFits(l, args) && OperandFits(r, args)
    ensures HighWordsTell(op, l, r, args)
  {
    FittingValue(l, args);
    FittingValue(r, args);
  }

  lemma OperandStaysFitting(e: Expr, args: Args)
    requires IsMaskedOperand(e)
    ensures var s := Precompute(SortOperands(e));
            && IsMaskedOperand(s) && (OperandFits(e, args) ==> OperandFits(s, args))
            && (Is64Bit(s) ==> Is64Bit(e))
  {
  }
}
