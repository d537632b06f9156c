/**
  Boolean expressions over the six syscall arguments and the three passes that simplify a
  filter's expression when the filter is created: negation elimination, operand sorting and
  constant precomputation.
 */
module Expression {
  import opened Words

  const MAX_ARGS: nat := 6

  type Args = s: seq<u64> | |s| == 6 witness [0, 0, 0, 0, 0, 0]

  datatype CompareOp = Gt | Lt | Ge | Le | Eq | Neq

  datatype Expr =
    | Number(number: u64)
    | Var(v: nat, size: nat)
    | True
    | False
    | Not(child: Expr)
    | And(left: Expr, right: Expr)
    | Or(left: Expr, right: Expr)
    | Compare(op: CompareOp, left: Expr, right: Expr)
    | Mask(left: Expr, right: Expr)

  // ----- shapes the grammar produces -----

  predicate IsOperand(e: Expr) {
    e.Number? || (e.Var? && e.v < MAX_ARGS && (e.size == 4 || e.size == 8))
  }

  predicate IsMaskedOperand(e: Expr) {
    IsOperand(e) || (e.Mask? && IsOperand(e.left) && IsOperand(e.right))
  }

  predicate IsCondition(e: Expr) {
    match e
    case Not(c) => IsCondition(c)
    case And(l, r) => IsCondition(l) && IsCondition(r)
    case Or(l, r) => IsCondition(l) && IsCondition(r)
    case Compare(_, l, r) => IsMaskedOperand(l) && IsMaskedOperand(r)
    case _ => false
  }

  /** Every variable has the width its syscall declares for that argument. */
  predicate Typed(e: Expr, sizes: seq<nat>) {
    match e
    case Var(v, size) => v < |sizes| && size == sizes[v]
    case Not(c) => Typed(c, sizes)
    case And(l, r) => Typed(l, sizes) && Typed(r, sizes)
    case Or(l, r) => Typed(l, sizes) && Typed(r, sizes)
    case Compare(_, l, r) => Typed(l, sizes) && Typed(r, sizes)
    case Mask(l, r) => Typed(l, sizes) && Typed(r, sizes)
    case _ => true
  }

  /** Every occurrence of a variable has the same width. */
  ghost predicate HasWidths(e: Expr) {
    exists sizes: seq<nat> :: Typed(e, sizes)
  }

  // ----- meaning -----

  function CompareHolds(op: CompareOp, a: nat, b: nat): (holds: bool) {
    match op
    case Gt => a > b
    case Lt => a < b
    case Ge => a >= b
    case Le => a <= b
    case Eq => a == b
    case Neq => a != b
  }

  /** The value of an operand; a 4-byte variable denotes the low word of its argument. */
  function Value(e: Expr, args: Args): (r: u64)
    requires IsMaskedOperand(e)
  {
    match e
    case Number(n) => n
    case Var(v, size) => if size == 4 then LowWord(args[v]) else args[v]
    case Mask(l, r) => BitAnd(Value(l, args), Value(r, args))
  }

  predicate IsDecidable(e: Expr) {
    e.True? || e.False? || IsCondition(e)
  }

  /** The truth value of a condition. */
  function Holds(e: Expr, args: Args): (holds: bool)
    requires IsDecidable(e)
  {
    match e
    case True => true
    case False => false
    case Not(c) => !Holds(c, args)
    case And(l, r) => Holds(l, args) && Holds(r, args)
    case Or(l, r) => Holds(l, args) || Holds(r, args)
    case Compare(op, l, r) => CompareHolds(op, Value(l, args), Value(r, args))
  }

  // ----- negation elimination -----

  function Negated(op: CompareOp): CompareOp {
    match op
    case Gt => Le
    case Lt => Ge
    case Ge => Lt
    case Le => Gt
    case Eq => Neq
    case Neq => Eq
  }

  function EliminateNegation(e: Expr, neg: bool): Expr {
    match e
    case Not(c) => EliminateNegation(c, !neg)
    case And(l, r) =>
      var l', r' := EliminateNegation(l, neg), EliminateNegation(r, neg);
      if neg then Or(l', r') else And(l', r')
    case Or(l, r) =>
      var l', r' := EliminateNegation(l, neg), EliminateNegation(r, neg);
      if neg then And(l', r') else Or(l', r')
    case Compare(op, l, r) => if neg then Compare(Negated(op), l, r) else e
    case True => if neg then False else e
    case False => if neg then True else e
    case _ => e
  }

  // ----- operand sorting -----

  /** The position of the node's kind in the enumeration that orders operands. */
  function Kind(e: Expr): nat {
    match e
    case Number(_) => 0
    case Var(_, _) => 1
    case True => 2
    case False => 3
    case Not(_) => 4
    case And(_, _) => 5
    case Or(_, _) => 6
    case Compare(Gt, _, _) => 7
    case Compare(Lt, _, _) => 8
    case Compare(Ge, _, _) => 9
    case Compare(Le, _, _) => 10
    case Compare(Eq, _, _) => 11
    case Compare(Neq, _, _) => 12
    case Mask(_, _) => 13
  }

  function Swapped(op: CompareOp): CompareOp {
    match op
    case Gt => Lt
    case Lt => Gt
    case Ge => Le
    case Le => Ge
    case Eq => Eq
    case Neq => Neq
  }

  function SortOperands(e: Expr): Expr {
    match e
    case And(l, r) => And(SortOperands(l), SortOperands(r))
    case Or(l, r) => Or(SortOperands(l), SortOperands(r))
    case Compare(op, l, r) =>
      if Kind(l) < Kind(r) then Compare(Swapped(op), SortOperands(r), SortOperands(l))
      else Compare(op, SortOperands(l), SortOperands(r))
    case Mask(l, r) =>
      if Kind(l) < Kind(r) then Mask(SortOperands(r), SortOperands(l))
      else Mask(SortOperands(l), SortOperands(r))
    case _ => e
  }

  // ----- constant precomputation -----

  function Truth(b: bool): Expr { if b then True else False }

  /** Folding compares the low 32 bits only: both numbers are narrowed on the way in. */
  function FoldCompare(op: CompareOp, a: u64, b: u64): Expr {
    Truth(CompareHolds(op, LowWord(a), LowWord(b)))
  }

  function Precompute(e: Expr): Expr {
    match e
    case Not(c) => Not(Precompute(c))
    case And(l, r) => PrecomputeJunction(Precompute(l), Precompute(r), true)
    case Or(l, r) => PrecomputeJunction(Precompute(l), Precompute(r), false)
    case Compare(op, l, r) => PrecomputeCompare(op, Precompute(l), Precompute(r))
    case Mask(l, r) => PrecomputeMask(Precompute(l), Precompute(r))
    case _ => e
  }

  function PrecomputeJunction(l: Expr, r: Expr, conjunction: bool): Expr {
    var dominant, recessive := Truth(!conjunction), Truth(conjunction);
    if l == dominant || r == dominant then dominant
    else if l == recessive then r
    else if r == recessive then l
    else if conjunction then And(l, r) else Or(l, r)
  }

  function PrecomputeCompare(op: CompareOp, l: Expr, r: Expr): Expr {
    if l.Number? && r.Number? then FoldCompare(op, l.number, r.number)
    else if l.Var? && r.Var? && l.v == r.v then Truth(op.Ge? || op.Le? || op.Eq?)
    else Compare(op, l, r)
  }

  function PrecomputeMask(l: Expr, r: Expr): Expr {
    if l.Number? && r.Number? then Number(BitAnd(l.number, r.number))
    else if r == Number(0) then Number(0)
    else if r == Number(UINT64_MAX) then l
    else Mask(l, r)
  }

  function Simplify(e: Expr): Expr {
    Precompute(SortOperands(EliminateNegation(e, false)))
  }

  // ----- the normal form the code generator relies on -----

  predicate IsVar(e: Expr) {
    e.Var? && IsOperand(e)
  }

  /** A number, a variable, or a variable masked by another variable or by a useful constant. */
  predicate IsSimpleOperand(e: Expr) {
    || IsOperand(e)
    || (e.Mask? && IsVar(e.left) && IsVar(e.right))
    || (e.Mask? && IsVar(e.left) && e.right.Number? && 0 < e.right.number < UINT64_MAX)
  }

  predicate IsNormalCompare(e: Expr) {
    && e.Compare? && IsSimpleOperand(e.left) && IsSimpleOperand(e.right)
    && !(e.left.Number? && e.right.Number?)
  }

  predicate IsNormal(e: Expr) {
    match e
    case And(l, r) => IsNormal(l) && IsNormal(r)
    case Or(l, r) => IsNormal(l) && IsNormal(r)
    case _ => IsNormalCompare(e)
  }

  lemma {:induction e} NormalIsCondition(e: Expr)
    requires IsNormal(e)
    ensures IsCondition(e)
  {
  }

  // ----- folding on 32 bits: exactly when it is right -----

  /** The low words alone decide the comparison of `a` and `b` correctly. */
  predicate LowWordsDecide(op: CompareOp, a: u64, b: u64) {
    var (ahi, alo, bhi, blo) := (HighWord(a), LowWord(a), HighWord(b), LowWord(b));
    ahi == bhi ||
    match op
    case Eq => alo != blo
    case Neq => alo != blo
    case Gt => (alo > blo) == (ahi > bhi)
    case Le => (alo > blo) == (ahi > bhi)
    case Lt => (alo < blo) == (ahi < bhi)
    case Ge => (alo < blo) == (ahi < bhi)
  }

  /** The constant a masked operand precomputes to, if it is constant. */
  function ConstantOf(e: Expr): (c: seq<u64>)
    ensures |c| <= 1
  {
    match e
    case Number(n) => [n]
    case Mask(l, r) =>
      if l.Number? && r.Number? then [BitAnd(l.number, r.number)]
      else if l == Number(0) || r == Number(0) then [0]
      else []
    case _ => []
  }

  /** No comparison of two constants in `e` is decided wrongly by its low words. */
  predicate FoldsSoundly(e: Expr) {
    match e
    case Not(c) => FoldsSoundly(c)
    case And(l, r) => FoldsSoundly(l) && FoldsSoundly(r)
    case Or(l, r) => FoldsSoundly(l) && FoldsSoundly(r)
    case Compare(op, l, r) =>
      ConstantOf(l) != [] && ConstantOf(r) != [] ==> LowWordsDecide(op, ConstantOf(l)[0], ConstantOf(r)[0])
    case _ => true
  }

  // ----- the passes keep the meaning -----

  lemma {:induction false} EliminateNegationHolds(e: Expr, neg: bool, args: Args)
    requires IsCondition(e)
    ensures IsCondition(EliminateNegation(e, neg))
    ensures Holds(EliminateNegation(e, neg), args) == (Holds(e, args) != neg)
  {
    match e
    case Not(c) => EliminateNegationHolds(c, !neg, args);
    case And(l, r) => EliminateNegationHolds(l, neg, args); EliminateNegationHolds(r, neg, args);
    case Or(l, r) => EliminateNegationHolds(l, neg, args); EliminateNegationHolds(r, neg, args);
    case Compare(_, _, _) =>
  }

  predicate NoNegation(e: Expr) {
    match e
    case And(l, r) => NoNegation(l) && NoNegation(r)
    case Or(l, r) => NoNegation(l) && NoNegation(r)
    case Compare(_, _, _) => true
    case _ => false
  }

  lemma {:induction false} EliminateNegationRemoves(e: Expr, neg: bool)
    requires IsCondition(e)
    ensures NoNegation(EliminateNegation(e, neg)) && IsCondition(EliminateNegation(e, neg))
    ensures FoldsSoundly(EliminateNegation(e, neg)) == FoldsSoundly(e)
    ensures forall sizes :: Typed(e, sizes) ==> Typed(EliminateNegation(e, neg), sizes)
  {
    match e
    case Not(c) => EliminateNegationRemoves(c, !neg);
    case And(l, r) => EliminateNegationRemoves(l, neg); EliminateNegationRemoves(r, neg);
    case Or(l, r) => EliminateNegationRemoves(l, neg); EliminateNegationRemoves(r, neg);
    case Compare(_, _, _) =>
  }

  lemma SortMaskedOperand(e: Expr, args: Args)
    requires IsMaskedOperand(e)
    ensures IsMaskedOperand(SortOperands(e)) && Value(SortOperands(e), args) == Value(e, args)
    ensures ConstantOf(SortOperands(e)) == ConstantOf(e)
  {
    if e.Mask? {
      BitAndCommutes(Value(e.left, args), Value(e.right, args));
      if e.left.Number? && e.right.Number? {
        BitAndCommutes(e.left.number, e.right.number);
      }
    }
  }

  lemma {:induction false} SortOperandsHolds(e: Expr, args: Args)
    requires NoNegation(e) && IsCondition(e)
    ensures NoNegation(SortOperands(e)) && IsCondition(SortOperands(e))
    ensures Holds(SortOperands(e), args) == Holds(e, args)
    ensures FoldsSoundly(SortOperands(e)) == FoldsSoundly(e)
  {
    hide IsMaskedOperand, Value, ConstantOf;
    match e
    case And(l, r) => SortOperandsHolds(l, args); SortOperandsHolds(r, args);
    case Or(l, r) => SortOperandsHolds(l, args); SortOperandsHolds(r, args);
    case Compare(op, l, r) => SortMaskedOperand(l, args); SortMaskedOperand(r, args);
  }

  /** Masks carry their constant, if any, on the right. */
  predicate HasSortedMasks(e: Expr) {
    match e
    case And(l, r) => HasSortedMasks(l) && HasSortedMasks(r)
    case Or(l, r) => HasSortedMasks(l) && HasSortedMasks(r)
    case Compare(_, l, r) => HasSortedMasks(l) && HasSortedMasks(r)
    case Mask(l, r) => Kind(l) >= Kind(r)
    case _ => true
  }

  lemma {:induction false} SortOperandsSorts(e: Expr, sizes: seq<nat>)
    requires NoNegation(e) && IsCondition(e) && Typed(e, sizes)
    ensures HasSortedMasks(SortOperands(e)) && Typed(SortOperands(e), sizes)
  {
    match e
    case And(l, r) => SortOperandsSorts(l, sizes); SortOperandsSorts(r, sizes);
    case Or(l, r) => SortOperandsSorts(l, sizes); SortOperandsSorts(r, sizes);
    case Compare(op, l, r) => SortsMask(l, sizes); SortsMask(r, sizes);
  }

  lemma SortsMask(e: Expr, sizes: seq<nat>)
    requires IsMaskedOperand(e) && Typed(e, sizes)
    ensures HasSortedMasks(SortOperands(e)) && Typed(SortOperands(e), sizes)
  {
  }

  lemma PrecomputeOperand(e: Expr, args: Args, sizes: seq<nat>)
    requires IsMaskedOperand(e) && HasSortedMasks(e) && Typed(e, sizes)
    ensures IsSimpleOperand(Precompute(e)) && Typed(Precompute(e), sizes)
    ensures Value(Precompute(e), args) == Value(e, args)
    ensures ConstantOf(e) == if Precompute(e).Number? then [Precompute(e).number] else []
  {
    if e.Mask? {
      BitAndAllOnes(Value(e.left, args));
    }
  }

  lemma FoldIsExact(op: CompareOp, a: u64, b: u64)
    ensures LowWordsDecide(op, a, b) <==> (FoldCompare(op, a, b) == Truth(CompareHolds(op, a, b)))
  {
  }

  lemma {:induction false} PrecomputeHolds(e: Expr, args: Args, sizes: seq<nat>)
    requires NoNegation(e) && IsCondition(e) && HasSortedMasks(e) && Typed(e, sizes)
    ensures var s := Precompute(e); s.True? || s.False? || IsNormal(s)
    ensures IsDecidable(Precompute(e))
    ensures FoldsSoundly(e) ==> Holds(Precompute(e), args) == Holds(e, args)
  {
    hide LowWordsDecide, ConstantOf, BitAnd;
    match e
    case And(l, r) => PrecomputeHolds(l, args, sizes); PrecomputeHolds(r, args, sizes);
    case Or(l, r) => PrecomputeHolds(l, args, sizes); PrecomputeHolds(r, args, sizes);
    case Compare(op, l, r) =>
      PrecomputeOperand(l, args, sizes);
      PrecomputeOperand(r, args, sizes);
      var l', r' := Precompute(l), Precompute(r);
      if l'.Number? && r'.Number? {
        FoldIsExact(op, l'.number, r'.number);
      }
  }

  // ----- main results about simplification -----

  /** Simplification ends in a constant or in the normal form: no negation is left, the truth
      constants stand only at the root, and no comparison of two constants survives. */
  lemma SimplifyReachesNormalForm(e: Expr, sizes: seq<nat>)
    requires IsCondition(e) && Typed(e, sizes)
    ensures var s := Simplify(e); s.True? || s.False? || IsNormal(s)
    ensures IsDecidable(Simplify(e))
  {
    var args: Args := [0, 0, 0, 0, 0, 0];
    var e1 := EliminateNegation(e, false);
    EliminateNegationRemoves(e, false);
    SortOperandsHolds(e1, args);
    SortOperandsSorts(e1, sizes);
    PrecomputeHolds(SortOperands(e1), args, sizes);
  }

  /** Simplification keeps the truth value on all arguments, provided no pair of constants is
      compared whose low words mislead. */
  lemma SimplifyKeepsMeaning(e: Expr, args: Args, sizes: seq<nat>)
    requires IsCondition(e) && Typed(e, sizes) && FoldsSoundly(e)
    ensures IsDecidable(Simplify(e))
    ensures Holds(Simplify(e), args) == Holds(e, args)
  {
    var e1 := EliminateNegation(e, false);
    EliminateNegationRemoves(e, false);
    EliminateNegationHolds(e, false, args);
    SortOperandsHolds(e1, args);
    SortOperandsSorts(e1, sizes);
    PrecomputeHolds(SortOperands(e1), args, sizes);
  }

  /** For a single comparison the proviso is also necessary: simplification keeps its truth
      value on all arguments if and only if the comparison folds soundly. */
  lemma SimplifyComparisonExactly(e: Expr, sizes: seq<nat>)
    requires e.Compare? && IsCondition(e) && Typed(e, sizes)
    ensures IsDecidable(Simplify(e))
    ensures FoldsSoundly(e) <==> forall args: Args :: Holds(Simplify(e), args) == Holds(e, args)
  {
    SimplifyReachesNormalForm(e, sizes);
    if FoldsSoundly(e) {
      forall args: Args ensures Holds(Simplify(e), args) == Holds(e, args) {
        SimplifyKeepsMeaning(e, args, sizes);
      }
    } else {
      var args: Args := [0, 0, 0, 0, 0, 0];
      var e1 := SortOperands(e);
      SortOperandsHolds(e, args);
      SortOperandsSorts(e, sizes);
      PrecomputeOperand(e1.left, args, sizes);
      PrecomputeOperand(e1.right, args, sizes);
      var a, b := Precompute(e1.left), Precompute(e1.right);
      assert a.Number? && b.Number?;
      FoldIsExact(e1.op, a.number, b.number);
      assert Holds(Simplify(e), args) != Holds(e, args);
    }
  }

  /** The narrowing is visible: 2^32 is not 0, but the folded comparison says it is. */
  lemma FoldingOn32BitsCanBeWrong(args: Args)
    ensures var e := Compare(Eq, Number(WORD), Number(0));
            IsCondition(e) && !Holds(e, args) && Simplify(e) == True
  {
  }
}
