/**
  A right operand that is lost from X. The code then compares with the second variable of the
  mask that was loaded over it; this is exactly when that makes no difference.
 */
module Overwriting {
  import opened Words
  import opened Expression
  import opened Wide
  import opened Codegen
  import opened Comparing
  import opened Generating

  predicate IsWide(l: Expr, r: Expr)
    requires IsSimpleOperand(l) && IsSimpleOperand(r)
  {
    Is64Bit(l) || Is64Bit(r)
  }

  /** In word `w` the operand is the second variable of the mask, in one form or another. */
  predicate IsSecond(l: Expr, r: Expr, w: Word)
    requires IsVarMask(l) && IsSimpleOperand(r)
  {
    var b := l.right.v;
    match r
    case Number(_) => false
    case Var(v, _) => v == b
    case Mask(x, y) => x.v == b && if y.Number? then WordOf(y.number, w) == UINT32_MAX else y.v == b
  }

  predicate IsAmong(l: Expr, v: nat)
    requires IsVarMask(l)
  {
    v == l.left.v || v == l.right.v
  }

  /** In word `w` the operand has every bit that the mask has. */
  predicate Covers(l: Expr, r: Expr, w: Word)
    requires IsVarMask(l) && IsSimpleOperand(r)
  {
    match r
    case Number(_) => false
    case Var(v, _) => IsAmong(l, v)
    case Mask(x, y) => IsAmong(l, x.v) && if y.Number? then WordOf(y.number, w) == UINT32_MAX else IsAmong(l, y.v)
  }

  /** The mask is of one variable with itself, and the operand has no other bits. */
  predicate IsWithin(l: Expr, r: Expr)
    requires IsVarMask(l) && IsSimpleOperand(r)
  {
    l.left.v == l.right.v &&
    match r
    case Number(_) => false
    case Var(v, _) => IsAmong(l, v)
    case Mask(x, y) => IsAmong(l, x.v) || (y.Var? && IsAmong(l, y.v))
  }

  predicate SeesSame(l: Expr, r: Expr, w: Word)
    requires IsVarMask(l) && IsSimpleOperand(r)
  {
    IsConst(r, w) || IsSecond(l, r, w)
  }

  /** The comparison does not depend on the right operand surviving in X: the left operand is not
      a mask of two variables, or the right one is constant or that mask's second variable in
      every word compared, or the verdict is the same with either. */
  predicate ReadsRight(op: CompareOp, l: Expr, r: Expr)
    requires IsSimpleOperand(l) && IsSimpleOperand(r)
  {
    IsVarMask(l) ==>
      || (SeesSame(l, r, Low) && (IsWide(l, r) ==> SeesSame(l, r, High)))
      || ((op.Gt? || op.Le?) && !IsConst(r, Low) && Covers(l, r, Low) &&
          (IsWide(l, r) ==> IsConst(r, High) || Covers(l, r, High)))
      || ((op.Ge? || op.Lt?) && IsWithin(l, r))
  }

  // ----- it is enough -----

  lemma {:induction false} BitAndSelf(a: nat)
    ensures BitAnd(a, a) == a
  {
    if a != 0 {
      BitAndSelf(a / 2);
    }
  }

  lemma BitAndFullWord(a: u32)
    ensures BitAnd(a, UINT32_MAX) == a
  {
    Pow2Of32();
    BitAndOnes(a, 32);
  }

  lemma SecondWord(l: Expr, r: Expr, w: Word, args: Args)
    requires IsVarMask(l) && IsSimpleOperand(l) && IsSimpleOperand(r) && IsSecond(l, r, w)
    ensures WordValue(r, w, args) == WordValue(l.right, w, args)
  {
    if r.Mask? {
      MaskWord(r, w, args);
      BitAndSelf(WordValue(l.right, w, args));
      BitAndFullWord(WordValue(l.right, w, args));
    }
  }

  lemma CoveredWord(l: Expr, r: Expr, w: Word, args: Args)
    requires IsVarMask(l) && IsSimpleOperand(l) && IsSimpleOperand(r) && Covers(l, r, w)
    ensures WordValue(l, w, args) <= WordValue(r, w, args)
  {
    hide BitAnd;
    MaskWord(l, w, args);
    if r.Mask? {
      MaskWord(r, w, args);
      var a, b := WordValue(l.left, w, args), WordValue(l.right, w, args);
      BitAndSelf(a);
      BitAndSelf(b);
      BitAndFullWord(a);
      BitAndFullWord(b);
      BitAndCommutes(a, b);
    }
  }

  lemma WithinWord(l: Expr, r: Expr, w: Word, args: Args)
    requires IsVarMask(l) && IsSimpleOperand(l) && IsSimpleOperand(r) && IsWithin(l, r)
    ensures WordValue(r, w, args) <= WordValue(l, w, args) == WordValue(l.right, w, args)
  {
    hide BitAnd;
    MaskWord(l, w, args);
    BitAndSelf(WordValue(l.right, w, args));
    if r.Mask? {
      MaskWord(r, w, args);
    }
  }

  /** What a word of the right operand and the word seen in its place have in common. */
  lemma SeenWordIs(op: CompareOp, l: Expr, r: Expr, w: Word, args: Args)
    requires IsVarMask(l) && IsSimpleOperand(l) && IsSimpleOperand(r)
    ensures var (a, b, s) := (WordValue(l, w, args), WordValue(r, w, args), SeenWord(l, r, w, args));
            && (SeesSame(l, r, w) ==> s == b)
            && (!IsConst(r, w) ==> a <= s)
            && (Covers(l, r, w) ==> a <= b)
            && (IsWithin(l, r) ==> b <= a && s <= a)
  {
    hide WordValue, IsSecond, Covers, IsWithin;
    MaskWord(l, w, args);
    if IsSecond(l, r, w) { SecondWord(l, r, w, args); }
    if Covers(l, r, w) { CoveredWord(l, r, w, args); }
    if IsWithin(l, r) { WithinWord(l, r, w, args); }
  }

  lemma ReadRightAgrees(e: Expr, args: Args)
    requires IsNormalCompare(e) && ReadsRight(e.op, e.left, e.right)
    ensures CodeHolds(e, args) == CompiledHolds(e, args)
  {
    hide IsSecond, Covers, IsWithin, Is64Bit, FullValue, SeenWord, SeenValue;
    var l, r := e.left, e.right;
    if IsVarMask(l) {
      SeenWordIs(e.op, l, r, Low, args);
      SeenWordIs(e.op, l, r, High, args);
    } else {
      assert SeenWord(l, r, Low, args) == WordValue(r, Low, args) by { NothingIsLost(l, r, Low, args); }
      assert SeenWord(l, r, High, args) == WordValue(r, High, args) by { NothingIsLost(l, r, High, args); }
    }
    CompareByWords(FullValue(l, args), SeenValue(l, r, args));
    CompareByWords(FullValue(l, args), FullValue(r, args));
  }

  lemma NothingIsLost(l: Expr, r: Expr, w: Word, args: Args)
    requires IsSimpleOperand(l) && IsSimpleOperand(r) && !IsVarMask(l)
    ensures SeenWord(l, r, w, args) == WordValue(r, w, args)
  {
  }

  // ----- and it is needed -----

  /** Arguments with given values in one word and zeros in the other. */
  function Spread(f: seq<u32>, w: Word): (args: Args)
    requires |f| == MAX_ARGS
    ensures forall v :: 0 <= v < MAX_ARGS ==>
              && WordOf(args[v], w) == f[v] && WordOf(args[v], if w.High? then Low else High) == 0
  {
    seq(MAX_ARGS, v requires 0 <= v < MAX_ARGS => if w.High? then WORD * f[v] else f[v])
  }

  lemma OtherWordIsZero(e: Expr, f: seq<u32>, w: Word)
    requires |f| == MAX_ARGS && IsSimpleOperand(e) && !e.Number?
    ensures WordValue(e, if w.High? then Low else High, Spread(f, w)) == 0
  {
    hide Spread;
    if e.Mask? {
      MaskWord(e, if w.High? then Low else High, Spread(f, w));
    }
  }

  /** On such arguments the comparison is one of that word alone. */
  lemma SpreadCompares(e: Expr, f: seq<u32>, w: Word)
    requires |f| == MAX_ARGS && IsNormalCompare(e) && IsVarMask(e.left) && !IsConst(e.right, w)
    requires w.High? ==> IsWide(e.left, e.right)
    ensures var args := Spread(f, w);
            && CodeHolds(e, args) == CompareHolds(e.op, WordValue(e.left, w, args), f[e.left.right.v])
            && CompiledHolds(e, args) == CompareHolds(e.op, WordValue(e.left, w, args), WordValue(e.right, w, args))
  {
    hide Spread, Is64Bit, FullValue, SeenValue;
    var l, r, args := e.left, e.right, Spread(f, w);
    OtherWordIsZero(l, f, w);
    OtherWordIsZero(r, f, w);
    OtherWordIsZero(l.right, f, w);
    assert SeenWord(l, r, w, args) == f[l.right.v] by { VarWord(l.right, f, w); }
    assert SeenWord(l, r, if w.High? then Low else High, args) == 0;
    hide SeenWord;
    CompareByWords(FullValue(l, args), SeenValue(l, r, args));
    CompareByWords(FullValue(l, args), FullValue(r, args));
  }

  lemma VarWord(e: Expr, f: seq<u32>, w: Word)
    requires |f| == MAX_ARGS && IsVar(e)
    ensures WordValue(e, w, Spread(f, w)) == f[e.v]
  {
  }

  /** A bit that a number below the full word does not have. */
  function FreeBit(m: nat, k: nat): (p: nat)
    requires m < Pow2(k) - 1
    ensures 0 < p < Pow2(k) && BitAnd(p, m) == 0
  {
    if m % 2 == 0 then BitAndStep(1, m); 1
    else
      HalfLeavesRoom(m, k);
      var p := FreeBit(m / 2, k - 1);
      DoubledIsFree(p, m);
      2 * p
  }

  lemma HalfLeavesRoom(m: nat, k: nat)
    requires m < Pow2(k) - 1 && m % 2 == 1
    ensures k > 0 && m / 2 < Pow2(k - 1) - 1 && Pow2(k) == 2 * Pow2(k - 1)
  {
  }

  lemma DoubledIsFree(p: nat, m: nat)
    requires BitAnd(p, m / 2) == 0
    ensures BitAnd(2 * p, m) == 0
  {
    hide BitAnd;
    BitAndStep(2 * p, m);
    Doubled(p, 0);
    BitProduct(0, m % 2);
  }

  /** A bit that the operand's constant, if it has one, does not let through. */
  function Bit(r: Expr, w: Word): (p: u32)
    requires IsSimpleOperand(r)
    ensures p > 0
    ensures r.Mask? && r.right.Number? && WordOf(r.right.number, w) != UINT32_MAX ==>
              BitAnd(p, WordOf(r.right.number, w)) == 0
  {
    if r.Mask? && r.right.Number? && WordOf(r.right.number, w) != UINT32_MAX then
      Pow2Of32();
      FreeBit(WordOf(r.right.number, w), 32)
    else 1
  }

  /** The two parts of a mask. */
  lemma SpreadMask(e: Expr, f: seq<u32>, w: Word)
    requires |f| == MAX_ARGS && e.Mask? && IsSimpleOperand(e)
    ensures WordValue(e, w, Spread(f, w)) ==
            BitAnd(f[e.left.v], if e.right.Number? then WordOf(e.right.number, w) else f[e.right.v])
  {
    hide BitAnd;
    MaskWord(e, w, Spread(f, w));
    VarWord(e.left, f, w);
    if e.right.Var? {
      VarWord(e.right, f, w);
    }
  }

  lemma SpreadOperand(e: Expr, f: seq<u32>, w: Word)
    requires |f| == MAX_ARGS && IsSimpleOperand(e) && !e.Number?
    ensures WordValue(e, w, Spread(f, w)) ==
            if e.Var? then f[e.v]
            else BitAnd(f[e.left.v], if e.right.Number? then WordOf(e.right.number, w) else f[e.right.v])
  {
    hide WordValue, BitAnd;
    if e.Var? {
      VarWord(e, f, w);
    } else {
      SpreadMask(e, f, w);
    }
  }

  /** Both variables of the mask are `p`, all others 0: the mask and its second variable are `p`,
      an operand that does not cover the mask is 0. */
  function Both(l: Expr, p: u32): (f: seq<u32>)
    requires IsVarMask(l)
    ensures |f| == MAX_ARGS && forall v :: 0 <= v < MAX_ARGS ==> f[v] == if IsAmong(l, v) then p else 0
  {
    seq(MAX_ARGS, v requires 0 <= v < MAX_ARGS => if IsAmong(l, v) then p else 0)
  }

  lemma UncoveredIsSmaller(l: Expr, r: Expr, w: Word)
    requires IsVarMask(l) && IsSimpleOperand(l) && IsSimpleOperand(r) && !IsConst(r, w) && !Covers(l, r, w)
    ensures var f := Both(l, Bit(r, w));
            && WordValue(l, w, Spread(f, w)) == f[l.right.v] > 0
            && WordValue(r, w, Spread(f, w)) == 0
  {
    hide WordValue, Bit, Both;
    var p := Bit(r, w);
    SpreadOperand(l, Both(l, p), w);
    SpreadOperand(r, Both(l, p), w);
    BitAndSelf(p);
  }

  /** Only the second variable of the mask is not 0. */
  function Second(l: Expr, p: u32): (f: seq<u32>)
    requires IsVarMask(l)
    ensures |f| == MAX_ARGS && forall v :: 0 <= v < MAX_ARGS ==> f[v] == if v == l.right.v then p else 0
  {
    seq(MAX_ARGS, v requires 0 <= v < MAX_ARGS => if v == l.right.v then p else 0)
  }

  lemma OtherIsZero(l: Expr, r: Expr, w: Word)
    requires IsVarMask(l) && IsSimpleOperand(l) && IsSimpleOperand(r) && !IsConst(r, w) && !IsSecond(l, r, w)
    requires l.left.v != l.right.v
    ensures var f := Second(l, Bit(r, w));
            && WordValue(l, w, Spread(f, w)) == WordValue(r, w, Spread(f, w)) == 0 < f[l.right.v]
  {
    hide WordValue, Bit, Second;
    SpreadOperand(l, Second(l, Bit(r, w)), w);
    SpreadOperand(r, Second(l, Bit(r, w)), w);
  }

  /** Only the variable of the mask is 0. */
  function Rest(l: Expr): (f: seq<u32>)
    requires IsVarMask(l)
    ensures |f| == MAX_ARGS && forall v :: 0 <= v < MAX_ARGS ==> f[v] == if v == l.right.v then 0 else UINT32_MAX
  {
    seq(MAX_ARGS, v requires 0 <= v < MAX_ARGS => if v == l.right.v then 0 else UINT32_MAX)
  }

  lemma OutsideIsGreater(l: Expr, r: Expr, w: Word)
    requires IsVarMask(l) && IsSimpleOperand(l) && IsSimpleOperand(r) && !IsConst(r, w) && !IsWithin(l, r)
    requires l.left.v == l.right.v
    ensures var f := Rest(l);
            && WordValue(l, w, Spread(f, w)) == f[l.right.v] == 0 < WordValue(r, w, Spread(f, w))
  {
    hide WordValue, Rest;
    SpreadOperand(l, Rest(l), w);
    SpreadOperand(r, Rest(l), w);
    BitAndFullWord(UINT32_MAX);
    if r.Mask? && r.right.Number? {
      BitAndFullWord(WordOf(r.right.number, w));
      BitAndCommutes(WordOf(r.right.number, w), UINT32_MAX);
    }
  }

  /** The word in which the operand seen makes a difference on some arguments. */
  predicate Differs(op: CompareOp, l: Expr, r: Expr, w: Word)
    requires IsVarMask(l) && IsSimpleOperand(l) && IsSimpleOperand(r)
  {
    && !IsConst(r, w) && (w.High? ==> IsWide(l, r))
    && if op.Gt? || op.Le? then !Covers(l, r, w)
       else !IsSecond(l, r, w) && (op.Ge? || op.Lt? ==> !IsWithin(l, r))
  }

  lemma DifferenceShows(e: Expr, w: Word) returns (args: Args)
    requires IsNormalCompare(e) && IsVarMask(e.left) && Differs(e.op, e.left, e.right, w)
    ensures CodeHolds(e, args) != CompiledHolds(e, args)
  {
    hide CodeHolds, CompiledHolds, WordValue, Bit, Both, Second, Rest, Spread;
    var l, r := e.left, e.right;
    var f: seq<u32>;
    if !Covers(l, r, w) && !(e.op.Ge? || e.op.Lt?) {
      f := Both(l, Bit(r, w));
      UncoveredIsSmaller(l, r, w);
    } else if l.left.v != l.right.v {
      f := Second(l, Bit(r, w));
      OtherIsZero(l, r, w);
    } else {
      f := Rest(l);
      OutsideIsGreater(l, r, w);
    }
    args := Spread(f, w);
    SpreadCompares(e, f, w);
  }

  /** An operand with a constant low word that covers the mask above it. */
  lemma HighDifferenceShows(e: Expr) returns (args: Args)
    requires IsNormalCompare(e) && IsVarMask(e.left) && (e.op.Gt? || e.op.Le?) && IsWide(e.left, e.right)
    requires IsConst(e.right, Low) && !IsConst(e.right, High)
    requires Covers(e.left, e.right, High) && !IsSecond(e.left, e.right, High)
    ensures CodeHolds(e, args) != CompiledHolds(e, args)
  {
    hide SeenValue, FullValue;
    var l, r := e.left, e.right;
    args := seq(MAX_ARGS, v requires 0 <= v < MAX_ARGS => if v == l.right.v then WORD + 1 else 1);
    assert r.Mask? && r.left.v == l.left.v != l.right.v;
    HighDifference(l, r, args);
    CompareByWords(FullValue(l, args), SeenValue(l, r, args));
    CompareByWords(FullValue(l, args), FullValue(r, args));
  }

  lemma HighDifference(l: Expr, r: Expr, args: Args)
    requires IsVarMask(l) && IsSimpleOperand(l) && IsSimpleOperand(r) && r.Mask? && r.left.v == l.left.v
    requires args[l.left.v] == 1 && args[l.right.v] == WORD + 1 && IsConst(r, Low) && !IsConst(r, High)
    ensures WordValue(l, High, args) == 0 == WordValue(r, High, args)
    ensures WordValue(l, Low, args) == 1 && WordValue(r, Low, args) == 0
    ensures SeenWord(l, r, High, args) == 1
  {
    hide BitAnd;
    MaskWord(l, High, args);
    MaskWord(r, High, args);
    MaskWord(l, Low, args);
    BitAndSelf(1);
    ConstValue(r, Low, args);
    assert WordOf(1, High) == 0 && WordOf(WORD + 1, High) == 1 && WordOf(WORD + 1, Low) == 1;
  }

  /** A comparison is decided as meant on all arguments if and only if it does not depend on the
      right operand surviving in X. */
  lemma ReadsRightIff(e: Expr)
    requires IsNormalCompare(e)
    ensures ReadsRight(e.op, e.left, e.right) <==> forall args: Args :: CodeHolds(e, args) == CompiledHolds(e, args)
  {
    hide CodeHolds, CompiledHolds, IsSecond, Covers, IsWithin;
    if ReadsRight(e.op, e.left, e.right) {
      forall args: Args ensures CodeHolds(e, args) == CompiledHolds(e, args) {
        ReadRightAgrees(e, args);
      }
    } else {
      var l, r := e.left, e.right;
      var args: Args;
      if Differs(e.op, l, r, Low) {
        args := DifferenceShows(e, Low);
      } else if Differs(e.op, l, r, High) {
        args := DifferenceShows(e, High);
      } else {
        args := HighDifferenceShows(e);
      }
      assert CodeHolds(e, args) != CompiledHolds(e, args);
    }
  }

  // ----- whole conditions -----

  predicate ReadsRightThroughout(e: Expr)
    requires IsNormal(e)
  {
    match e
    case And(l, r) => ReadsRightThroughout(l) && ReadsRightThroughout(r)
    case Or(l, r) => ReadsRightThroughout(l) && ReadsRightThroughout(r)
    case Compare(op, l, r) => ReadsRight(op, l, r)
  }

  lemma {:induction false} CodeMeaning(e: Expr, args: Args)
    requires IsNormal(e) && ReadsRightThroughout(e)
    ensures CodeHolds(e, args) == CompiledHolds(e, args)
  {
    hide ReadsRight, CompareHolds;
    match e
    case And(l, r) => CodeMeaning(l, args); CodeMeaning(r, args);
    case Or(l, r) => CodeMeaning(l, args); CodeMeaning(r, args);
    case Compare(op, l, r) => ReadRightAgrees(e, args);
  }
}
