/**
  The classic-BPF machine seccomp runs filters on, restricted to the instructions the code
  generator emits. `Run` is the machine itself, moving forward through a finished program.
  `Exec` runs the generator's buffer, which holds the same program back to front: location
  `loc` falls through to `loc - 1` and a jump of `k` lands on `loc - 1 - k`.
 */
module Bpf {
  import opened Options
  import opened Words
  import opened Expression

  datatype SeccompData = SeccompData(nr: u32, arch: u32, ip: u64, args: Args)

  datatype JumpOp = JEq | JGt | JGe | JSet

  datatype Source = K | X

  datatype Instr =
    | LdAbs(offset: u32)
    | AndK(k: u32)
    | AndX
    | Tax
    | Ja(distance: nat)
    | Jump(op: JumpOp, src: Source, k: u32, jt: nat, jf: nat)
    | Ret(k: u32)

  /** Byte offsets in `struct seccomp_data` on a little-endian machine. */
  const NR_OFFSET: u32 := 0
  const ARCH_OFFSET: u32 := 4
  const ARGS_OFFSET: u32 := 16

  /** The 32-bit word at a byte offset of the data, if the kernel accepts that offset. */
  function LoadWord(d: SeccompData, offset: u32): (w: Option<u32>) {
    if offset == NR_OFFSET then Some(d.nr)
    else if offset == ARCH_OFFSET then Some(d.arch)
    else if offset == 8 then Some(LowWord(d.ip))
    else if offset == 12 then Some(HighWord(d.ip))
    else if ARGS_OFFSET <= offset < ARGS_OFFSET + 8 * MAX_ARGS && offset % 4 == 0 then
      var arg := d.args[(offset - ARGS_OFFSET) / 8];
      Some(if offset % 8 == 0 then LowWord(arg) else HighWord(arg))
    else None
  }

  predicate Test(op: JumpOp, a: u32, b: u32) {
    match op
    case JEq => a == b
    case JGt => a > b
    case JGe => a >= b
    case JSet => BitAnd(a, b) != 0
  }

  predicate Taken(i: Instr, a: u32, x: u32)
    requires i.Jump?
  {
    Test(i.op, a, if i.src.K? then i.k else x)
  }

  /** What a program returns when entered at `pc`; `None` if it leaves the program or faults. */
  function Run(prog: seq<Instr>, pc: nat, a: u32, x: u32, d: SeccompData): (r: Option<u32>)
    decreases |prog| - pc
  {
    if pc >= |prog| then None
    else
      match prog[pc]
      case LdAbs(offset) =>
        var w := LoadWord(d, offset);
        if w.None? then None else Run(prog, pc + 1, w.value, x, d)
      case AndK(k) => Run(prog, pc + 1, BitAnd(a, k), x, d)
      case AndX => Run(prog, pc + 1, BitAnd(a, x), x, d)
      case Tax => Run(prog, pc + 1, a, a, d)
      case Ja(distance) => Run(prog, pc + 1 + distance, a, x, d)
      case Jump(_, _, _, jt, jf) =>
        Run(prog, pc + 1 + (if Taken(prog[pc], a, x) then jt else jf), a, x, d)
      case Ret(k) => Some(k)
  }

  /** What the back-to-front buffer returns when entered at `loc`. */
  function Exec(code: seq<Instr>, loc: int, a: u32, x: u32, d: SeccompData): (r: Option<u32>)
    decreases loc
  {
    if loc < 0 || loc >= |code| then None
    else
      match code[loc]
      case LdAbs(offset) =>
        var w := LoadWord(d, offset);
        if w.None? then None else Exec(code, loc - 1, w.value, x, d)
      case AndK(k) => Exec(code, loc - 1, BitAnd(a, k), x, d)
      case AndX => Exec(code, loc - 1, BitAnd(a, x), x, d)
      case Tax => Exec(code, loc - 1, a, a, d)
      case Ja(distance) => Exec(code, loc - 1 - distance, a, x, d)
      case Jump(_, _, _, jt, jf) =>
        Exec(code, loc - 1 - (if Taken(code[loc], a, x) then jt else jf), a, x, d)
      case Ret(k) => Some(k)
  }

  /** Code appended to the buffer does not change what the older locations do. */
  lemma {:induction false} ExecExtends(code: seq<Instr>, more: seq<Instr>, loc: int, a: u32, x: u32, d: SeccompData)
    requires code <= more && loc < |code|
    ensures Exec(more, loc, a, x, d) == Exec(code, loc, a, x, d)
    decreases loc
  {
    if loc >= 0 {
      assert more[loc] == code[loc];
      match code[loc]
      case LdAbs(offset) =>
        var w := LoadWord(d, offset);
        if w.Some? { ExecExtends(code, more, loc - 1, w.value, x, d); }
      case AndK(k) => ExecExtends(code, more, loc - 1, BitAnd(a, k), x, d);
      case AndX => ExecExtends(code, more, loc - 1, BitAnd(a, x), x, d);
      case Tax => ExecExtends(code, more, loc - 1, a, a, d);
      case Ja(distance) => ExecExtends(code, more, loc - 1 - distance, a, x, d);
      case Jump(_, _, _, jt, jf) =>
        ExecExtends(code, more, loc - 1 - (if Taken(code[loc], a, x) then jt else jf), a, x, d);
      case Ret(_) =>
    }
  }

  function Reversed(code: seq<Instr>): (prog: seq<Instr>)
    ensures |prog| == |code|
    ensures forall i :: 0 <= i < |prog| ==> prog[i] == code[|code| - 1 - i]
  {
    seq(|code|, i requires 0 <= i < |code| => code[|code| - 1 - i])
  }

  /** Reversing the buffer turns its semantics into the machine's. */
  lemma {:induction false} RunReversed(code: seq<Instr>, loc: int, a: u32, x: u32, d: SeccompData)
    requires loc < |code|
    ensures Exec(code, loc, a, x, d) == Run(Reversed(code), |code| - 1 - loc, a, x, d)
    decreases loc
  {
    if loc >= 0 {
      match code[loc]
      case LdAbs(offset) =>
        var w := LoadWord(d, offset);
        if w.Some? { RunReversed(code, loc - 1, w.value, x, d); }
      case AndK(k) => RunReversed(code, loc - 1, BitAnd(a, k), x, d);
      case AndX => RunReversed(code, loc - 1, BitAnd(a, x), x, d);
      case Tax => RunReversed(code, loc - 1, a, a, d);
      case Ja(distance) => RunReversed(code, loc - 1 - distance, a, x, d);
      case Jump(_, _, _, jt, jf) =>
        RunReversed(code, loc - 1 - (if Taken(code[loc], a, x) then jt else jf), a, x, d);
      case Ret(_) =>
    }
  }

  // ----- programs that always halt at a return -----

  /** An instruction at `loc` of the buffer loads a real word and jumps inside the buffer. */
  predicate IsPlaced(i: Instr, loc: nat) {
    match i
    case LdAbs(offset) =>
      loc > 0 && offset % 4 == 0 && offset < ARGS_OFFSET + 8 * MAX_ARGS
    case Ja(distance) => 0 < distance < loc
    case Jump(_, _, _, jt, jf) => jt < loc && jf < loc && jt <= 255 && jf <= 255
    case Ret(_) => true
    case _ => loc > 0
  }

  /** Every jump goes forward, stays in bounds and fits its field, and the oldest instruction
      is a return: the shape the kernel accepts. */
  predicate IsClosed(code: seq<Instr>) {
    forall i :: 0 <= i < |code| ==> IsPlaced(code[i], i)
  }

  lemma {:induction false} ClosedCodeReturns(code: seq<Instr>, loc: nat, a: u32, x: u32, d: SeccompData)
    requires IsClosed(code) && loc < |code|
    ensures Exec(code, loc, a, x, d).Some?
    decreases loc
  {
    match code[loc]
    case LdAbs(offset) => ClosedCodeReturns(code, loc - 1, LoadWord(d, offset).value, x, d);
    case AndK(k) => ClosedCodeReturns(code, loc - 1, BitAnd(a, k), x, d);
    case AndX => ClosedCodeReturns(code, loc - 1, BitAnd(a, x), x, d);
    case Tax => ClosedCodeReturns(code, loc - 1, a, a, d);
    case Ja(distance) => ClosedCodeReturns(code, loc - 1 - distance, a, x, d);
    case Jump(_, _, _, jt, jf) =>
      ClosedCodeReturns(code, loc - 1 - (if Taken(code[loc], a, x) then jt else jf), a, x, d);
    case Ret(_) =>
  }
}
