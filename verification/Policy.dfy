/**
  Actions, policies and the decision a policy stands for: the action of the first matching
  filter, with every used policy pasted in place of its USE statement.
 */
module Policy {
  import opened Options
  import opened Words
  import opened Expression

  const KILL: int := 1
  const ALLOW: int := 2
  const LOG: int := 3
  const KILL_PROCESS: int := 4
  const USER_NOTIF: int := 5
  const BASIC_MAX: int := 5
  const TRAP: int := 0x10000
  const ERRNO: int := 0x20000
  const TRACE: int := 0x40000

  /** A basic action, or TRAP, ERRNO or TRACE combined with a 16-bit value. */
  predicate IsAction(action: int) {
    || KILL <= action <= BASIC_MAX
    || TRAP <= action < TRAP + 0x10000
    || ERRNO <= action < ERRNO + 0x10000
    || TRACE <= action < TRACE + 0x10000
  }

  /** The seccomp return value of an action. */
  function ActionToBpf(action: int): (r: u32)
    requires IsAction(action)
  {
    if action == KILL then 0
    else if action == KILL_PROCESS then 0x8000_0000
    else if action == ALLOW then 0x7FFF_0000
    else if action == LOG then 0x7FFC_0000
    else if action == USER_NOTIF then 0x7FC0_0000
    else
      var value := action % 0x10000;
      if action - value == TRAP then 0x0003_0000 + value
      else if action - value == ERRNO then 0x0005_0000 + value
      else 0x7FF0_0000 + value
  }

  /** Different actions have different return values, so a return identifies its action. */
  lemma ActionToBpfInjective(a: int, b: int)
    requires IsAction(a) && IsAction(b) && ActionToBpf(a) == ActionToBpf(b)
    ensures a == b
  {
    assert a > BASIC_MAX ==> a % 0x10000 == a - (a / 0x10000) * 0x10000;
    assert b > BASIC_MAX ==> b % 0x10000 == b - (b / 0x10000) * 0x10000;
  }

  // ----- policies -----

  /** A filter names a syscall number and may carry a condition on the arguments. */
  datatype Filter = Filter(nr: u32, condition: Option<Expr>)

  datatype Entry =
    | Use(used: seq<Entry>)
    | Block(action: int, filters: seq<Filter>)

  ghost predicate IsFilter(f: Filter) {
    f.condition.Some? ==> IsCondition(f.condition.value) && HasWidths(f.condition.value)
  }

  predicate Matches(f: Filter, nr: u32, args: Args)
    requires IsFilter(f)
  {
    f.nr == nr && (f.condition.Some? ==> Holds(f.condition.value, args))
  }

  /** Entries as the parser builds them: real actions, conditions of the grammar's shape, and
      arguments as wide as the syscall declares them. */
  ghost predicate IsPolicy(entries: seq<Entry>)
    decreases entries
  {
    forall i :: 0 <= i < |entries| ==>
      match entries[i]
      case Use(used) => IsPolicy(used)
      case Block(action, filters) =>
        IsAction(action) && forall j :: 0 <= j < |filters| ==> IsFilter(filters[j])
  }

  /** Some filter of the block matches. */
  predicate AnyMatches(filters: seq<Filter>, nr: u32, args: Args)
    requires forall j :: 0 <= j < |filters| ==> IsFilter(filters[j])
  {
    exists j :: 0 <= j < |filters| && Matches(filters[j], nr, args)
  }

  /** The action of the first matching filter, if any. */
  function FirstMatch(entries: seq<Entry>, nr: u32, args: Args): (r: Option<int>)
    requires IsPolicy(entries)
    decreases entries
  {
    if entries == [] then None
    else
      var here :=
        match entries[0]
        case Use(used) => FirstMatch(used, nr, args)
        case Block(action, filters) => if AnyMatches(filters, nr, args) then Some(action) else None;
      if here.Some? then here else FirstMatch(entries[1..], nr, args)
  }

  /** The decision the policy stands for. */
  function Decision(entries: seq<Entry>, default: int, nr: u32, args: Args): (action: int)
    requires IsPolicy(entries)
  {
    var m := FirstMatch(entries, nr, args);
    if m.Some? then m.value else default
  }
}
