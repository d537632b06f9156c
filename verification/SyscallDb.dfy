/**
  The packed syscall database: words in which each definition is stored back to back, and a
  pool of argument names. Unpacking a definition for one architecture gives its syscall back.
 */
module SyscallDb {
  import opened Options
  import opened Utf8
  import opened Words
  import opened Masks

  const MAX_ARGS: nat := 6
  const MAX_ARGTYPE: nat := 8
  const MAX_ARGNAME: nat := 0xFFFF
  const INT32_MAX: nat := 0x7FFF_FFFF

  datatype Arg = Arg(name: Option<seq<byte>>, size: nat)

  datatype Syscall = Syscall(name: seq<byte>, nr: nat, args: seq<Arg>)

  /** One argument of some architectures: its number, its size, 0 for that of a pointer, and the
      place of its name in the pool. */
  datatype Item = Item(sel: set<nat>, argno: nat, kind: nat, name: nat)

  /** What a definition stands for. */
  datatype Record = Record(offset: nat, sel: set<nat>, items: seq<Item>, numbers: seq<nat>)

  // ----- fields of a word -----

  function Info(item: Item): (w: nat) { item.argno * 0x100_0000 + item.kind * 0x1_0000 + item.name }

  function GetArgNo(w: nat): nat { w / 0x100_0000 % 256 }

  function GetArgType(w: nat): nat { w / 0x1_0000 % 256 }

  function GetArgName(w: nat): nat { w % 0x1_0000 }

  lemma InfoReadsBack(item: Item)
    requires item.argno < 256 && item.kind < 256 && item.name < 0x1_0000
    ensures GetArgNo(Info(item)) == item.argno && GetArgType(Info(item)) == item.kind &&
            GetArgName(Info(item)) == item.name
  {
    DivUnique(Info(item), 0x1_0000, item.argno * 256 + item.kind, item.name);
    DivUnique(Info(item), 0x100_0000, item.argno, item.kind * 0x1_0000 + item.name);
  }

  // ----- names -----

  predicate IsName(s: seq<byte>) { forall i :: 0 <= i < |s| ==> s[i] != 0 }

  /** The C string at a place in the pool. */
  predicate IsNameAt(pool: seq<byte>, at: nat, name: seq<byte>) {
    at + |name| < |pool| && pool[at..at + |name|] == name && pool[at + |name|] == 0
  }

  lemma NameStays(pool: seq<byte>, pool': seq<byte>, at: nat, name: seq<byte>)
    requires pool <= pool' && IsNameAt(pool, at, name)
    ensures IsNameAt(pool', at, name)
  {
    assert pool'[at..at + |name|] == pool'[..|pool|][at..at + |name|];
  }

  // ----- the layout of a definition -----

  predicate IsRecord(r: Record, n: nat) {
    && r.sel != {} && (forall i :: i in r.sel ==> i < n) && |r.items| <= INT32_MAX
    && (forall k :: 0 <= k < |r.items| ==> IsItem(r.items[k], r.sel))
    && |r.numbers| == Count(r.sel, n)
  }

  predicate IsItem(item: Item, sel: set<nat>) {
    item.sel != {} && item.sel <= sel && item.argno < MAX_ARGS && item.kind <= MAX_ARGTYPE
  }

  /** All items are for all architectures of the definition, and need no masks of their own. */
  predicate IsCompressed(r: Record) {
    forall k :: 0 <= k < |r.items| ==> r.items[k].sel == r.sel
  }

  function NumbersAt(r: Record): (at: nat) {
    r.offset + 2 + if IsCompressed(r) then |r.items| else 2 * |r.items|
  }

  function EndOf(r: Record): nat { NumbersAt(r) + |r.numbers| }

  predicate HasItems(defs: seq<nat>, bits: seq<nat>, r: Record) {
    && NumbersAt(r) <= |defs|
    && if IsCompressed(r) then
         && defs[r.offset + 1] == |r.items|
         && forall k :: 0 <= k < |r.items| ==> defs[r.offset + 2 + k] == Info(r.items[k])
       else
         && defs[r.offset + 1] == 0x1_0000_0000 - |r.items|
         && forall k :: 0 <= k < |r.items| ==>
              && defs[r.offset + 2 + 2 * k] == Mask(bits, r.items[k].sel, |bits|)
              && defs[r.offset + 2 + 2 * k + 1] == Info(r.items[k])
  }

  predicate IsLaidOut(defs: seq<nat>, bits: seq<nat>, r: Record) {
    && EndOf(r) <= |defs| && HasItems(defs, bits, r)
    && defs[r.offset] == Mask(bits, r.sel, |bits|)
    && forall k :: 0 <= k < |r.numbers| ==> defs[NumbersAt(r) + k] == r.numbers[k]
  }

  lemma LayoutStays(defs: seq<nat>, defs': seq<nat>, bits: seq<nat>, r: Record)
    requires IsLaidOut(defs, bits, r) && defs <= defs'
    ensures IsLaidOut(defs', bits, r)
  {
    hide IsCompressed;
    assert forall k :: 0 <= k < |defs| ==> defs'[k] == defs[k];
  }

  // ----- what a definition says about one architecture -----

  /** The item `k` is the one for an argument. */
  predicate Tells(r: Record, pool: seq<byte>, arch: nat, pointerSize: nat, argno: nat, arg: Arg, k: nat) {
    && k < |r.items| && r.items[k].argno == argno && arch in r.items[k].sel
    && arg.name.Some? && IsNameAt(pool, r.items[k].name, arg.name.value)
    && arg.size == (if r.items[k].kind == 0 then pointerSize else r.items[k].kind)
    && forall j :: 0 <= j < |r.items| && j != k && r.items[j].argno == argno ==> arch !in r.items[j].sel
  }

  predicate Explains(r: Record, pool: seq<byte>, arch: nat, pointerSize: nat, argno: nat, arg: Arg) {
    if arg.name.None? then
      arg.size == 0 && forall j :: 0 <= j < |r.items| && r.items[j].argno == argno ==> arch !in r.items[j].sel
    else exists k :: 0 <= k < |r.items| && Tells(r, pool, arch, pointerSize, argno, arg, k)
  }

  predicate Describes(r: Record, pool: seq<byte>, arch: nat, pointerSize: nat, s: Syscall) {
    && arch in r.sel && |s.args| == MAX_ARGS
    && Count(r.sel, arch) < |r.numbers| && r.numbers[Count(r.sel, arch)] == s.nr
    && forall a :: 0 <= a < MAX_ARGS ==> Explains(r, pool, arch, pointerSize, a, s.args[a])
  }

  lemma DescribesStays(r: Record, pool: seq<byte>, pool': seq<byte>, arch: nat, pointerSize: nat, s: Syscall)
    requires Describes(r, pool, arch, pointerSize, s) && pool <= pool'
    ensures Describes(r, pool', arch, pointerSize, s)
  {
    forall a | 0 <= a < MAX_ARGS ensures Explains(r, pool', arch, pointerSize, a, s.args[a]) {
      ExplainsStays(r, pool, pool', arch, pointerSize, a, s.args[a]);
    }
  }

  lemma ExplainsStays(r: Record, pool: seq<byte>, pool': seq<byte>, arch: nat, pointerSize: nat, a: nat, arg: Arg)
    requires Explains(r, pool, arch, pointerSize, a, arg) && pool <= pool'
    ensures Explains(r, pool', arch, pointerSize, a, arg)
  {
    if arg.name.Some? {
      var k :| 0 <= k < |r.items| && Tells(r, pool, arch, pointerSize, a, arg, k);
      NameStays(pool, pool', r.items[k].name, arg.name.value);
      assert Tells(r, pool', arch, pointerSize, a, arg, k);
    }
  }

  /** At most one item is for one argument of one architecture. */
  lemma ItemIsAlone(r: Record, pool: seq<byte>, arch: nat, pointerSize: nat, s: Syscall, j: nat, k: nat)
    requires Describes(r, pool, arch, pointerSize, s) && j < |r.items| && k < |r.items|
    requires arch in r.items[j].sel && arch in r.items[k].sel && r.items[j].argno == r.items[k].argno < MAX_ARGS
    ensures j == k
  {
    assert Explains(r, pool, arch, pointerSize, r.items[j].argno, s.args[r.items[j].argno]);
  }

  // ----- unpacking -----

  /** An unpacked argument: its name is a place in the pool. */
  datatype Slot = Slot(name: Option<nat>, size: nat)

  predicate Shows(pool: seq<byte>, slot: Slot, arg: Arg) {
    && slot.size == arg.size && slot.name.Some? == arg.name.Some?
    && (arg.name.Some? ==> IsNameAt(pool, slot.name.value, arg.name.value))
  }

  /** The number of zeros below the lowest bit. */
  function Ctz(x: nat): (n: nat)
    requires x > 0
  {
    if x % 2 == 1 then 0 else 1 + Ctz(x / 2)
  }

  lemma {:induction false} CtzOfFlag(b: nat)
    ensures Ctz(Pow2(b)) == b
    decreases b
  {
    if b > 0 {
      CtzOfFlag(b - 1);
      assert Pow2(b) == 2 * Pow2(b - 1) && 2 * Pow2(b - 1) / 2 == Pow2(b - 1);
    }
  }

  function NrAt(defs: seq<nat>, off: nat): (at: nat)
    requires off + 1 < |defs| && defs[off + 1] < 0x1_0000_0000
  {
    off + 2 + if defs[off + 1] > INT32_MAX then 2 * (0x1_0000_0000 - defs[off + 1]) else defs[off + 1]
  }

  lemma NrAtIsNumbersAt(defs: seq<nat>, bits: seq<nat>, r: Record)
    requires IsRecord(r, |bits|) && IsLaidOut(defs, bits, r)
    ensures r.offset + 1 < |defs| && defs[r.offset + 1] < 0x1_0000_0000 && NrAt(defs, r.offset) == NumbersAt(r)
    ensures defs[r.offset + 1] <= INT32_MAX <==> IsCompressed(r)
    ensures |r.items| == if IsCompressed(r) then defs[r.offset + 1] else 0x1_0000_0000 - defs[r.offset + 1]
  {
  }

  /** The number at the rank of a flag among the bits of the definition's mask. */
  function RankAt(mask: nat, flag: nat): (k: int) {
    var found := BitAnd(flag, mask);
    if found == 0 then -1 else Popcount(BitAnd(mask, BitXor(found, found - 1))) - 1
  }

  lemma {:induction false} CountGrows(sel: set<nat>, i: nat, n: nat)
    requires i < n && i in sel
    ensures Count(sel, i) < Count(sel, n)
    decreases n
  {
    if i + 1 < n {
      CountGrows(sel, i, n - 1);
    }
  }

  lemma RankFits(bits: seq<nat>, sel: set<nat>, arch: nat)
    requires Ascending(bits) && arch < |bits| && arch in sel
    ensures RankAt(Mask(bits, sel, |bits|), Pow2(bits[arch])) == Count(sel, arch) < Count(sel, |bits|)
  {
    hide BitAnd, BitXor, Popcount, Mask, Pow2;
    RankIsCount(bits, sel, arch);
    CountGrows(sel, arch, |bits|);
  }

  const EMPTY: Slot := Slot(None, 0)

  /** The items from `k` on have been unpacked for an architecture. */
  ghost predicate IsFilled(slots: seq<Slot>, r: Record, arch: nat, k: nat) {
    && |slots| == MAX_ARGS
    && (forall j :: k <= j < |r.items| && arch in r.items[j].sel && r.items[j].argno < MAX_ARGS ==>
          slots[r.items[j].argno] == Slot(Some(r.items[j].name), r.items[j].kind))
    && (forall a :: 0 <= a < MAX_ARGS && slots[a] != EMPTY ==>
          exists j :: k <= j < |r.items| && arch in r.items[j].sel && r.items[j].argno == a)
  }

  /** Fill in one argument from its word. */
  method FillSlot(dest: array<Slot>, w: nat, ghost r: Record, ghost pool: seq<byte>, ghost arch: nat,
                  ghost pointerSize: nat, ghost s: Syscall, ghost k: nat)
    requires Describes(r, pool, arch, pointerSize, s) && k < |r.items| && w == Info(r.items[k])
    requires arch in r.items[k].sel && IsItem(r.items[k], r.sel) && r.items[k].name <= MAX_ARGNAME
    requires IsFilled(dest[..], r, arch, k + 1)
    modifies dest
    ensures IsFilled(dest[..], r, arch, k)
  {
    hide Describes;
    InfoReadsBack(r.items[k]);
    ghost var before := dest[..];
    dest[GetArgNo(w)] := Slot(Some(GetArgName(w)), GetArgType(w));
    assert dest[..] == before[r.items[k].argno := Slot(Some(r.items[k].name), r.items[k].kind)];
    forall j | k < j < |r.items| && arch in r.items[j].sel && r.items[j].argno < MAX_ARGS
      ensures r.items[j].argno != r.items[k].argno
    {
      if r.items[j].argno == r.items[k].argno {
        ItemIsAlone(r, pool, arch, pointerSize, s, j, k);
      }
    }
  }

  lemma NotForArch(slots: seq<Slot>, r: Record, arch: nat, k: nat)
    requires k < |r.items| && arch !in r.items[k].sel && IsFilled(slots, r, arch, k + 1)
    ensures IsFilled(slots, r, arch, k)
  {
    forall a | 0 <= a < MAX_ARGS && slots[a] != EMPTY
      ensures exists j :: k <= j < |r.items| && arch in r.items[j].sel && r.items[j].argno == a
    {
      var j :| k + 1 <= j < |r.items| && arch in r.items[j].sel && r.items[j].argno == a;
    }
  }

  /** Unpack the arguments of a definition for one architecture. */
  method UnpackArgs(defs: seq<nat>, off: nat, flag: nat, dest: array<Slot>, ghost bits: seq<nat>, ghost r: Record,
                    ghost pool: seq<byte>, ghost arch: nat, ghost pointerSize: nat, ghost s: Syscall)
    requires Ascending(bits) && IsRecord(r, |bits|) && IsLaidOut(defs, bits, r) && off == r.offset
    requires arch < |bits| && flag == Pow2(bits[arch]) && Describes(r, pool, arch, pointerSize, s)
    requires forall k :: 0 <= k < |r.items| ==> r.items[k].name <= MAX_ARGNAME
    requires dest.Length == MAX_ARGS && forall a :: 0 <= a < MAX_ARGS ==> dest[a] == EMPTY
    modifies dest
    ensures IsFilled(dest[..], r, arch, 0)
  {
    hide Describes, Info, Pow2, Mask, BitAnd;
    NrAtIsNumbersAt(defs, bits, r);
    if defs[off + 1] <= INT32_MAX {
      var i := defs[off + 1];
      while i > 0
        invariant 0 <= i <= |r.items| && IsFilled(dest[..], r, arch, i)
      {
        i := i - 1;
        assert arch in r.items[i].sel by { DescribesArch(r, pool, arch, pointerSize, s); }
        FillSlot(dest, defs[off + 2 + i], r, pool, arch, pointerSize, s, i);
      }
    } else {
      var i := 0x1_0000_0000 - defs[off + 1];
      while i > 0
        invariant 0 <= i <= |r.items| && IsFilled(dest[..], r, arch, i)
      {
        i := i - 1;
        FlagTests(bits, r.items[i].sel, arch);
        if BitAnd(flag, defs[off + 2 + 2 * i]) != 0 {
          FillSlot(dest, defs[off + 2 + 2 * i + 1], r, pool, arch, pointerSize, s, i);
        } else {
          NotForArch(dest[..], r, arch, i);
        }
      }
    }
  }

  lemma DescribesArch(r: Record, pool: seq<byte>, arch: nat, pointerSize: nat, s: Syscall)
    requires Describes(r, pool, arch, pointerSize, s)
    ensures arch in r.sel
  {
  }

  /** A slot with the size of a pointer in place of its code. */
  function Completed(slot: Slot, pointerSize: nat): Slot {
    if slot.name.Some? && slot.size == 0 then Slot(slot.name, pointerSize) else slot
  }

  /** Replace the code for the size of a pointer by that size. */
  method SetPointerSizes(dest: array<Slot>, pointerSize: nat)
    requires dest.Length == MAX_ARGS
    modifies dest
    ensures forall a :: 0 <= a < MAX_ARGS ==> dest[a] == Completed(old(dest[a]), pointerSize)
  {
    var i := 0;
    while i != MAX_ARGS
      invariant 0 <= i <= MAX_ARGS
      invariant forall a :: 0 <= a < i ==> dest[a] == Completed(old(dest[a]), pointerSize)
      invariant forall a :: i <= a < MAX_ARGS ==> dest[a] == old(dest[a])
    {
      if dest[i].name.Some? && dest[i].size == 0 {
        dest[i] := dest[i].(size := pointerSize);
      }
      i := i + 1;
    }
  }

  /** Unpack a definition for one architecture, given by its flag. The pointer sizes are indexed by
      bit. */
  method Unpack(defs: seq<nat>, pointerSizes: seq<nat>, off: nat, flag: nat, dest: array<Slot>,
                ghost bits: seq<nat>, ghost r: Record, ghost pool: seq<byte>, ghost arch: nat, ghost s: Syscall)
    returns (nr: nat)
    requires Ascending(bits) && IsRecord(r, |bits|) && IsLaidOut(defs, bits, r) && off == r.offset
    requires arch < |bits| && flag == Pow2(bits[arch]) && bits[arch] < |pointerSizes|
    requires Describes(r, pool, arch, pointerSizes[bits[arch]], s)
    requires forall k :: 0 <= k < |r.items| ==> r.items[k].name <= MAX_ARGNAME
    requires dest.Length == MAX_ARGS
    modifies dest
    ensures nr == s.nr && forall a :: 0 <= a < MAX_ARGS ==> Shows(pool, dest[a], s.args[a])
  {
    hide Describes, Mask, Pow2, BitAnd, RankAt, NrAt, Ctz, IsFilled;
    DescribesArch(r, pool, arch, pointerSizes[bits[arch]], s);
    DescribesNumber(r, pool, arch, pointerSizes[bits[arch]], s);
    var i := 0;
    while i < MAX_ARGS
      invariant 0 <= i <= MAX_ARGS && forall a :: 0 <= a < i ==> dest[a] == EMPTY
    {
      dest[i] := EMPTY;
      i := i + 1;
    }
    NrAtIsNumbersAt(defs, bits, r);
    RankFits(bits, r.sel, arch);
    nr := defs[NrAt(defs, off) + RankAt(defs[off], flag)];
    UnpackArgs(defs, off, flag, dest, bits, r, pool, arch, pointerSizes[bits[arch]], s);
    FlagTests(bits, r.sel, arch);
    CtzOfFlag(bits[arch]);
    ghost var slots := dest[..];
    SetPointerSizes(dest, pointerSizes[Ctz(BitAnd(flag, defs[off]))]);
    forall a | 0 <= a < MAX_ARGS ensures Shows(pool, dest[a], s.args[a]) {
      SlotShows(slots, r, pool, arch, pointerSizes[bits[arch]], s, a);
    }
  }

  lemma DescribesNumber(r: Record, pool: seq<byte>, arch: nat, pointerSize: nat, s: Syscall)
    requires Describes(r, pool, arch, pointerSize, s)
    ensures Count(r.sel, arch) < |r.numbers| && r.numbers[Count(r.sel, arch)] == s.nr && |s.args| == MAX_ARGS
  {
  }

  lemma SlotShows(slots: seq<Slot>, r: Record, pool: seq<byte>, arch: nat, pointerSize: nat, s: Syscall, a: nat)
    requires Describes(r, pool, arch, pointerSize, s) && IsFilled(slots, r, arch, 0) && a < MAX_ARGS
    ensures Shows(pool, Completed(slots[a], pointerSize), s.args[a])
  {
    assert Explains(r, pool, arch, pointerSize, a, s.args[a]);
  }
}
