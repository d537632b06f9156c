/**
  What the generator of the syscall database keeps while it merges the lists of all
  architectures: names in order, words laid out, and every syscall it has passed stored.
 */
module Packing {
  import opened Options
  import opened Utf8
  import opened Masks
  import opened SyscallDb

  // ----- names in order -----

  /** As strcmp. */
  function Compare(a: seq<byte>, b: seq<byte>): (c: int)
    decreases |a|
  {
    if a == [] then if b == [] then 0 else -1
    else if b == [] then 1
    else if a[0] < b[0] then -1
    else if a[0] > b[0] then 1
    else Compare(a[1..], b[1..])
  }

  lemma {:induction false} CompareEqual(a: seq<byte>, b: seq<byte>)
    ensures Compare(a, b) == 0 <==> a == b
    decreases |a|
  {
    if a != [] && b != [] {
      CompareEqual(a[1..], b[1..]);
      assert a == [a[0]] + a[1..] && b == [b[0]] + b[1..];
    }
  }

  lemma {:induction false} CompareTurns(a: seq<byte>, b: seq<byte>)
    ensures Compare(a, b) < 0 <==> Compare(b, a) > 0
    decreases |a|
  {
    if a != [] && b != [] {
      CompareTurns(a[1..], b[1..]);
    }
  }

  lemma {:induction false} CompareTrans(a: seq<byte>, b: seq<byte>, c: seq<byte>)
    requires Compare(a, b) <= 0 && Compare(b, c) <= 0
    ensures Compare(a, c) <= 0
    ensures Compare(a, b) < 0 || Compare(b, c) < 0 ==> Compare(a, c) < 0
    decreases |a|
  {
    if a != [] && b != [] && c != [] && a[0] == b[0] == c[0] {
      CompareTrans(a[1..], b[1..], c[1..]);
    }
  }

  // ----- the lists -----

  datatype Arch = Arch(bit: nat, pointerSize: nat, list: seq<Syscall>)

  /** Above every name. */
  const SENTINEL: seq<byte> := [0x7F]

  predicate IsArg(a: Arg) {
    if a.name.Some? then IsName(a.name.value) else a.size == 0
  }

  predicate IsSyscall(s: Syscall) {
    && Compare(s.name, SENTINEL) < 0 && s.nr < 0x1_0000_0000 && |s.args| == MAX_ARGS
    && forall a :: 0 <= a < MAX_ARGS ==> IsArg(s.args[a])
  }

  /** Every argument with a name has a size that can be coded. */
  predicate IsSized(s: Syscall) {
    forall a :: 0 <= a < |s.args| && s.args[a].name.Some? ==> 0 < s.args[a].size <= MAX_ARGTYPE
  }

  predicate IsList(list: seq<Syscall>) {
    && (forall j :: 0 <= j < |list| ==> IsSyscall(list[j]))
    && forall i, j :: 0 <= i < j < |list| ==> Compare(list[i].name, list[j].name) < 0
  }

  function Bits(archs: seq<Arch>): (bits: seq<nat>) {
    seq(|archs|, i requires 0 <= i < |archs| => archs[i].bit)
  }

  /** Architectures in ascending order of their flags, each list in order of names. */
  predicate IsFamily(archs: seq<Arch>) {
    && Ascending(Bits(archs)) && (forall i :: 0 <= i < |archs| ==> archs[i].bit < 32 && archs[i].pointerSize > 0)
    && |archs| < 0x1000_0000 && forall i :: 0 <= i < |archs| ==> IsList(archs[i].list)
  }

  // ----- the words of items -----

  function ItemWords(bits: seq<nat>, items: seq<Item>): (w: seq<nat>)
    ensures |w| == 2 * |items|
  {
    if items == [] then []
    else
      var last := items[|items| - 1];
      ItemWords(bits, items[..|items| - 1]) + [Mask(bits, last.sel, |bits|), Info(last)]
  }

  lemma {:induction false} ItemWordsAt(bits: seq<nat>, items: seq<Item>, k: nat)
    requires k < |items|
    ensures ItemWords(bits, items)[2 * k] == Mask(bits, items[k].sel, |bits|)
    ensures ItemWords(bits, items)[2 * k + 1] == Info(items[k])
    decreases |items|
  {
    hide Mask, Info;
    if k < |items| - 1 {
      ItemWordsAt(bits, items[..|items| - 1], k);
    }
  }

  lemma ItemWordsAdds(bits: seq<nat>, items: seq<Item>, item: Item)
    ensures ItemWords(bits, items + [item]) == ItemWords(bits, items) + [Mask(bits, item.sel, |bits|), Info(item)]
  {
    assert (items + [item])[..|items|] == items;
  }

  lemma {:induction false} ItemWordsJoin(bits: seq<nat>, a: seq<Item>, b: seq<Item>)
    ensures ItemWords(bits, a + b) == ItemWords(bits, a) + ItemWords(bits, b)
    decreases |b|
  {
    if b == [] {
      assert a + b == a;
    } else {
      var n := |b| - 1;
      ItemWordsJoin(bits, a, b[..n]);
      assert (a + b)[..|a + b| - 1] == a + b[..n];
    }
  }

  // ----- the items of one argument -----

  function Items(sel: set<nat>, items: seq<Item>): Record { Record(0, sel, items, []) }

  /** The items tell the argument of every architecture in `done` that has it. */
  ghost predicate AreTold(items: seq<Item>, pool: seq<byte>, sizes: seq<nat>, args: seq<Arg>, argno: nat,
                          done: set<nat>) {
    && |sizes| == |args| && (forall i :: i in done ==> i < |args|)
    && forall i :: i in done && args[i].name.Some? ==>
         exists k :: 0 <= k < |items| && Tells(Items({}, items), pool, i, sizes[i], argno, args[i], k)
  }

  /** The items are for this argument, of architectures that have it and are not in `rest`. */
  ghost predicate AreClean(items: seq<Item>, sel: set<nat>, rest: set<nat>, args: seq<Arg>, argno: nat) {
    && (forall i :: i in sel ==> i < |args|)
    && forall k :: 0 <= k < |items| ==>
         && items[k].argno == argno && IsItem(items[k], sel) && items[k].sel != {}
         && forall i :: i in items[k].sel ==> i !in rest && i < |args| && args[i].name.Some?
  }

  lemma ItemTells(items: seq<Item>, pool: seq<byte>, sizes: seq<nat>, args: seq<Arg>, argno: nat, item: Item, i: nat)
    requires |sizes| == |args| && i < |args| && i in item.sel && item.argno == argno
    requires args[i].name.Some? && IsNameAt(pool, item.name, args[i].name.value)
    requires args[i].size == if item.kind == 0 then sizes[i] else item.kind
    requires forall k :: 0 <= k < |items| ==> i !in items[k].sel
    ensures Tells(Items({}, items + [item]), pool, i, sizes[i], argno, args[i], |items|)
  {
  }

  lemma ItemKeeps(items: seq<Item>, pool: seq<byte>, size: nat, arg: Arg, argno: nat, item: Item, i: nat, k: nat)
    requires k < |items| && Tells(Items({}, items), pool, i, size, argno, arg, k) && i !in item.sel
    ensures Tells(Items({}, items + [item]), pool, i, size, argno, arg, k)
  {
    assert (items + [item])[k] == items[k];
  }

  /** Another item for architectures that had none. */
  lemma ItemIsAdded(items: seq<Item>, pool: seq<byte>, sizes: seq<nat>, args: seq<Arg>, argno: nat,
                    sel: set<nat>, rest: set<nat>, done: set<nat>, item: Item)
    requires AreTold(items, pool, sizes, args, argno, done) && AreClean(items, sel, rest, args, argno)
    requires item.argno == argno && IsItem(item, sel) && item.sel != {} && item.sel <= rest && done !! rest
    requires forall i :: i in item.sel ==>
               && args[i].name.Some? && IsNameAt(pool, item.name, args[i].name.value)
               && args[i].size == if item.kind == 0 then sizes[i] else item.kind
    ensures AreTold(items + [item], pool, sizes, args, argno, done + item.sel)
    ensures AreClean(items + [item], sel, rest - item.sel, args, argno)
  {
    forall i | i in done + item.sel && args[i].name.Some?
      ensures exists k ::
                0 <= k < |items + [item]| && Tells(Items({}, items + [item]), pool, i, sizes[i], argno, args[i], k)
    {
      if i in item.sel {
        ItemTells(items, pool, sizes, args, argno, item, i);
      } else {
        var k :| 0 <= k < |items| && Tells(Items({}, items), pool, i, sizes[i], argno, args[i], k);
        ItemKeeps(items, pool, sizes[i], args[i], argno, item, i, k);
      }
    }
  }

  lemma ToldStays(items: seq<Item>, pool: seq<byte>, pool': seq<byte>, sizes: seq<nat>, args: seq<Arg>, argno: nat,
                  done: set<nat>)
    requires AreTold(items, pool, sizes, args, argno, done) && pool <= pool'
    ensures AreTold(items, pool', sizes, args, argno, done)
  {
    forall i | i in done && args[i].name.Some?
      ensures exists k :: 0 <= k < |items| && Tells(Items({}, items), pool', i, sizes[i], argno, args[i], k)
    {
      var k :| 0 <= k < |items| && Tells(Items({}, items), pool, i, sizes[i], argno, args[i], k);
      NameStays(pool, pool', items[k].name, args[i].name.value);
      assert Tells(Items({}, items), pool', i, sizes[i], argno, args[i], k);
    }
  }

  // ----- the items of all arguments -----

  /** The arguments below `n` of all selected architectures are explained. */
  ghost predicate AreExplained(items: seq<Item>, pool: seq<byte>, sizes: seq<nat>, heads: seq<Syscall>, sel: set<nat>,
                               n: nat) {
    && |sizes| == |heads| && (forall i :: i in sel ==> i < |heads| && |heads[i].args| == MAX_ARGS) && n <= MAX_ARGS
    && (forall k :: 0 <= k < |items| ==> items[k].argno < n && IsItem(items[k], sel) && items[k].sel != {})
    && forall i, a :: i in sel && 0 <= a < n ==> Explains(Items({}, items), pool, i, sizes[i], a, heads[i].args[a])
  }

  lemma NothingToExplain(pool: seq<byte>, sizes: seq<nat>, heads: seq<Syscall>, sel: set<nat>)
    requires |sizes| == |heads| && forall i :: i in sel ==> i < |heads| && |heads[i].args| == MAX_ARGS
    ensures AreExplained([], pool, sizes, heads, sel, 0)
  {
  }

  function ArgsOf(heads: seq<Syscall>, argno: nat): (args: seq<Arg>) {
    seq(|heads|, i requires 0 <= i < |heads| => if argno < |heads[i].args| then heads[i].args[argno] else Arg(None, 0))
  }

  lemma EarlierStays(items: seq<Item>, more: seq<Item>, pool: seq<byte>, i: nat, size: nat, a: nat, arg: Arg)
    requires Explains(Items({}, items), pool, i, size, a, arg)
    requires forall k :: 0 <= k < |more| ==> more[k].argno != a
    ensures Explains(Items({}, items + more), pool, i, size, a, arg)
  {
    var all := items + more;
    assert forall j :: 0 <= j < |all| ==> all[j] == if j < |items| then items[j] else more[j - |items|];
    if arg.name.Some? {
      var k :| 0 <= k < |items| && Tells(Items({}, items), pool, i, size, a, arg, k);
      assert Tells(Items({}, all), pool, i, size, a, arg, k);
    }
  }

  lemma LaterIsExplained(items: seq<Item>, more: seq<Item>, pool: seq<byte>, i: nat, size: nat, a: nat, arg: Arg)
    requires forall k :: 0 <= k < |items| ==> items[k].argno != a
    requires arg.name.None? ==> arg.size == 0 && forall k :: 0 <= k < |more| ==> i !in more[k].sel
    requires arg.name.Some? ==> exists k :: 0 <= k < |more| && Tells(Items({}, more), pool, i, size, a, arg, k)
    ensures Explains(Items({}, items + more), pool, i, size, a, arg)
  {
    var all := items + more;
    assert forall j :: 0 <= j < |all| ==> all[j] == if j < |items| then items[j] else more[j - |items|];
    if arg.name.Some? {
      var k :| 0 <= k < |more| && Tells(Items({}, more), pool, i, size, a, arg, k);
      assert all[|items| + k] == more[k];
      assert Tells(Items({}, all), pool, i, size, a, arg, |items| + k);
    }
  }

  /** One more argument. */
  lemma ArgIsAdded(items: seq<Item>, more: seq<Item>, pool: seq<byte>, pool': seq<byte>, sizes: seq<nat>,
                   heads: seq<Syscall>, sel: set<nat>, n: nat)
    requires AreExplained(items, pool, sizes, heads, sel, n) && n < MAX_ARGS && pool <= pool'
    requires forall i :: i in sel ==> IsArg(heads[i].args[n])
    requires AreTold(more, pool', sizes, ArgsOf(heads, n), n, sel) && AreClean(more, sel, {}, ArgsOf(heads, n), n)
    ensures AreExplained(items + more, pool', sizes, heads, sel, n + 1)
  {
    var all := items + more;
    assert forall j :: 0 <= j < |all| ==> all[j] == if j < |items| then items[j] else more[j - |items|];
    forall i, a | i in sel && 0 <= a < n + 1
      ensures Explains(Items({}, all), pool', i, sizes[i], a, heads[i].args[a])
    {
      if a < n {
        ExplainsStays(Items({}, items), pool, pool', i, sizes[i], a, heads[i].args[a]);
        EarlierStays(items, more, pool', i, sizes[i], a, heads[i].args[a]);
      } else {
        assert ArgsOf(heads, n)[i] == heads[i].args[n];
        LaterIsExplained(items, more, pool', i, sizes[i], n, heads[i].args[n]);
      }
    }
  }

  // ----- numbers -----

  function Numbers(heads: seq<Syscall>, sel: set<nat>, n: nat): (r: seq<nat>)
    requires n <= |heads|
    ensures |r| == Count(sel, n)
  {
    if n == 0 then []
    else Numbers(heads, sel, n - 1) + if n - 1 in sel then [heads[n - 1].nr] else []
  }

  lemma {:induction false} NumberAt(heads: seq<Syscall>, sel: set<nat>, i: nat, n: nat)
    requires i < n <= |heads| && i in sel
    ensures Count(sel, i) < Count(sel, n) && Numbers(heads, sel, n)[Count(sel, i)] == heads[i].nr
    decreases n
  {
    if i < n - 1 {
      NumberAt(heads, sel, i, n - 1);
    }
  }

  /** A definition whose arguments are explained and whose numbers are in order describes the
      syscall of each of its architectures. */
  lemma HeadIsDescribed(off: nat, items: seq<Item>, pool: seq<byte>, sizes: seq<nat>, heads: seq<Syscall>,
                        sel: set<nat>, i: nat)
    requires AreExplained(items, pool, sizes, heads, sel, MAX_ARGS) && i in sel
    ensures Describes(Record(off, sel, items, Numbers(heads, sel, |heads|)), pool, i, sizes[i], heads[i])
  {
    var r := Record(off, sel, items, Numbers(heads, sel, |heads|));
    NumberAt(heads, sel, i, |heads|);
    forall a | 0 <= a < MAX_ARGS ensures Explains(r, pool, i, sizes[i], a, heads[i].args[a]) {
      SameItems(Items({}, items), r, pool, i, sizes[i], a, heads[i].args[a]);
    }
  }

  lemma SameItems(r: Record, r': Record, pool: seq<byte>, i: nat, size: nat, a: nat, arg: Arg)
    requires r.items == r'.items && Explains(r, pool, i, size, a, arg)
    ensures Explains(r', pool, i, size, a, arg)
  {
    if arg.name.Some? {
      var k :| 0 <= k < |r.items| && Tells(r, pool, i, size, a, arg, k);
      assert Tells(r', pool, i, size, a, arg, k);
    }
  }

  // ----- the database -----

  datatype Entry = Entry(name: seq<byte>, offset: nat)

  predicate AreCursors(archs: seq<Arch>, cursors: seq<nat>) {
    |cursors| == |archs| && forall i :: 0 <= i < |archs| ==> cursors[i] <= |archs[i].list|
  }

  predicate IsAlive(archs: seq<Arch>, cursors: seq<nat>, i: nat)
    requires AreCursors(archs, cursors)
  {
    i < |archs| && cursors[i] < |archs[i].list|
  }

  /** These architectures are at a syscall with this argument. */
  predicate HaveArg(archs: seq<Arch>, cursors: seq<nat>, mask: set<nat>, argno: nat) {
    && AreCursors(archs, cursors)
    && forall i :: i in mask ==> i < |archs| && cursors[i] < |archs[i].list| && argno < |archs[i].list[cursors[i]].args|
  }

  function HeadArg(archs: seq<Arch>, cursors: seq<nat>, i: nat, argno: nat): Arg
    requires AreCursors(archs, cursors) && i < |archs| && cursors[i] < |archs[i].list|
    requires argno < |archs[i].list[cursors[i]].args|
  {
    archs[i].list[cursors[i]].args[argno]
  }

  const NOTHING: Syscall := Syscall([], 0, [])

  /** The syscall each cursor is at. */
  function Heads(archs: seq<Arch>, cursors: seq<nat>): (heads: seq<Syscall>)
    requires AreCursors(archs, cursors)
    ensures |heads| == |archs|
  {
    seq(|archs|, i requires 0 <= i < |archs| =>
      if cursors[i] < |archs[i].list| then archs[i].list[cursors[i]] else NOTHING)
  }

  function Sizes(archs: seq<Arch>): (sizes: seq<nat>) {
    seq(|archs|, i requires 0 <= i < |archs| => archs[i].pointerSize)
  }

  /** Each entry has its record, the records are laid out back to back from the start, and their
      names are in the pool. */
  ghost predicate AreRecords(archs: seq<Arch>, entries: seq<Entry>, defs: seq<nat>, pool: seq<byte>,
                             records: seq<Record>) {
    && |entries| == |records|
    && (forall k :: 0 <= k < |records| ==>
          && entries[k].offset == records[k].offset && IsRecord(records[k], |archs|)
          && IsLaidOut(defs, Bits(archs), records[k]) && NamesFit(records[k].items, |pool|))
    && (records != [] ==> records[0].offset == 0)
    && (forall k :: 0 < k < |records| ==> records[k].offset == EndOf(records[k - 1]))
  }

  predicate NamesFit(items: seq<Item>, n: nat) {
    forall k :: 0 <= k < |items| ==> items[k].name < n
  }

  /** The entry `k` is for syscall `j` of architecture `i`. */
  predicate IsStoredAt(archs: seq<Arch>, entries: seq<Entry>, pool: seq<byte>, records: seq<Record>, i: nat, j: nat,
                       k: nat) {
    && i < |archs| && j < |archs[i].list| && k < |entries| && k < |records|
    && entries[k].name == archs[i].list[j].name
    && Describes(records[k], pool, i, archs[i].pointerSize, archs[i].list[j])
  }

  ghost predicate IsStored(archs: seq<Arch>, entries: seq<Entry>, pool: seq<byte>, records: seq<Record>, i: nat,
                           j: nat) {
    exists k :: 0 <= k < |entries| && IsStoredAt(archs, entries, pool, records, i, j, k)
  }

  /** Every syscall that has been passed is stored. */
  ghost predicate AreStored(archs: seq<Arch>, cursors: seq<nat>, entries: seq<Entry>, pool: seq<byte>,
                            records: seq<Record>)
    requires AreCursors(archs, cursors)
  {
    forall i, j :: 0 <= i < |archs| && 0 <= j < cursors[i] ==> IsStored(archs, entries, pool, records, i, j)
  }

  /** Every definition is for syscalls that have been passed. */
  ghost predicate AreSourced(archs: seq<Arch>, cursors: seq<nat>, entries: seq<Entry>, pool: seq<byte>,
                             records: seq<Record>)
    requires AreCursors(archs, cursors) && |entries| == |records|
  {
    forall k: nat, i: nat :: k < |records| && i in records[k].sel && i < |archs| ==>
      IsSourced(archs, cursors, entries, pool, records, k, i)
  }

  ghost predicate IsSourced(archs: seq<Arch>, cursors: seq<nat>, entries: seq<Entry>, pool: seq<byte>,
                            records: seq<Record>, k: nat, i: nat)
    requires AreCursors(archs, cursors) && i < |archs|
  {
    exists j :: 0 <= j < cursors[i] && IsStoredAt(archs, entries, pool, records, i, j, k)
  }

  /** Entries are in order of their names, which precede all names to come. */
  ghost predicate AreInOrder(archs: seq<Arch>, cursors: seq<nat>, entries: seq<Entry>)
    requires AreCursors(archs, cursors)
  {
    && (forall k, l :: 0 <= k < l < |entries| ==> Compare(entries[k].name, entries[l].name) < 0)
    && forall k, i :: 0 <= k < |entries| && 0 <= i < |archs| && cursors[i] < |archs[i].list| ==>
         Compare(entries[k].name, archs[i].list[cursors[i]].name) < 0
  }

  /** The words end where the last record does. */
  ghost predicate IsEnd(records: seq<Record>, n: nat) {
    n == if records == [] then 0 else EndOf(records[|records| - 1])
  }

  /** These are the architectures whose next syscall has the least name. */
  ghost predicate AreLeast(archs: seq<Arch>, cursors: seq<nat>, sel: set<nat>, name: seq<byte>)
    requires AreCursors(archs, cursors)
  {
    && (forall i: nat :: i in sel <==>
          i < |archs| && cursors[i] < |archs[i].list| && archs[i].list[cursors[i]].name == name)
    && forall i :: 0 <= i < |archs| && cursors[i] < |archs[i].list| ==>
         Compare(name, archs[i].list[cursors[i]].name) <= 0
  }

  function Advanced(cursors: seq<nat>, sel: set<nat>): (c: seq<nat>) {
    seq(|cursors|, i requires 0 <= i < |cursors| => if i in sel then cursors[i] + 1 else cursors[i])
  }

  lemma RecordIsAdded(archs: seq<Arch>, entries: seq<Entry>, defs: seq<nat>, pool: seq<byte>, records: seq<Record>,
                      e: Entry, defs': seq<nat>, pool': seq<byte>, r: Record)
    requires AreRecords(archs, entries, defs, pool, records) && IsEnd(records, |defs|)
    requires defs <= defs' && pool <= pool' && r.offset == e.offset == |defs|
    requires IsRecord(r, |archs|) && IsLaidOut(defs', Bits(archs), r) && NamesFit(r.items, |pool'|)
    ensures AreRecords(archs, entries + [e], defs', pool', records + [r])
  {
    hide IsLaidOut, IsRecord, EndOf;
    forall k | 0 <= k < |records| ensures IsLaidOut(defs', Bits(archs), records[k]) {
      LayoutStays(defs, defs', Bits(archs), records[k]);
    }
  }

  lemma StoredStays(archs: seq<Arch>, entries: seq<Entry>, pool: seq<byte>, records: seq<Record>,
                    e: Entry, pool': seq<byte>, r: Record, i: nat, j: nat, k: nat)
    requires IsStoredAt(archs, entries, pool, records, i, j, k) && pool <= pool' && |entries| == |records|
    ensures IsStoredAt(archs, entries + [e], pool', records + [r], i, j, k)
  {
    hide Describes;
    DescribesStays(records[k], pool, pool', i, archs[i].pointerSize, archs[i].list[j]);
    assert (records + [r])[k] == records[k] && (entries + [e])[k] == entries[k];
  }

  /** The syscalls the cursors pass are stored under the new entry. */
  lemma HeadIsStored(archs: seq<Arch>, cursors: seq<nat>, entries: seq<Entry>, records: seq<Record>, e: Entry,
                     pool: seq<byte>, r: Record, sel: set<nat>, i: nat)
    requires AreCursors(archs, cursors) && |entries| == |records| && AreLeast(archs, cursors, sel, e.name) && i in sel
    requires Describes(r, pool, i, Sizes(archs)[i], Heads(archs, cursors)[i])
    ensures IsStoredAt(archs, entries + [e], pool, records + [r], i, cursors[i], |entries|)
  {
    hide Describes;
    assert (records + [r])[|entries|] == r && (entries + [e])[|entries|] == e;
  }

  lemma StoredAdvances(archs: seq<Arch>, cursors: seq<nat>, entries: seq<Entry>, pool: seq<byte>, records: seq<Record>,
                       e: Entry, pool': seq<byte>, r: Record, sel: set<nat>)
    requires AreCursors(archs, cursors) && |entries| == |records| && pool <= pool'
    requires AreStored(archs, cursors, entries, pool, records) && AreLeast(archs, cursors, sel, e.name)
    requires forall i :: i in sel ==> Describes(r, pool', i, Sizes(archs)[i], Heads(archs, cursors)[i])
    ensures AreCursors(archs, Advanced(cursors, sel))
    ensures AreStored(archs, Advanced(cursors, sel), entries + [e], pool', records + [r])
  {
    hide IsStoredAt, Describes;
    var cursors' := Advanced(cursors, sel);
    forall i, j | 0 <= i < |archs| && 0 <= j < cursors'[i]
      ensures IsStored(archs, entries + [e], pool', records + [r], i, j)
    {
      if j < cursors[i] {
        assert IsStored(archs, entries, pool, records, i, j);
        var k :| 0 <= k < |entries| && IsStoredAt(archs, entries, pool, records, i, j, k);
        StoredStays(archs, entries, pool, records, e, pool', r, i, j, k);
      } else {
        HeadIsStored(archs, cursors, entries, records, e, pool', r, sel, i);
      }
    }
  }

  lemma SourcedAdvances(archs: seq<Arch>, cursors: seq<nat>, entries: seq<Entry>, pool: seq<byte>, records: seq<Record>,
                        e: Entry, pool': seq<byte>, r: Record, sel: set<nat>)
    requires AreCursors(archs, cursors) && |entries| == |records| && pool <= pool' && r.sel == sel
    requires AreSourced(archs, cursors, entries, pool, records) && AreLeast(archs, cursors, sel, e.name)
    requires forall i :: i in sel ==> Describes(r, pool', i, Sizes(archs)[i], Heads(archs, cursors)[i])
    ensures AreCursors(archs, Advanced(cursors, sel))
    ensures AreSourced(archs, Advanced(cursors, sel), entries + [e], pool', records + [r])
  {
    hide IsStoredAt, Describes;
    var cursors', entries', records' := Advanced(cursors, sel), entries + [e], records + [r];
    assert AreCursors(archs, cursors');
    forall k: nat, i: nat | k < |records'| && i in records'[k].sel && i < |archs|
      ensures IsSourced(archs, cursors', entries', pool', records', k, i)
    {
      if k < |records| {
        assert records'[k] == records[k];
        assert IsSourced(archs, cursors, entries, pool, records, k, i);
        var j :| 0 <= j < cursors[i] && IsStoredAt(archs, entries, pool, records, i, j, k);
        StoredStays(archs, entries, pool, records, e, pool', r, i, j, k);
      } else {
        HeadIsStored(archs, cursors, entries, records, e, pool', r, sel, i);
      }
    }
  }

  lemma OrderAdvances(archs: seq<Arch>, cursors: seq<nat>, entries: seq<Entry>, e: Entry, sel: set<nat>)
    requires IsFamily(archs) && AreCursors(archs, cursors) && AreInOrder(archs, cursors, entries)
    requires sel != {} && AreLeast(archs, cursors, sel, e.name)
    ensures AreCursors(archs, Advanced(cursors, sel)) && AreInOrder(archs, Advanced(cursors, sel), entries + [e])
  {
    hide Compare;
    var cursors' := Advanced(cursors, sel);
    var some :| some in sel;
    assert forall k :: 0 <= k < |entries| ==> Compare(entries[k].name, archs[some].list[cursors[some]].name) < 0;
    forall i | 0 <= i < |archs| && cursors'[i] < |archs[i].list|
      ensures Compare(e.name, archs[i].list[cursors'[i]].name) < 0
    {
      if i in sel {
        assert IsList(archs[i].list);
      } else {
        CompareEqual(e.name, archs[i].list[cursors[i]].name);
      }
    }
    forall k, i | 0 <= k < |entries| && 0 <= i < |archs| && cursors'[i] < |archs[i].list|
      ensures Compare(entries[k].name, archs[i].list[cursors'[i]].name) < 0
    {
      CompareTrans(entries[k].name, e.name, archs[i].list[cursors'[i]].name);
    }
  }
}
