/**
  The generator of the syscall database: it merges the sorted lists of all architectures and
  packs each syscall as it comes up.
 */
module SyscallGenerator {
  import opened Options
  import opened Utf8
  import opened Masks
  import opened SyscallDb
  import opened Packing

  function Infos(items: seq<Item>): (w: seq<nat>) {
    seq(|items|, k requires 0 <= k < |items| => Info(items[k]))
  }

  /** The words of a definition between its header and its numbers. */
  function ArgWords(bits: seq<nat>, r: Record): seq<nat> {
    if IsCompressed(r) then Infos(r.items) else ItemWords(bits, r.items)
  }

  function Header(bits: seq<nat>, r: Record): seq<nat>
    requires |r.items| <= INT32_MAX
  {
    [Mask(bits, r.sel, |bits|), if IsCompressed(r) then |r.items| else 0x1_0000_0000 - |r.items|]
  }

  /** A definition written back to back with what is there is laid out. */
  lemma WrittenIsLaidOut(defs: seq<nat>, bits: seq<nat>, r: Record)
    requires r.offset == |defs| && IsRecord(r, |bits|)
    ensures var defs' := defs + Header(bits, r) + ArgWords(bits, r) + r.numbers;
            IsLaidOut(defs', bits, r) && EndOf(r) == |defs'|
  {
    hide Mask, Info, ItemWords;
    var defs' := defs + Header(bits, r) + ArgWords(bits, r) + r.numbers;
    var words := ArgWords(bits, r);
    var n := |defs| + 2;
    assert |defs + Header(bits, r)| == n;
    assert NumbersAt(r) == n + |words|;
    assert forall k :: 0 <= k < |words| ==> defs'[n + k] == words[k];
    forall k | 0 <= k < |r.numbers| ensures defs'[NumbersAt(r) + k] == r.numbers[k] {
    }
    if !IsCompressed(r) {
      forall k | 0 <= k < |r.items|
        ensures defs'[n + 2 * k] == Mask(bits, r.items[k].sel, |bits|) && defs'[n + 2 * k + 1] == Info(r.items[k])
      {
        ItemWordsAt(bits, r.items, k);
        assert defs'[n + 2 * k] == words[2 * k] && defs'[n + 2 * k + 1] == words[2 * k + 1];
      }
    }
  }

  lemma {:induction false} CountShrinks(a: set<nat>, b: set<nat>, n: nat)
    ensures Count(a - b, n) <= Count(a, n)
    ensures (exists i :: i in a && i in b && i < n) ==> Count(a - b, n) < Count(a, n)
    decreases n
  {
    if n > 0 {
      CountShrinks(a, b, n - 1);
      if i :| i in a && i in b && i < n {
        if i < n - 1 {
          assert exists j :: j in a && j in b && j < n - 1;
        }
      }
    }
  }

  // ----- the items of one argument -----

  /** The items so far, for this argument of the architectures in `sel` but not in `rest`, are
      right, and the words end in theirs. */
  ghost predicate IsTally(archs: seq<Arch>, cursors: seq<nat>, pool: seq<byte>, defs: seq<nat>, items: seq<Item>,
                          base: seq<nat>, sel: set<nat>, rest: set<nat>, argno: nat)
    requires AreCursors(archs, cursors)
  {
    var args := ArgsOf(Heads(archs, cursors), argno);
    && rest <= sel && defs == base + ItemWords(Bits(archs), items)
    && AreTold(items, pool, Sizes(archs), args, argno, sel - rest) && AreClean(items, sel, rest, args, argno)
    && NamesFit(items, |pool|) && |items| + Count(rest, |archs|) <= Count(sel, |archs|)
  }

  lemma NothingTallied(archs: seq<Arch>, cursors: seq<nat>, pool: seq<byte>, defs: seq<nat>, sel: set<nat>, argno: nat)
    requires HaveArg(archs, cursors, sel, argno)
    ensures IsTally(archs, cursors, pool, defs, [], defs, sel, sel, argno)
  {
    assert defs + ItemWords(Bits(archs), []) == defs;
  }

  lemma TallyStays(archs: seq<Arch>, cursors: seq<nat>, pool: seq<byte>, pool': seq<byte>, defs: seq<nat>,
                   items: seq<Item>, base: seq<nat>, sel: set<nat>, rest: set<nat>, argno: nat)
    requires AreCursors(archs, cursors) && pool <= pool' &&
             IsTally(archs, cursors, pool, defs, items, base, sel, rest, argno)
    ensures IsTally(archs, cursors, pool', defs, items, base, sel, rest, argno)
  {
    hide AreTold, AreClean, ItemWords;
    ToldStays(items, pool, pool', Sizes(archs), ArgsOf(Heads(archs, cursors), argno), argno, sel - rest);
  }

  lemma ItemTallies(archs: seq<Arch>, cursors: seq<nat>, pool: seq<byte>, defs: seq<nat>, items: seq<Item>,
                    base: seq<nat>, sel: set<nat>, rest: set<nat>, item: Item)
    requires HaveArg(archs, cursors, sel, item.argno)
    requires IsTally(archs, cursors, pool, defs, items, base, sel, rest, item.argno)
    requires item.sel != {} && item.sel <= rest <= sel && item.argno < MAX_ARGS && item.kind <= MAX_ARGTYPE &&
             item.name < |pool|
    requires forall i :: i in item.sel ==>
               var arg := HeadArg(archs, cursors, i, item.argno);
               && arg.name.Some? && IsNameAt(pool, item.name, arg.name.value)
               && arg.size == if item.kind == 0 then archs[i].pointerSize else item.kind
    ensures IsTally(archs, cursors, pool, defs + [Mask(Bits(archs), item.sel, |archs|), Info(item)], items + [item],
                    base, sel, rest - item.sel, item.argno)
  {
    hide AreTold, AreClean, ItemWords, Mask, Info, IsNameAt, AreCursors, Sizes, Heads, ArgsOf, Count;
    var args := ArgsOf(Heads(archs, cursors), item.argno);
    HeadArgsAre(archs, cursors, sel, item.argno);
    ItemIsAdded(items, pool, Sizes(archs), args, item.argno, sel, rest, sel - rest, item);
    SetMoves(sel, rest, item.sel);
    ItemCounts(rest, item.sel, |archs|);
    WordsAdd(base, Bits(archs), items, item);
  }

  lemma ItemCounts(rest: set<nat>, part: set<nat>, n: nat)
    requires part != {} && part <= rest && forall i :: i in part ==> i < n
    ensures Count(rest - part, n) < Count(rest, n)
  {
    var some :| some in part;
    CountShrinks(rest, part, n);
  }

  lemma WordsAdd(base: seq<nat>, bits: seq<nat>, items: seq<Item>, item: Item)
    ensures base + ItemWords(bits, items) + [Mask(bits, item.sel, |bits|), Info(item)] ==
            base + ItemWords(bits, items + [item])
  {
    hide ItemWords, Mask, Info;
    ItemWordsAdds(bits, items, item);
  }

  lemma SetMoves(sel: set<nat>, rest: set<nat>, part: set<nat>)
    requires part <= rest <= sel
    ensures sel - rest + part == sel - (rest - part)
  {
  }

  lemma HeadArgsAre(archs: seq<Arch>, cursors: seq<nat>, sel: set<nat>, argno: nat)
    requires HaveArg(archs, cursors, sel, argno)
    ensures var args := ArgsOf(Heads(archs, cursors), argno);
            && |args| == |archs| == |Sizes(archs)|
            && forall i :: i in sel ==>
                 args[i] == HeadArg(archs, cursors, i, argno) && Sizes(archs)[i] == archs[i].pointerSize
  {
  }

  lemma RestIsUnnamed(archs: seq<Arch>, cursors: seq<nat>, pool: seq<byte>, defs: seq<nat>, items: seq<Item>,
                      base: seq<nat>, sel: set<nat>, rest: set<nat>, argno: nat)
    requires HaveArg(archs, cursors, sel, argno) && rest <= sel
    requires IsTally(archs, cursors, pool, defs, items, base, sel, rest, argno)
    requires forall i :: i in rest ==> HeadArg(archs, cursors, i, argno).name.None?
    ensures IsTally(archs, cursors, pool, defs, items, base, sel, {}, argno)
  {
    CountShrinks(rest, rest, |archs|);
    assert rest - rest == {};
  }

  class Generator {
    const archs: seq<Arch>
    var cursors: seq<nat>
    var entries: seq<Entry>
    var definitions: seq<nat>
    var pool: seq<byte>
    ghost var records: seq<Record>

    constructor (archs: seq<Arch>)
      requires IsFamily(archs)
      ensures Valid() && this.archs == archs && pool == [] && forall i :: 0 <= i < |archs| ==> cursors[i] == 0
    {
      this.archs := archs;
      cursors := seq(|archs|, _ => 0);
      entries, definitions, pool, records := [], [], [], [];
    }

    ghost predicate Valid()
      reads this
    {
      && IsFamily(archs) && AreCursors(archs, cursors)
      && AreRecords(archs, entries, definitions, pool, records) && IsEnd(records, |definitions|)
      && AreStored(archs, cursors, entries, pool, records) && AreSourced(archs, cursors, entries, pool, records)
      && AreInOrder(archs, cursors, entries)
    }

    /** The place of a string in the pool; strings share their ends. */
    method Intern(str: seq<byte>) returns (at: nat)
      modifies this`pool
      ensures old(pool) <= pool && at < |pool| && IsNameAt(pool, at, str)
    {
      var size := |str| + 1;
      at := 0;
      while at + size <= |pool|
      {
        if pool[at..at + size] == str + [0] {
          assert pool[at..at + |str|] == pool[at..at + size][..|str|] == str;
          assert pool[at + |str|] == pool[at..at + size][|str|];
          return;
        }
        at := at + 1;
      }
      at := |pool|;
      pool := pool + str + [0];
    }

    /** The least name among those the cursors are at, and the architectures that have it. */
    method BeginSyscall() returns (sel: set<nat>, name: seq<byte>)
      requires IsFamily(archs) && AreCursors(archs, cursors)
      ensures AreLeast(archs, cursors, sel, name)
      ensures sel == {} ==> forall i :: 0 <= i < |archs| ==> cursors[i] == |archs[i].list|
    {
      hide Compare;
      sel, name := {}, SENTINEL;
      var i := 0;
      while i != |archs|
        invariant 0 <= i <= |archs|
        invariant forall j: nat :: j in sel <==>
                  j < i && cursors[j] < |archs[j].list| && archs[j].list[cursors[j]].name == name
        invariant forall j :: 0 <= j < i && cursors[j] < |archs[j].list| ==>
                    Compare(name, archs[j].list[cursors[j]].name) <= 0
        invariant sel == {} ==> name == SENTINEL && forall j :: 0 <= j < i ==> cursors[j] == |archs[j].list|
      {
        if cursors[i] < |archs[i].list| {
          var next := archs[i].list[cursors[i]].name;
          CompareEqual(name, next);
          CompareTurns(next, name);
          assert IsList(archs[i].list) && IsSyscall(archs[i].list[cursors[i]]);
          var cmp := Compare(name, next);
          if cmp == 0 {
            sel := sel + {i};
          } else if cmp > 0 {
            forall j | 0 <= j < i && cursors[j] < |archs[j].list|
              ensures Compare(next, archs[j].list[cursors[j]].name) < 0
            {
              CompareTrans(next, name, archs[j].list[cursors[j]].name);
            }
            CompareEqual(next, next);
            sel, name := {i}, next;
          }
        }
        i := i + 1;
      }
    }

    /** Append the numbers of the selected architectures and move their cursors on. */
    method CompleteSyscall(sel: set<nat>)
      requires AreCursors(archs, cursors) && forall i :: i in sel ==> IsAlive(archs, cursors, i)
      modifies this`definitions, this`cursors
      ensures definitions == old(definitions) + old(Numbers(Heads(archs, cursors), sel, |archs|))
      ensures cursors == Advanced(old(cursors), sel)
    {
      ghost var heads := Heads(archs, cursors);
      var i := 0;
      while i < |archs|
        invariant 0 <= i <= |archs| == |cursors|
        invariant definitions == old(definitions) + Numbers(heads, sel, i)
        invariant forall j :: 0 <= j < i ==> cursors[j] == Advanced(old(cursors), sel)[j]
        invariant forall j :: i <= j < |archs| ==> cursors[j] == old(cursors[j])
      {
        if i in sel {
          assert IsAlive(archs, old(cursors), i);
          definitions := definitions + [archs[i].list[cursors[i]].nr];
          cursors := cursors[i := cursors[i] + 1];
        }
        i := i + 1;
      }
    }

    /** The architectures among these whose argument has the name of the first one that has any. */
    method GetArgName(mask: set<nat>, argno: nat) returns (group: set<nat>, name: seq<byte>)
      requires HaveArg(archs, cursors, mask, argno)
      ensures forall i :: i in group <==> i in mask && HeadArg(archs, cursors, i, argno).name == Some(name)
      ensures group == {} ==> forall i :: i in mask ==> HeadArg(archs, cursors, i, argno).name.None?
    {
      group, name := {}, [];
      var i := 0;
      while i != |archs|
        invariant 0 <= i <= |archs|
        invariant forall j: nat :: j in group <==>
                  j < i && group != {} && j in mask && HeadArg(archs, cursors, j, argno).name == Some(name)
        invariant group == {} ==> forall j :: j in mask && j < i ==> HeadArg(archs, cursors, j, argno).name.None?
      {
        if i in mask {
          var arg := HeadArg(archs, cursors, i, argno);
          if group == {} && arg.name.Some? {
            group, name := {i}, arg.name.value;
          } else if group != {} && arg.name == Some(name) {
            group := group + {i};
          }
        }
        i := i + 1;
      }
    }

    method IsPointerSized(group: set<nat>, argno: nat) returns (all: bool)
      requires HaveArg(archs, cursors, group, argno)
      ensures all <==> forall i :: i in group ==> HeadArg(archs, cursors, i, argno).size == archs[i].pointerSize
    {
      var i := 0;
      while i != |archs|
        invariant 0 <= i <= |archs|
        invariant forall j :: j in group && j < i ==> HeadArg(archs, cursors, j, argno).size == archs[j].pointerSize
      {
        if i in group && HeadArg(archs, cursors, i, argno).size != archs[i].pointerSize {
          return false;
        }
        i := i + 1;
      }
      all := true;
    }

    /** The architectures among these whose argument has the size of the first one's. */
    method GetArgType(group: set<nat>, argno: nat) returns (same: set<nat>, size: nat)
      requires HaveArg(archs, cursors, group, argno)
      ensures forall i :: i in same <==> i in group && HeadArg(archs, cursors, i, argno).size == size
      ensures same == {} ==> group == {}
    {
      same, size := {}, 0;
      var i := 0;
      while i != |archs|
        invariant 0 <= i <= |archs|
        invariant forall j: nat :: j in same <==>
                  j < i && same != {} && j in group && HeadArg(archs, cursors, j, argno).size == size
        invariant same == {} ==> forall j :: j in group ==> j >= i
      {
        if i in group {
          var s := HeadArg(archs, cursors, i, argno).size;
          if same == {} {
            same, size := {i}, s;
          } else if s == size {
            same := same + {i};
          }
        }
        i := i + 1;
      }
    }

    /** Write an item for architectures that had none. */
    method PushItem(group: set<nat>, argno: nat, kind: nat, name: nat, ghost items: seq<Item>, ghost base: seq<nat>,
                    ghost sel: set<nat>, ghost rest: set<nat>)
      requires HaveArg(archs, cursors, sel, argno) &&
               IsTally(archs, cursors, pool, definitions, items, base, sel, rest, argno)
      requires group != {} && group <= rest <= sel && argno < MAX_ARGS && kind <= MAX_ARGTYPE && name < |pool|
      requires forall i :: i in group ==>
                 var arg := HeadArg(archs, cursors, i, argno);
                 && arg.name.Some? && IsNameAt(pool, name, arg.name.value)
                 && arg.size == if kind == 0 then archs[i].pointerSize else kind
      modifies this`definitions
      ensures IsTally(archs, cursors, pool, definitions, items + [Item(group, argno, kind, name)], base, sel,
              rest - group, argno)
    {
      hide Mask, Info, IsTally, IsNameAt;
      ItemTallies(archs, cursors, pool, definitions, items, base, sel, rest, Item(group, argno, kind, name));
      definitions := definitions + [Mask(Bits(archs), group, |archs|), Info(Item(group, argno, kind, name))];
    }

    /** One item for each size among architectures that share a name. */
    method DoSizes(group: set<nat>, argno: nat, name: nat, ghost str: seq<byte>, ghost items: seq<Item>,
                   ghost base: seq<nat>, ghost sel: set<nat>, ghost rest: set<nat>)
      returns (ok: bool, ghost items': seq<Item>)
      requires HaveArg(archs, cursors, sel, argno) &&
               IsTally(archs, cursors, pool, definitions, items, base, sel, rest, argno)
      requires group <= rest <= sel && argno < MAX_ARGS && name < |pool| && IsNameAt(pool, name, str)
      requires forall i :: i in group ==> HeadArg(archs, cursors, i, argno).name == Some(str)
      modifies this`definitions
      ensures ok ==> IsTally(archs, cursors, pool, definitions, items', base, sel, rest - group, argno)
      ensures (forall i :: i in group ==> 0 < HeadArg(archs, cursors, i, argno).size <= MAX_ARGTYPE) ==> ok
    {
      hide IsTally, IsNameAt;
      var left := group;
      items' := items;
      assert rest - (group - left) == rest;
      var same, size := GetArgType(left, argno);
      while same != {}
        invariant left <= group &&
                  IsTally(archs, cursors, pool, definitions, items', base, sel, rest - (group - left), argno)
        invariant forall i :: i in same <==> i in left && HeadArg(archs, cursors, i, argno).size == size
        invariant same == {} ==> left == {}
        decreases left
      {
        if size == 0 || size > MAX_ARGTYPE {
          var i :| i in same;
          return false, items';
        }
        PushItem(same, argno, size, name, items', base, sel, rest - (group - left));
        assert rest - (group - left) - same == rest - (group - (left - same));
        items' := items' + [Item(same, argno, size, name)];
        left := left - same;
        same, size := GetArgType(left, argno);
      }
      assert rest - (group - left) == rest - group;
      ok := true;
    }

    /** All items for one argument: one for each name, or for each name and size. */
    method DoArg(sel: set<nat>, argno: nat) returns (ok: bool, ghost items: seq<Item>)
      requires HaveArg(archs, cursors, sel, argno) && argno < MAX_ARGS
      modifies this`definitions, this`pool
      ensures old(pool) <= pool
      ensures ok ==> IsTally(archs, cursors, pool, definitions, items, old(definitions), sel, {}, argno)
      ensures (forall i :: i in sel && HeadArg(archs, cursors, i, argno).name.Some? ==>
                 0 < HeadArg(archs, cursors, i, argno).size <= MAX_ARGTYPE) ==> ok
    {
      ghost var base := definitions;
      var mask := sel;
      items := [];
      NothingTallied(archs, cursors, pool, definitions, sel, argno);
      hide IsTally;
      var group, name := GetArgName(mask, argno);
      while group != {}
        invariant mask <= sel && old(pool) <= pool &&
                  IsTally(archs, cursors, pool, definitions, items, base, sel, mask, argno)
        invariant forall i :: i in group <==> i in mask && HeadArg(archs, cursors, i, argno).name == Some(name)
        invariant group == {} ==> forall i :: i in mask ==> HeadArg(archs, cursors, i, argno).name.None?
        decreases mask
      {
        ghost var before := pool;
        var at := Intern(name);
        TallyStays(archs, cursors, before, pool, definitions, items, base, sel, mask, argno);
        var pointers := IsPointerSized(group, argno);
        if pointers {
          PushItem(group, argno, 0, at, items, base, sel, mask);
          items := items + [Item(group, argno, 0, at)];
        } else {
          ok, items := DoSizes(group, argno, at, name, items, base, sel, mask);
          if !ok { return; }
        }
        mask := mask - group;
        group, name := GetArgName(mask, argno);
      }
      RestIsUnnamed(archs, cursors, pool, definitions, items, base, sel, mask, argno);
      ok := true;
    }

    /** All items of a syscall, argument by argument. */
    method DoArgs(sel: set<nat>) returns (ok: bool, ghost items: seq<Item>)
      requires IsFamily(archs) && AreCursors(archs, cursors) && forall i :: i in sel ==> IsAlive(archs, cursors, i)
      modifies this`definitions, this`pool
      ensures old(pool) <= pool
      ensures ok ==>
                && definitions == old(definitions) + ItemWords(Bits(archs), items) && NamesFit(items, |pool|)
                && AreExplained(items, pool, Sizes(archs), Heads(archs, cursors), sel, MAX_ARGS) && |items| <= INT32_MAX
      ensures AreSized(sel) ==> ok
    {
      hide ItemWords, IsArg, AreTold, AreClean, AreExplained;
      ghost var base, heads := definitions, Heads(archs, cursors);
      items := [];
      HeadsAreSyscalls(sel);
      NothingToExplain(pool, Sizes(archs), heads, sel);
      assert base + ItemWords(Bits(archs), []) == base by { NoWords(); }
      var argno := 0;
      while argno < MAX_ARGS
        invariant 0 <= argno <= MAX_ARGS && old(pool) <= pool
        invariant definitions == base + ItemWords(Bits(archs), items) && NamesFit(items, |pool|)
        invariant AreExplained(items, pool, Sizes(archs), heads, sel, argno) && |items| <= argno * |archs|
      {
        ghost var more, before := [], pool;
        ok, more := DoArg(sel, argno);
        if !ok { return; }
        assert sel - {} == sel;
        ArgIsAdded(items, more, before, pool, Sizes(archs), heads, sel, argno);
        ItemWordsJoin(Bits(archs), items, more);
        assert base + ItemWords(Bits(archs), items) + ItemWords(Bits(archs), more) ==
               base + ItemWords(Bits(archs), items + more);
        assert (argno + 1) * |archs| == argno * |archs| + |archs|;
        items := items + more;
        argno := argno + 1;
      }
      ok := true;
    }

    /** The arguments of these syscalls have sizes that can be coded. */
    ghost predicate AreSized(sel: set<nat>)
      requires AreCursors(archs, cursors)
      reads this`cursors
    {
      forall i :: i in sel && i < |archs| ==> IsSized(Heads(archs, cursors)[i])
    }

    lemma HeadsAreSyscalls(sel: set<nat>)
      requires IsFamily(archs) && AreCursors(archs, cursors) && forall i :: i in sel ==> IsAlive(archs, cursors, i)
      ensures forall i :: i in sel ==> i < |archs| && IsSyscall(Heads(archs, cursors)[i])
      ensures forall a :: 0 <= a < MAX_ARGS ==> HaveArg(archs, cursors, sel, a)
    {
      forall i | i in sel ensures i < |archs| && IsSyscall(Heads(archs, cursors)[i]) {
        assert IsAlive(archs, cursors, i);
        assert IsList(archs[i].list);
      }
    }

    lemma NoWords()
      ensures ItemWords(Bits(archs), []) == []
    {
    }

    /** If all masks are that of the definition they are dropped, in place. The result is the
        number of items, negated in 32 bits if they keep their masks. */
    method CompressArgs(sel: set<nat>, first: nat, ghost items: seq<Item>) returns (n: nat)
      requires IsFamily(archs) && first <= |definitions| && definitions[first..] == ItemWords(Bits(archs), items)
      requires |items| <= INT32_MAX && (forall i :: i in sel ==> i < |archs|)
      requires forall k :: 0 <= k < |items| ==> items[k].sel <= sel
      modifies this`definitions
      ensures var r := Record(0, sel, items, []);
              && n == (if IsCompressed(r) then |items| else 0x1_0000_0000 - |items|)
              && definitions == old(definitions[..first]) + ArgWords(Bits(archs), r)
    {
      hide Mask, Info, ItemWords;
      ghost var bits, base := Bits(archs), definitions[..first];
      var narg := (|definitions| - first) / 2;
      assert |definitions| == first + 2 * |items|;
      var mask := Mask(Bits(archs), sel, |archs|);
      var i := first;
      while i != |definitions|
        invariant definitions == old(definitions) && first <= i <= |definitions| && (i - first) % 2 == 0
        invariant forall k :: 0 <= k < (i - first) / 2 ==> items[k].sel == sel
        decreases |definitions| - i
      {
        ghost var k := (i - first) / 2;
        ItemWordsAt(bits, items, k);
        assert definitions[i] == definitions[first..][2 * k];
        if definitions[i] != mask {
          assert items[k].sel != sel;
          assert definitions == base + ItemWords(bits, items);
          return (0x1_0000_0000 - narg) % 0x1_0000_0000;
        }
        MaskTells(bits, items[k].sel, sel);
        i := i + 2;
      }
      Compact(first, narg, items);
      n := narg;
    }

    /** Drop every other word from `first` on. */
    method Compact(first: nat, narg: nat, ghost items: seq<Item>)
      requires first <= |definitions| && definitions[first..] == ItemWords(Bits(archs), items) && narg == |items|
      modifies this`definitions
      ensures definitions == old(definitions[..first]) + Infos(items)
    {
      hide Mask, Info, ItemWords;
      ghost var words := definitions;
      var i := 0;
      while i != narg
        invariant 0 <= i <= narg && |definitions| == |words|
        invariant forall k :: 0 <= k < i ==> definitions[first + k] == Info(items[k])
        invariant forall k :: 0 <= k < first || first + i <= k < |words| ==> definitions[k] == words[k]
      {
        ItemWordsAt(Bits(archs), items, i);
        assert words[first + 2 * i + 1] == words[first..][2 * i + 1];
        definitions := definitions[first + i := definitions[first + i * 2 + 1]];
        i := i + 1;
      }
      definitions := definitions[..first + narg];
      assert definitions == words[..first] + Infos(items);
    }

    /** The word behind the last definition. */
    method Terminate()
      requires Valid()
      modifies this`definitions
      ensures definitions == old(definitions) + [0] && AreRecords(archs, entries, definitions, pool, records)
    {
      hide IsLaidOut, IsRecord, EndOf;
      ghost var before := definitions;
      definitions := definitions + [0];
      forall k | 0 <= k < |records| ensures IsLaidOut(definitions, Bits(archs), records[k]) {
        LayoutStays(before, definitions, Bits(archs), records[k]);
      }
    }

    /** Write the definition of a syscall up to its numbers. */
    method WriteDefinition(sel: set<nat>) returns (ok: bool, ghost items: seq<Item>)
      requires IsFamily(archs) && AreCursors(archs, cursors) && forall i :: i in sel ==> IsAlive(archs, cursors, i)
      modifies this`definitions, this`pool
      ensures old(pool) <= pool && (old(AreSized(sel)) ==> ok)
      ensures ok ==>
                && NamesFit(items, |pool|) && |items| <= INT32_MAX
                && AreExplained(items, pool, Sizes(archs), Heads(archs, cursors), sel, MAX_ARGS)
                && var r := Record(|old(definitions)|, sel, items, []);
                   definitions == old(definitions) + Header(Bits(archs), r) + ArgWords(Bits(archs), r)
    {
      hide Mask, Info, ItemWords, AreExplained, NamesFit;
      ghost var bits := Bits(archs);
      definitions := definitions + [Mask(Bits(archs), sel, |archs|), 0];
      var first := |definitions|;
      ok, items := DoArgs(sel);
      if !ok { return; }
      assert definitions[first..] == ItemWords(bits, items);
      assert definitions[..first] == old(definitions) + [Mask(bits, sel, |archs|), 0];
      ExplainedItems(items, pool, Sizes(archs), Heads(archs, cursors), sel);
      ghost var r := Record(|old(definitions)|, sel, items, []);
      var n := CompressArgs(sel, first, items);
      definitions := definitions[first - 1 := n];
      assert definitions == old(definitions) + Header(bits, r) + ArgWords(bits, r);
    }

    /** Store the syscall with the least name, for all architectures that have it. */
    method StoreSyscall(sel: set<nat>, name: seq<byte>) returns (ok: bool)
      requires Valid() && sel != {} && AreLeast(archs, cursors, sel, name)
      modifies this
      ensures ok ==> Valid() && cursors == Advanced(old(cursors), sel)
      ensures old(AreSized(sel)) ==> ok
    {
      hide AreRecords, AreStored, AreSourced, AreInOrder, AreExplained, Numbers, NamesFit, Header, ArgWords;
      ghost var heads := Heads(archs, cursors);
      var off := |definitions|;
      ghost var items;
      ok, items := WriteDefinition(sel);
      if !ok { return; }
      CompleteSyscall(sel);
      ghost var r := Record(off, sel, items, Numbers(heads, sel, |archs|));
      SameWords(Bits(archs), r, Record(off, sel, items, []));
      entries := entries + [Entry(name, off)];
      records := records + [r];
      StepKeeps(archs, old(cursors), old(entries), old(definitions), old(pool), old(records), Entry(name, off), pool,
          r, sel);
    }
  }

  lemma SameWords(bits: seq<nat>, r: Record, r': Record)
    requires r.sel == r'.sel && r.items == r'.items && |r.items| <= INT32_MAX
    ensures Header(bits, r) == Header(bits, r') && ArgWords(bits, r) == ArgWords(bits, r')
  {
    hide Mask, Info, ItemWords;
    assert IsCompressed(r) == IsCompressed(r');
  }

  lemma ExplainedItems(items: seq<Item>, pool: seq<byte>, sizes: seq<nat>, heads: seq<Syscall>, sel: set<nat>)
    requires AreExplained(items, pool, sizes, heads, sel, MAX_ARGS)
    ensures forall k :: 0 <= k < |items| ==> items[k].sel <= sel && IsItem(items[k], sel)
  {
  }

  /** Everything the generator keeps, it keeps when a syscall is stored. */
  lemma StepKeeps(archs: seq<Arch>, cursors: seq<nat>, entries: seq<Entry>, defs: seq<nat>, pool: seq<byte>,
                  records: seq<Record>, e: Entry, pool': seq<byte>, r: Record, sel: set<nat>)
    requires IsFamily(archs) && AreCursors(archs, cursors)
    requires AreRecords(archs, entries, defs, pool, records) && IsEnd(records, |defs|)
    requires AreStored(archs, cursors, entries, pool, records) && AreSourced(archs, cursors, entries, pool, records)
    requires AreInOrder(archs, cursors, entries)
    requires sel != {} && AreLeast(archs, cursors, sel, e.name) && pool <= pool' && e.offset == |defs|
    requires r == Record(|defs|, sel, r.items, Numbers(Heads(archs, cursors), sel, |archs|))
    requires AreExplained(r.items, pool', Sizes(archs), Heads(archs, cursors), sel, MAX_ARGS)
    requires |r.items| <= INT32_MAX && NamesFit(r.items, |pool'|)
    ensures var bits := Bits(archs);
            var defs' := defs + Header(bits, r) + ArgWords(bits, r) + r.numbers;
            var cursors' := Advanced(cursors, sel);
            && AreCursors(archs, cursors')
            && AreRecords(archs, entries + [e], defs', pool', records + [r]) && IsEnd(records + [r], |defs'|)
            && AreStored(archs, cursors', entries + [e], pool', records + [r])
            && AreSourced(archs, cursors', entries + [e], pool', records + [r])
            && AreInOrder(archs, cursors', entries + [e])
  {
    ExplainedItems(r.items, pool', Sizes(archs), Heads(archs, cursors), sel);
    assert |entries| == |records|;
    hide Mask, Info, ItemWords, AreRecords, AreStored, AreSourced, AreInOrder, AreExplained, IsLaidOut, Numbers,
         NamesFit, Describes, Header, ArgWords, EndOf;
    WrittenIsLaidOut(defs, Bits(archs), r);
    var defs' := defs + Header(Bits(archs), r) + ArgWords(Bits(archs), r) + r.numbers;
    RecordIsAdded(archs, entries, defs, pool, records, e, defs', pool', r);
    forall i | i in sel ensures Describes(r, pool', i, Sizes(archs)[i], Heads(archs, cursors)[i]) {
      HeadIsDescribed(|defs|, r.items, pool', Sizes(archs), Heads(archs, cursors), sel, i);
    }
    StoredAdvances(archs, cursors, entries, pool, records, e, pool', r, sel);
    SourcedAdvances(archs, cursors, entries, pool, records, e, pool', r, sel);
    OrderAdvances(archs, cursors, entries, e, sel);
  }

  // ----- the whole database -----

  function Full(archs: seq<Arch>): (cursors: seq<nat>) {
    seq(|archs|, i requires 0 <= i < |archs| => |archs[i].list|)
  }

  /** A finished database: all syscalls of all lists and no others, a word of zeros at the end, and
      names that fit their field. */
  ghost predicate IsDatabase(archs: seq<Arch>, entries: seq<Entry>, defs: seq<nat>, pool: seq<byte>,
                             records: seq<Record>) {
    && IsFamily(archs) && AreRecords(archs, entries, defs, pool, records)
    && AreStored(archs, Full(archs), entries, pool, records) && AreSourced(archs, Full(archs), entries, pool, records)
    && AreInOrder(archs, Full(archs), entries)
    && defs != [] && defs[|defs| - 1] == 0 && IsEnd(records, |defs| - 1) && |pool| <= MAX_ARGNAME
  }

  /** How many syscalls are still to be stored. */
  function Remaining(archs: seq<Arch>, cursors: seq<nat>, n: nat): (r: nat)
    requires AreCursors(archs, cursors) && n <= |archs|
  {
    if n == 0 then 0 else Remaining(archs, cursors, n - 1) + (|archs[n - 1].list| - cursors[n - 1])
  }

  lemma {:induction false} RemainingShrinks(archs: seq<Arch>, cursors: seq<nat>, sel: set<nat>, n: nat)
    requires AreCursors(archs, cursors) && n <= |archs| && forall i :: i in sel ==> IsAlive(archs, cursors, i)
    ensures AreCursors(archs, Advanced(cursors, sel))
    ensures Remaining(archs, Advanced(cursors, sel), n) <= Remaining(archs, cursors, n)
    ensures (exists i :: i in sel && i < n) ==>
              Remaining(archs, Advanced(cursors, sel), n) < Remaining(archs, cursors, n)
    decreases n
  {
    if n > 0 {
      RemainingShrinks(archs, cursors, sel, n - 1);
      if i :| i in sel && i < n {
        if i < n - 1 {
          assert exists j :: j in sel && j < n - 1;
        }
      }
    }
  }

  /** Merge and pack all lists. It fails on an argument whose size cannot be coded, and on more
      names than their field can tell apart. */
  method Generate(archs: seq<Arch>) returns (ok: bool, g: Generator)
    requires IsFamily(archs)
    ensures fresh(g)
    ensures ok ==> g.archs == archs && IsDatabase(archs, g.entries, g.definitions, g.pool, g.records)
    ensures (forall i, j :: 0 <= i < |archs| && 0 <= j < |archs[i].list| ==> IsSized(archs[i].list[j])) ==>
              (ok <==> |g.pool| <= MAX_ARGNAME)
  {
    hide AreRecords, AreStored, AreSourced, AreInOrder, Remaining, IsFamily, IsSized;
    g := new Generator(archs);
    var sel, name := g.BeginSyscall();
    while sel != {}
      invariant fresh(g) && g.archs == archs && g.Valid() && AreLeast(archs, g.cursors, sel, name)
      invariant sel == {} ==> forall i :: 0 <= i < |archs| ==> g.cursors[i] == |archs[i].list|
      decreases Remaining(archs, g.cursors, |archs|)
    {
      var some :| some in sel;
      RemainingShrinks(archs, g.cursors, sel, |archs|);
      ok := g.StoreSyscall(sel, name);
      if !ok { return; }
      sel, name := g.BeginSyscall();
    }
    assert g.cursors == Full(archs);
    g.Terminate();
    ok := |g.pool| <= MAX_ARGNAME;
  }
}
