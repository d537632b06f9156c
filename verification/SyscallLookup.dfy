/**
  Using the syscall database: a name and an architecture give the syscall that was packed, and
  a number and an architecture give its name.
 */
module SyscallLookup {
  import opened Options
  import opened Utf8
  import opened Words
  import opened Masks
  import opened SyscallDb
  import opened Packing
  import opened SyscallGenerator
  import opened SyscallTable

  // ----- by name -----

  /** The slot with a name, or the number of slots. */
  method FindEntry(table: seq<Row>, name: seq<byte>) returns (e: nat)
    ensures e <= |table| && (e < |table| ==> table[e].name == Some(name))
    ensures e == |table| ==> forall f :: 0 <= f < |table| ==> table[f].name != Some(name)
  {
    e := 0;
    while e < |table| && table[e].name != Some(name)
      invariant e <= |table| && forall f :: 0 <= f < e ==> table[f].name != Some(name)
    {
      e := e + 1;
    }
  }

  /** What a slot with a name is the entry of. */
  lemma NamedIsEntry(table: seq<Row>, entries: seq<Entry>, e: nat) returns (k: nat)
    requires IsTable(table, entries) && e < |table| && table[e].name.Some?
    ensures k < |entries| && table[e] == RowOf(entries[k])
  {
    assert IsRow(table[e], entries);
    k :| 0 <= k < |entries| && table[e] == RowOf(entries[k]);
  }

  lemma UnnamedIsAbsent(table: seq<Row>, entries: seq<Entry>, name: seq<byte>)
    requires IsTable(table, entries) && forall f :: 0 <= f < |table| ==> table[f].name != Some(name)
    ensures forall k :: 0 <= k < |entries| ==> entries[k].name != name
  {
    forall k | 0 <= k < |entries| ensures entries[k].name != name {
      assert RowOf(entries[k]) in table;
    }
  }

  /** Look a syscall up by name for one architecture. It is found exactly when it is in that
      architecture's list, and what is found is what the list has. */
  method Lookup(table: seq<Row>, defs: seq<nat>, pointerSizes: seq<nat>, flag: nat, name: seq<byte>,
                dest: array<Slot>, ghost lists: seq<Arch>, ghost archs: seq<Arch>, ghost entries: seq<Entry>,
                ghost pool: seq<byte>, ghost records: seq<Record>, ghost i: nat)
    returns (nr: Option<nat>)
    requires IsDatabase(archs, entries, defs, pool, records) && IsTable(table, entries)
    requires forall k :: 0 <= k < |entries| && entries[k].name == name ==> entries[k].offset <= UINT16_MAX
    requires |lists| == |archs| && pointerSizes == PointerSizes(Bits(archs), Sizes(lists))
    requires i < |archs| && lists[i].pointerSize == archs[i].pointerSize
    requires flag == Pow2(archs[i].bit) && dest.Length == MAX_ARGS
    modifies dest
    ensures nr.Some? <==> exists j :: 0 <= j < |archs[i].list| && archs[i].list[j].name == name
    ensures forall j :: 0 <= j < |archs[i].list| && archs[i].list[j].name == name ==>
              && nr == Some(archs[i].list[j].nr) && |archs[i].list[j].args| == MAX_ARGS
              && forall a :: 0 <= a < MAX_ARGS ==> Shows(pool, dest[a], archs[i].list[j].args[a])
  {
    hide AreStored, AreSourced, AreInOrder, IsStoredAt, Mask, Pow2, BitAnd, IsLaidOut, IsRecord, Describes, IsTable,
         PointerSizes;
    var e := FindEntry(table, name);
    if e == |table| {
      UnnamedIsAbsent(table, entries, name);
      NameIsAbsent(archs, entries, defs, pool, records, i, name, |entries|);
      return None;
    }
    ghost var k := NamedIsEntry(table, entries, e);
    var off := table[e].offset;
    RecordMask(archs, entries, defs, pool, records, k);
    FlagTests(Bits(archs), records[k].sel, i);
    if BitAnd(flag, defs[off]) == 0 {
      NameIsAbsent(archs, entries, defs, pool, records, i, name, k);
      return None;
    }
    ghost var j := SourceOf(archs, entries, defs, pool, records, k, i);
    SizeIsRead(lists, archs, i);
    var n := Unpack(defs, pointerSizes, off, flag, dest, Bits(archs), records[k], pool, i, archs[i].list[j]);
    OnlyOne(archs, i, j);
    nr := Some(n);
  }

  lemma SizeIsRead(lists: seq<Arch>, archs: seq<Arch>, i: nat)
    requires IsFamily(archs) && |lists| == |archs| && i < |archs|
    ensures PointerSizes(Bits(archs), Sizes(lists))[archs[i].bit] == lists[i].pointerSize
  {
    SizeIsFound(Bits(archs), Sizes(lists), i);
  }

  lemma NameIsAbsent(archs: seq<Arch>, entries: seq<Entry>, defs: seq<nat>, pool: seq<byte>, records: seq<Record>,
                     i: nat, name: seq<byte>, k: nat)
    requires IsDatabase(archs, entries, defs, pool, records) && i < |archs| && k <= |entries|
    requires k == |entries| ==> forall l :: 0 <= l < |entries| ==> entries[l].name != name
    requires k < |entries| ==> entries[k].name == name && i !in records[k].sel
    ensures forall j :: 0 <= j < |archs[i].list| ==> archs[i].list[j].name != name
  {
    forall j | 0 <= j < |archs[i].list| ensures archs[i].list[j].name != name {
      EntryIsForArch(archs, entries, defs, pool, records, i, j);
      var l :| 0 <= l < |entries| && IsStoredAt(archs, entries, pool, records, i, j, l) && i in records[l].sel;
      if entries[l].name == name && k < |entries| {
        NameIsUnique(archs, entries, k, l);
      }
    }
  }

  lemma OnlyOne(archs: seq<Arch>, i: nat, j: nat)
    requires IsFamily(archs) && i < |archs| && j < |archs[i].list|
    ensures forall l :: 0 <= l < |archs[i].list| && archs[i].list[l].name == archs[i].list[j].name ==> l == j
    ensures |archs[i].list[j].args| == MAX_ARGS
  {
    assert IsList(archs[i].list) && IsSyscall(archs[i].list[j]);
    CompareEqual(archs[i].list[j].name, archs[i].list[j].name);
  }

  // ----- by number -----

  lemma MaskIsNonzero(bits: seq<nat>, sel: set<nat>)
    requires Ascending(bits) && sel != {} && forall i :: i in sel ==> i < |bits|
    ensures Mask(bits, sel, |bits|) > 0
  {
    hide Mask, Popcount, Count;
    var i :| i in sel;
    PopcountOfMask(bits, sel, |bits|);
    CountGrows(sel, i, |bits|);
    PopcountOfZero();
  }

  lemma PopcountOfZero()
    ensures Popcount(0) == 0
  {
  }

  /** The next definition starts where this one ends. */
  lemma NextIsEnd(defs: seq<nat>, bits: seq<nat>, r: Record)
    requires Ascending(bits) && IsRecord(r, |bits|) && IsLaidOut(defs, bits, r)
    ensures r.offset + 1 < |defs| && defs[r.offset + 1] < 0x1_0000_0000
    ensures defs[r.offset] > 0 && NrAt(defs, r.offset) + Popcount(defs[r.offset]) == EndOf(r)
  {
    hide Mask, Popcount, Count;
    NrAtIsNumbersAt(defs, bits, r);
    MaskIsNonzero(bits, r.sel);
    PopcountOfMask(bits, r.sel, |bits|);
  }

  /** Where definition `k` starts, or where the terminator is. */
  ghost function StartOf(records: seq<Record>, k: nat, end: nat): nat
    requires k <= |records|
  {
    if k < |records| then records[k].offset else end
  }

  lemma StartsFollow(archs: seq<Arch>, entries: seq<Entry>, defs: seq<nat>, pool: seq<byte>, records: seq<Record>,
                     k: nat)
    requires IsDatabase(archs, entries, defs, pool, records) && k < |records|
    ensures StartOf(records, 0, |defs| - 1) == 0
    ensures StartOf(records, k + 1, |defs| - 1) == EndOf(records[k])
  {
    hide EndOf;
  }

  /** This number is read from the definition at `off` for a flag. */
  predicate IsNumberAt(defs: seq<nat>, off: nat, flag: nat, nr: nat) {
    && off + 1 < |defs| && defs[off + 1] < 0x1_0000_0000
    && var at := NrAt(defs, off) + RankAt(defs[off], flag); 0 <= at < |defs| && defs[at] == nr
  }

  /** The number of an architecture's syscall in a definition. */
  lemma NumberIsRead(archs: seq<Arch>, entries: seq<Entry>, defs: seq<nat>, pool: seq<byte>, records: seq<Record>,
                     k: nat, i: nat, j: nat)
    requires IsDatabase(archs, entries, defs, pool, records) && k < |records| && i < |archs| && i in records[k].sel
    requires j < |archs[i].list| && Describes(records[k], pool, i, archs[i].pointerSize, archs[i].list[j])
    ensures IsNumberAt(defs, records[k].offset, Pow2(archs[i].bit), archs[i].list[j].nr)
  {
    hide Mask, Popcount, Count, BitAnd, Pow2, RankAt, AreStored, AreSourced, AreInOrder;
    RecordMask(archs, entries, defs, pool, records, k);
    NrAtIsNumbersAt(defs, Bits(archs), records[k]);
    RankFits(Bits(archs), records[k].sel, i);
    DescribesNumber(records[k], pool, i, archs[i].pointerSize, archs[i].list[j]);
  }

  /** Scan the table for an offset that it has. */
  method EntryAt(table: seq<Row>, off: nat, ghost f: nat) returns (e: nat)
    requires StopsAt(table, off, f)
    ensures e == f
  {
    e := 0;
    while table[e].offset != off
      invariant e <= f
      decreases f - e
    {
      e := e + 1;
    }
  }

  /** What is stored under an entry for an architecture is one syscall, or none. */
  lemma StoredIsSource(archs: seq<Arch>, entries: seq<Entry>, pool: seq<byte>, records: seq<Record>, k: nat, i: nat,
                       j: nat)
    requires IsFamily(archs) && k < |records| && i < |archs|
    requires i in records[k].sel ==> j < |archs[i].list| && k < |entries| && archs[i].list[j].name == entries[k].name
    ensures forall l :: 0 <= l < |archs[i].list| && IsStoredAt(archs, entries, pool, records, i, l, k) ==>
              i in records[k].sel && l == j
  {
    hide IsFamily;
    if i in records[k].sel {
      OnlyOne(archs, i, j);
    }
  }

  /** The first syscall in a list that has the number. */
  predicate IsFirst(list: seq<Syscall>, nr: nat, j: nat) {
    j < |list| && list[j].nr == nr && forall l :: 0 <= l < j ==> list[l].nr != nr
  }

  /** If no definition before the `k`-th has the number, no syscall before that of the `k`-th has. */
  lemma DefinitionIsFirst(archs: seq<Arch>, entries: seq<Entry>, defs: seq<nat>, pool: seq<byte>, records: seq<Record>,
                          k: nat, i: nat, j: nat, nr: nat)
    requires IsDatabase(archs, entries, defs, pool, records) && k < |entries| && i < |archs| && j < |archs[i].list|
    requires archs[i].list[j].name == entries[k].name && archs[i].list[j].nr == nr
    requires forall l, m ::
               0 <= l < k && 0 <= m < |archs[i].list| && IsStoredAt(archs, entries, pool, records, i, m, l) ==>
               archs[i].list[m].nr != nr
    ensures IsFirst(archs[i].list, nr, j)
  {
    hide AreStored, AreSourced, IsLaidOut, IsRecord, Describes;
    forall m | 0 <= m < j ensures archs[i].list[m].nr != nr {
      EntryIsForArch(archs, entries, defs, pool, records, i, m);
      var l :| 0 <= l < |entries| && IsStoredAt(archs, entries, pool, records, i, m, l) && i in records[l].sel;
      ListIsInOrder(archs, i, m, j);
      CompareTurns(entries[l].name, entries[k].name);
      CompareEqual(entries[k].name, entries[k].name);
    }
  }

  lemma ListIsInOrder(archs: seq<Arch>, i: nat, m: nat, j: nat)
    requires IsFamily(archs) && i < |archs| && m < j < |archs[i].list|
    ensures Compare(archs[i].list[m].name, archs[i].list[j].name) < 0
  {
    assert IsList(archs[i].list);
  }

  /** The name is that of a syscall with the number. */
  predicate HasNumber(list: seq<Syscall>, name: seq<byte>, nr: nat) {
    exists j :: 0 <= j < |list| && list[j].name == name && list[j].nr == nr
  }

  lemma FoundAt(table: seq<Row>, entries: seq<Entry>, k: nat) returns (e: nat)
    requires IsTable(table, entries) && k < |entries| && IsTold(entries, k)
    ensures StopsAt(table, entries[k].offset, e) && table[e].name == Some(entries[k].name)
  {
    ToldIsFound(table, entries, k);
    e :| StopsAt(table, entries[k].offset, e) && table[e] == RowOf(entries[k]);
  }

  /** Find the name of a number: that of the first syscall of the architecture that has it, if there
      is one. */
  method ReverseLookup(table: seq<Row>, defs: seq<nat>, flag: nat, nr: nat, ghost archs: seq<Arch>,
                       ghost entries: seq<Entry>, ghost pool: seq<byte>, ghost records: seq<Record>, ghost i: nat)
    returns (name: Option<seq<byte>>)
    requires IsDatabase(archs, entries, defs, pool, records) && i < |archs| && flag == Pow2(archs[i].bit)
    requires IsTable(table, entries)
    requires forall k :: 0 <= k < |entries| && HasNumber(archs[i].list, entries[k].name, nr) ==> IsTold(entries, k)
    ensures name.None? ==> forall j :: 0 <= j < |archs[i].list| ==> archs[i].list[j].nr != nr
    ensures name.Some? ==> exists j: nat :: IsFirst(archs[i].list, nr, j) && archs[i].list[j].name == name.value
  {
    hide AreStored, AreSourced, AreInOrder, IsStoredAt, Mask, Pow2, BitAnd, IsLaidOut, IsRecord, Describes, Popcount,
         NrAt, RankAt, EndOf, IsTable, IsTold, StopsAt;
    ghost var k := 0;
    var off := 0;
    StartIsZero(archs, entries, defs, pool, records);
    hide IsEnd;
    while defs[off] != 0
      invariant k <= |records| && off < |defs| && off == StartOf(records, k, |defs| - 1)
      invariant forall l, j ::
                  0 <= l < k && 0 <= j < |archs[i].list| && IsStoredAt(archs, entries, pool, records, i, j, l) ==>
                  archs[i].list[j].nr != nr
      decreases |defs| - off
    {
      RecordMask(archs, entries, defs, pool, records, k);
      NextIsEnd(defs, Bits(archs), records[k]);
      StartsFollow(archs, entries, defs, pool, records, k);
      EndIsInside(archs, entries, defs, pool, records, k);
      FlagTests(Bits(archs), records[k].sel, i);
      ghost var j := 0;
      if BitAnd(flag, defs[off]) != 0 {
        j := SourceOf(archs, entries, defs, pool, records, k, i);
        NumberIsRead(archs, entries, defs, pool, records, k, i, j);
        if defs[NrAt(defs, off) + RankAt(defs[off], flag)] == nr {
          assert HasNumber(archs[i].list, entries[k].name, nr);
          ghost var f := FoundAt(table, entries, k);
          var e := EntryAt(table, off, f);
          DefinitionIsFirst(archs, entries, defs, pool, records, k, i, j, nr);
          return table[e].name;
        }
      }
      StoredIsSource(archs, entries, pool, records, k, i, j);
      off := NrAt(defs, off) + Popcount(defs[off]);
      k := k + 1;
    }
    name := None;
    if k < |records| {
      RecordMask(archs, entries, defs, pool, records, k);
      NextIsEnd(defs, Bits(archs), records[k]);
      assert false;
    }
    forall j | 0 <= j < |archs[i].list| ensures archs[i].list[j].nr != nr {
      EntryIsForArch(archs, entries, defs, pool, records, i, j);
    }
  }

  lemma StartIsZero(archs: seq<Arch>, entries: seq<Entry>, defs: seq<nat>, pool: seq<byte>, records: seq<Record>)
    requires IsDatabase(archs, entries, defs, pool, records)
    ensures StartOf(records, 0, |defs| - 1) == 0 && |entries| == |records|
  {
  }

  lemma EndIsInside(archs: seq<Arch>, entries: seq<Entry>, defs: seq<nat>, pool: seq<byte>, records: seq<Record>,
                    k: nat)
    requires IsDatabase(archs, entries, defs, pool, records) && k < |records|
    ensures records[k].offset < EndOf(records[k]) < |defs|
  {
    hide AreStored, AreSourced, AreInOrder, IsLaidOut, IsCompressed;
    if k + 1 < |records| {
      RecordMask(archs, entries, defs, pool, records, k + 1);
    }
  }
}
