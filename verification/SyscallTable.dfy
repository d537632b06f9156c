/**
  The database as it is compiled into a program: a hash table of entries with empty slots, whose
  offsets have 16 bits, and a table of pointer sizes. It says what was packed as long as the
  offsets fit; when they do is told from the number of names.
 */
module SyscallTable {
  import opened FiniteSets
  import opened Options
  import opened Utf8
  import opened Masks
  import opened SyscallDb
  import opened Packing
  import opened SyscallGenerator

  // ----- pointer sizes -----

  /** The sizes by bit: the flags of the architectures in ascending order, each with the size at its
      place among the lists as they were declared. */
  function PointerSizes(bits: seq<nat>, declared: seq<nat>): (sizes: seq<nat>)
    requires |bits| == |declared|
    ensures |sizes| == 32
  {
    seq(32, b requires 0 <= b < 32 => SizeOfBit(bits, declared, b))
  }

  function SizeOfBit(bits: seq<nat>, declared: seq<nat>, b: nat): (size: nat)
    requires |bits| == |declared|
  {
    var n := |bits| - 1;
    if n < 0 then 0 else if bits[n] == b then declared[n] else SizeOfBit(bits[..n], declared[..n], b)
  }

  lemma {:induction false} SizeIsFound(bits: seq<nat>, declared: seq<nat>, i: nat)
    requires i < |bits| == |declared| && Ascending(bits)
    ensures SizeOfBit(bits, declared, bits[i]) == declared[i]
    decreases |bits|
  {
    var n := |bits| - 1;
    if i < n {
      SizeIsFound(bits[..n], declared[..n], i);
    }
  }

  /** The table has the size of every architecture if and only if the lists were declared with their
      sizes in the order of the flags, as they are when declared in that order themselves. */
  lemma SizesAreRightIff(lists: seq<Arch>, archs: seq<Arch>)
    requires IsFamily(archs) && multiset(lists) == multiset(archs)
    ensures |lists| == |archs|
    ensures (forall i :: 0 <= i < |archs| ==>
               PointerSizes(Bits(archs), Sizes(lists))[archs[i].bit] == archs[i].pointerSize) <==>
            Sizes(lists) == Sizes(archs)
    ensures Ascending(Bits(lists)) ==> lists == archs
  {
    assert |multiset(lists)| == |lists| && |multiset(archs)| == |archs|;
    forall i | 0 <= i < |archs|
      ensures PointerSizes(Bits(archs), Sizes(lists))[archs[i].bit] == Sizes(lists)[i]
    {
      SizeIsFound(Bits(archs), Sizes(lists), i);
    }
    if Ascending(Bits(lists)) {
      OrderIsOne(lists, archs);
    }
  }

  lemma {:induction false} OrderIsOne(a: seq<Arch>, b: seq<Arch>)
    requires Ascending(Bits(a)) && Ascending(Bits(b)) && multiset(a) == multiset(b)
    ensures a == b
    decreases |a|
  {
    hide Ascending, Bits;
    assert |multiset(a)| == |a| && |multiset(b)| == |b|;
    var n := |a| - 1;
    if n >= 0 {
      SameLast(a, b);
      WithoutLast(a);
      WithoutLast(b);
      OrderIsOne(a[..n], b[..n]);
      assert a == a[..n] + [a[n]] && b == b[..n] + [b[n]];
    }
  }

  lemma WithoutLast(a: seq<Arch>)
    requires Ascending(Bits(a)) && a != []
    ensures var n := |a| - 1; Ascending(Bits(a[..n])) && multiset(a[..n]) == multiset(a) - multiset{a[n]}
  {
    var n := |a| - 1;
    assert Bits(a[..n]) == Bits(a)[..n];
    assert a == a[..n] + [a[n]];
  }

  lemma SameLast(a: seq<Arch>, b: seq<Arch>)
    requires Ascending(Bits(a)) && Ascending(Bits(b)) && multiset(a) == multiset(b) && |a| == |b| > 0
    ensures a[|a| - 1] == b[|a| - 1]
  {
    var n := |a| - 1;
    assert a[n] in multiset(b) && b[n] in multiset(a);
    var i :| 0 <= i <= n && b[i] == a[n];
    var j :| 0 <= j <= n && a[j] == b[n];
    assert Bits(b)[i] == a[n].bit && Bits(a)[j] == b[n].bit && Bits(a)[n] == a[n].bit && Bits(b)[n] == b[n].bit;
  }

  // ----- the table of entries -----

  const UINT16_MAX: nat := 0xFFFF

  /** A slot of the table: an entry, or nothing. */
  datatype Row = Row(name: Option<seq<byte>>, offset: nat)

  /** An empty slot. Its offset is -1 in 16 bits. */
  const EMPTY_ROW: Row := Row(None, UINT16_MAX)

  /** An entry in the table: the field for the offset has 16 bits. */
  function RowOf(e: Entry): (row: Row) { Row(Some(e.name), e.offset % (UINT16_MAX + 1)) }

  /** The table has every entry once, in any order, and is empty elsewhere. */
  ghost predicate IsTable(table: seq<Row>, entries: seq<Entry>) {
    && (forall e :: 0 <= e < |table| ==> table[e] == EMPTY_ROW || IsRow(table[e], entries))
    && (forall k :: 0 <= k < |entries| ==> RowOf(entries[k]) in table)
    && (forall e, f :: 0 <= e < f < |table| && table[e] == table[f] ==> table[e] == EMPTY_ROW)
  }

  ghost predicate IsRow(row: Row, entries: seq<Entry>) {
    exists k :: 0 <= k < |entries| && row == RowOf(entries[k])
  }

  /** All definitions start below `n`. */
  predicate AreBelow(entries: seq<Entry>, n: nat) {
    forall k :: 0 <= k < |entries| ==> entries[k].offset < n
  }

  /** The scan for an offset stops at slot `e`. */
  predicate StopsAt(table: seq<Row>, off: nat, e: nat) {
    e < |table| && table[e].offset == off && forall f :: 0 <= f < e ==> table[f].offset != off
  }

  /** The scan for the offset of the `k`-th definition stops at its own entry. */
  ghost predicate IsFound(table: seq<Row>, entries: seq<Entry>, k: nat)
    requires k < |entries|
  {
    exists e: nat :: StopsAt(table, entries[k].offset, e) && table[e] == RowOf(entries[k])
  }

  /** The offset of the `k`-th definition is told from an empty slot and from all other offsets. */
  predicate IsTold(entries: seq<Entry>, k: nat)
    requires k < |entries|
  {
    && entries[k].offset < UINT16_MAX
    && forall l :: 0 <= l < |entries| && l != k ==> RowOf(entries[l]).offset != entries[k].offset
  }

  lemma FirstStop(table: seq<Row>, off: nat, e: nat) returns (f: nat)
    requires e < |table| && table[e].offset == off
    ensures StopsAt(table, off, f)
  {
    f := 0;
    while table[f].offset != off
      invariant f <= e && forall d :: 0 <= d < f ==> table[d].offset != off
      decreases e - f
    {
      f := f + 1;
    }
  }

  lemma ToldIsFound(table: seq<Row>, entries: seq<Entry>, k: nat)
    requires IsTable(table, entries) && k < |entries| && IsTold(entries, k)
    ensures IsFound(table, entries, k)
  {
    assert RowOf(entries[k]) in table;
    var e :| 0 <= e < |table| && table[e] == RowOf(entries[k]);
    var f := FirstStop(table, entries[k].offset, e);
    assert IsRow(table[f], entries);
    var l :| 0 <= l < |entries| && table[f] == RowOf(entries[l]);
    assert l == k;
  }

  ghost predicate HasNames(entries: seq<Entry>) {
    forall k, l :: 0 <= k < l < |entries| ==> entries[k].name != entries[l].name
  }

  /** The entries with the `l`-th in front, behind some empty slots. */
  function Rows(entries: seq<Entry>, l: nat, empty: nat): (table: seq<Row>)
    requires l < |entries|
    ensures |table| == empty + |entries|
    ensures forall e :: 0 <= e < |table| ==>
              table[e] == if e < empty then EMPTY_ROW else RowOf(entries[PlaceOf(l, e - empty)])
  {
    seq(empty + |entries|, e requires 0 <= e < empty + |entries| =>
      if e < empty then EMPTY_ROW else RowOf(entries[PlaceOf(l, e - empty)]))
  }

  function PlaceOf(l: nat, e: nat): (k: nat) { if e == 0 then l else if e <= l then e - 1 else e }

  lemma RowsAreTable(entries: seq<Entry>, l: nat, empty: nat)
    requires HasNames(entries) && l < |entries|
    ensures IsTable(Rows(entries, l, empty), entries)
  {
    var table := Rows(entries, l, empty);
    forall k | 0 <= k < |entries| ensures RowOf(entries[k]) in table {
      var e := if k == l then 0 else if k < l then k + 1 else k;
      assert PlaceOf(l, e) == k && table[empty + e] == RowOf(entries[k]);
    }
    forall e | 0 <= e < |table| ensures table[e] == EMPTY_ROW || IsRow(table[e], entries) {
      if e >= empty {
        assert table[e] == RowOf(entries[PlaceOf(l, e - empty)]);
      }
    }
    forall e, f | empty <= e < f < |table| ensures table[e] != table[f] {
      assert PlaceOf(l, e - empty) != PlaceOf(l, f - empty);
    }
  }

  /** A table in which an offset that is not told leads astray. */
  lemma UntoldIsMissed(entries: seq<Entry>, k: nat) returns (table: seq<Row>)
    requires HasNames(entries) && k < |entries| && !IsTold(entries, k)
    ensures IsTable(table, entries) && !IsFound(table, entries, k)
  {
    if entries[k].offset == UINT16_MAX {
      RowsAreTable(entries, k, 1);
      table := Rows(entries, k, 1);
      assert table[0] == EMPTY_ROW;
    } else if entries[k].offset > UINT16_MAX {
      RowsAreTable(entries, k, 0);
      table := Rows(entries, k, 0);
    } else {
      var l :| 0 <= l < |entries| && l != k && RowOf(entries[l]).offset == entries[k].offset;
      RowsAreTable(entries, l, 0);
      table := Rows(entries, l, 0);
      assert table[0] == RowOf(entries[PlaceOf(l, 0)]) == RowOf(entries[l]);
    }
  }

  // ----- entries of a database -----

  lemma NameIsUnique(archs: seq<Arch>, entries: seq<Entry>, k: nat, l: nat)
    requires AreInOrder(archs, Full(archs), entries) && k < |entries| && l < |entries| &&
             entries[k].name == entries[l].name
    ensures k == l
  {
    CompareEqual(entries[k].name, entries[k].name);
  }

  lemma NamesDiffer(archs: seq<Arch>, entries: seq<Entry>)
    requires AreCursors(archs, Full(archs)) && AreInOrder(archs, Full(archs), entries)
    ensures HasNames(entries)
  {
    forall k, l | 0 <= k < l < |entries| ensures entries[k].name != entries[l].name {
      CompareEqual(entries[k].name, entries[l].name);
    }
  }

  lemma RecordMask(archs: seq<Arch>, entries: seq<Entry>, defs: seq<nat>, pool: seq<byte>, records: seq<Record>, k: nat)
    requires IsDatabase(archs, entries, defs, pool, records) && k < |entries|
    ensures |entries| == |records| && entries[k].offset == records[k].offset && records[k].offset < |defs|
    ensures defs[records[k].offset] == Mask(Bits(archs), records[k].sel, |archs|)
    ensures IsRecord(records[k], |archs|) && IsLaidOut(defs, Bits(archs), records[k])
    ensures forall l :: 0 <= l < |records[k].items| ==> records[k].items[l].name <= MAX_ARGNAME
  {
  }

  /** An entry with the name of a syscall of an architecture is for that architecture. */
  lemma EntryIsForArch(archs: seq<Arch>, entries: seq<Entry>, defs: seq<nat>, pool: seq<byte>, records: seq<Record>,
                       i: nat, j: nat)
    requires IsDatabase(archs, entries, defs, pool, records) && i < |archs| && j < |archs[i].list|
    ensures exists k :: 0 <= k < |entries| && IsStoredAt(archs, entries, pool, records, i, j, k) && i in records[k].sel
  {
    assert IsStored(archs, entries, pool, records, i, j);
    var k :| 0 <= k < |entries| && IsStoredAt(archs, entries, pool, records, i, j, k);
    DescribesArch(records[k], pool, i, archs[i].pointerSize, archs[i].list[j]);
  }

  lemma SourceOf(archs: seq<Arch>, entries: seq<Entry>, defs: seq<nat>, pool: seq<byte>, records: seq<Record>, k: nat,
                 i: nat)
    returns (j: nat)
    requires IsDatabase(archs, entries, defs, pool, records) && k < |records| && i in records[k].sel && i < |archs|
    ensures j < |archs[i].list| && k < |entries| && archs[i].list[j].name == entries[k].name
    ensures Describes(records[k], pool, i, archs[i].pointerSize, archs[i].list[j])
  {
    assert IsSourced(archs, Full(archs), entries, pool, records, k, i);
    j :| 0 <= j < Full(archs)[i] && IsStoredAt(archs, entries, pool, records, i, j, k);
  }

  lemma {:induction false} OffsetsGrow(archs: seq<Arch>, entries: seq<Entry>, defs: seq<nat>, pool: seq<byte>,
                                       records: seq<Record>, a: nat, b: nat)
    requires IsDatabase(archs, entries, defs, pool, records) && a < b < |records|
    ensures records[a].offset < records[b].offset
    decreases b
  {
    hide AreStored, AreSourced, AreInOrder, IsLaidOut;
    if a < b - 1 {
      OffsetsGrow(archs, entries, defs, pool, records, a, b - 1);
    }
    assert records[b].offset == EndOf(records[b - 1]) > records[b - 1].offset;
  }

  lemma OffsetIsUnique(archs: seq<Arch>, entries: seq<Entry>, defs: seq<nat>, pool: seq<byte>, records: seq<Record>,
                       a: nat, b: nat)
    requires IsDatabase(archs, entries, defs, pool, records) && a < |entries| && b < |entries| &&
             entries[a].offset == entries[b].offset
    ensures a == b
  {
    hide AreStored, AreSourced, AreInOrder, IsLaidOut, IsEnd;
    if a < b {
      OffsetsGrow(archs, entries, defs, pool, records, a, b);
    } else if b < a {
      OffsetsGrow(archs, entries, defs, pool, records, b, a);
    }
  }

  /** Whatever order the table has and wherever its empty slots are, the scan for the offset of a
      definition stops at its own entry, if and only if that offset is below 0xFFFF and no other is
      the same in 16 bits. */
  lemma OffsetIsFoundIff(archs: seq<Arch>, entries: seq<Entry>, defs: seq<nat>, pool: seq<byte>, records: seq<Record>,
                         k: nat)
    requires IsDatabase(archs, entries, defs, pool, records) && k < |entries|
    ensures IsTold(entries, k) <==> forall table :: IsTable(table, entries) ==> IsFound(table, entries, k)
  {
    hide AreStored, AreSourced, AreInOrder, AreRecords, IsTold, IsFound, IsTable;
    NamesDiffer(archs, entries);
    if IsTold(entries, k) {
      forall table | IsTable(table, entries) ensures IsFound(table, entries, k) {
        ToldIsFound(table, entries, k);
      }
    } else {
      var table := UntoldIsMissed(entries, k);
      assert !IsFound(table, entries, k);
    }
  }

  /** All definitions start below any number that the last one starts below. */
  lemma LastTells(archs: seq<Arch>, entries: seq<Entry>, defs: seq<nat>, pool: seq<byte>, records: seq<Record>, n: nat)
    requires IsDatabase(archs, entries, defs, pool, records)
    ensures |entries| == |records|
    ensures AreBelow(entries, n) <==> records == [] || records[|records| - 1].offset < n
  {
    hide AreStored, AreSourced, AreInOrder, IsLaidOut, IsRecord, EndOf;
    var last := |records| - 1;
    forall k | 0 <= k < last ensures records[k].offset < records[last].offset {
      OffsetsGrow(archs, entries, defs, pool, records, k, last);
    }
    if records != [] {
      assert entries[last].offset == records[last].offset;
    }
  }

  /** All definitions are told if and only if the last one starts below 0xFFFF, and the offsets of all
      are right in the table if and only if it starts at 0xFFFF or below. */
  lemma TableIsRightIff(archs: seq<Arch>, entries: seq<Entry>, defs: seq<nat>, pool: seq<byte>, records: seq<Record>)
    requires IsDatabase(archs, entries, defs, pool, records)
    ensures |entries| == |records|
    ensures (forall k :: 0 <= k < |entries| ==> IsTold(entries, k)) <==>
            records == [] || records[|records| - 1].offset < UINT16_MAX
    ensures (forall k :: 0 <= k < |entries| ==> RowOf(entries[k]).offset == entries[k].offset) <==>
            records == [] || records[|records| - 1].offset <= UINT16_MAX
  {
    hide IsDatabase;
    LastTells(archs, entries, defs, pool, records, UINT16_MAX);
    LastTells(archs, entries, defs, pool, records, UINT16_MAX + 1);
    if AreBelow(entries, UINT16_MAX) {
      forall k | 0 <= k < |entries| ensures IsTold(entries, k) {
        AllAreTold(archs, entries, defs, pool, records, k);
      }
    } else {
      var k :| 0 <= k < |entries| && entries[k].offset >= UINT16_MAX;
      assert !IsTold(entries, k);
    }
  }

  lemma AllAreTold(archs: seq<Arch>, entries: seq<Entry>, defs: seq<nat>, pool: seq<byte>, records: seq<Record>, k: nat)
    requires IsDatabase(archs, entries, defs, pool, records) && AreBelow(entries, UINT16_MAX) && k < |entries|
    ensures IsTold(entries, k)
  {
    hide IsDatabase;
    forall l | 0 <= l < |entries| && l != k ensures RowOf(entries[l]).offset != entries[k].offset {
      if entries[l].offset == entries[k].offset {
        OffsetIsUnique(archs, entries, defs, pool, records, l, k);
      }
    }
  }

  // ----- how many names fit -----

  /** The names of all lists. */
  function Names(archs: seq<Arch>): (names: set<seq<byte>>) {
    set i, j | 0 <= i < |archs| && 0 <= j < |archs[i].list| :: archs[i].list[j].name
  }

  /** There are as many entries as names. */
  lemma EntriesAreNames(archs: seq<Arch>, entries: seq<Entry>, defs: seq<nat>, pool: seq<byte>, records: seq<Record>)
    requires IsDatabase(archs, entries, defs, pool, records)
    ensures |entries| == |records| == |Names(archs)|
  {
    hide AreStored, AreSourced, AreInOrder, IsLaidOut, IsRecord, Describes;
    NamesDiffer(archs, entries);
    var names := seq(|entries|, k requires 0 <= k < |entries| => entries[k].name);
    forall x | x in names ensures x in Names(archs) {
      var k :| 0 <= k < |names| && names[k] == x;
      EntryHasSource(archs, entries, defs, pool, records, k);
    }
    forall x | x in Names(archs) ensures x in names {
      var i, j :| 0 <= i < |archs| && 0 <= j < |archs[i].list| && archs[i].list[j].name == x;
      EntryIsForArch(archs, entries, defs, pool, records, i, j);
      var k :| 0 <= k < |entries| && IsStoredAt(archs, entries, pool, records, i, j, k) && i in records[k].sel;
      assert names[k] == x;
    }
    DistinctAll(names, Names(archs));
  }

  lemma EntryHasSource(archs: seq<Arch>, entries: seq<Entry>, defs: seq<nat>, pool: seq<byte>, records: seq<Record>,
                       k: nat)
    requires IsDatabase(archs, entries, defs, pool, records) && k < |entries|
    ensures entries[k].name in Names(archs)
  {
    hide AreStored, AreSourced, AreInOrder, IsLaidOut, Describes;
    assert IsRecord(records[k], |archs|);
    var i :| i in records[k].sel;
    var j := SourceOf(archs, entries, defs, pool, records, k, i);
  }

  ghost function AnyOf(sel: set<nat>): (i: nat)
    requires sel != {}
    ensures i in sel
  {
    var i :| i in sel; i
  }

  /** The place of an item in a table of all arguments of all architectures. */
  ghost function CodeOf(item: Item): (code: int)
    requires item.sel != {}
  {
    AnyOf(item.sel) * MAX_ARGS + item.argno
  }

  lemma CodesDiffer(archs: seq<Arch>, entries: seq<Entry>, defs: seq<nat>, pool: seq<byte>, records: seq<Record>,
                    k: nat, a: nat, b: nat)
    requires IsDatabase(archs, entries, defs, pool, records) && k < |records| && IsRecord(records[k], |archs|)
    requires a < b < |records[k].items|
    ensures CodeOf(records[k].items[a]) != CodeOf(records[k].items[b])
  {
    hide IsDatabase, Describes, Count;
    var p, q := records[k].items[a], records[k].items[b];
    if CodeOf(p) == CodeOf(q) {
      var i := AnyOf(p.sel);
      assert i == AnyOf(q.sel);
      var j := SourceOf(archs, entries, defs, pool, records, k, i);
      ItemIsAlone(records[k], pool, i, archs[i].pointerSize, archs[i].list[j], a, b);
    }
  }

  /** A definition has at most one item for each argument of each architecture. */
  lemma ItemsAreFew(archs: seq<Arch>, entries: seq<Entry>, defs: seq<nat>, pool: seq<byte>, records: seq<Record>,
                    k: nat)
    requires IsDatabase(archs, entries, defs, pool, records) && k < |records|
    ensures |records[k].items| <= MAX_ARGS * |archs|
  {
    assert IsRecord(records[k], |archs|);
    hide IsDatabase, Count;
    var items := records[k].items;
    var codes: seq<int> := seq(|items|, a requires 0 <= a < |items| => CodeOf(items[a]));
    forall a, b | 0 <= a < b < |items| ensures codes[a] != codes[b] {
      CodesDiffer(archs, entries, defs, pool, records, k, a, b);
    }
    DistinctWithin(codes, Interval(0, MAX_ARGS * |archs|));
  }

  /** The most words a definition takes: a head of two, two for each item, and the numbers. */
  function MaxSize(archs: seq<Arch>): (n: nat) { 2 + (2 * MAX_ARGS + 1) * |archs| }

  const MIN_SIZE: nat := 3

  lemma SizeIsBounded(archs: seq<Arch>, entries: seq<Entry>, defs: seq<nat>, pool: seq<byte>, records: seq<Record>,
                      k: nat)
    requires IsDatabase(archs, entries, defs, pool, records) && k < |records|
    ensures records[k].offset + MIN_SIZE <= EndOf(records[k]) <= records[k].offset + MaxSize(archs)
  {
    ItemsAreFew(archs, entries, defs, pool, records, k);
    assert IsRecord(records[k], |archs|);
    RecordIsBounded(records[k], |archs|);
  }

  lemma RecordIsBounded(r: Record, n: nat)
    requires IsRecord(r, n) && |r.items| <= MAX_ARGS * n
    ensures r.offset + MIN_SIZE <= EndOf(r) <= r.offset + 2 + (2 * MAX_ARGS + 1) * n
  {
    hide Count, IsCompressed, IsItem;
    var i :| i in r.sel;
    CountGrows(r.sel, i, n);
  }

  lemma {:induction false} OffsetIsBounded(archs: seq<Arch>, entries: seq<Entry>, defs: seq<nat>, pool: seq<byte>,
                                           records: seq<Record>, k: nat)
    requires IsDatabase(archs, entries, defs, pool, records) && k < |records|
    ensures k * MIN_SIZE <= records[k].offset <= k * MaxSize(archs)
    decreases k
  {
    hide AreStored, AreSourced, AreInOrder, IsLaidOut, EndOf, MaxSize;
    if k > 0 {
      OffsetIsBounded(archs, entries, defs, pool, records, k - 1);
      SizeIsBounded(archs, entries, defs, pool, records, k - 1);
      assert k * MaxSize(archs) == (k - 1) * MaxSize(archs) + MaxSize(archs);
    }
  }

  /** Before anything is packed, the number of names tells whether all definitions start below `n`: few
      enough do, and too many do not. */
  lemma NamesTell(archs: seq<Arch>, entries: seq<Entry>, defs: seq<nat>, pool: seq<byte>, records: seq<Record>, n: nat)
    requires IsDatabase(archs, entries, defs, pool, records) && n > 0
    ensures Names(archs) == {} || (|Names(archs)| - 1) * MaxSize(archs) < n ==> AreBelow(entries, n)
    ensures Names(archs) != {} && (|Names(archs)| - 1) * MIN_SIZE >= n ==> !AreBelow(entries, n)
  {
    hide IsDatabase, MaxSize, Names;
    EntriesAreNames(archs, entries, defs, pool, records);
    LastTells(archs, entries, defs, pool, records, n);
    if records != [] {
      OffsetIsBounded(archs, entries, defs, pool, records, |records| - 1);
    }
  }
}
