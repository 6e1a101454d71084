/** The UTS-46 mapping as it is generated: merged ranges, fixed width records, and a pool of targets. */
module UnicodeTables {
  import opened Bits
  import opened Ranges
  import opened Wrappers
  import Hex
  import Utf8

  const RANGE := 12
  const MAP_WIDTH := 20

  datatype Status = Valid | Deviation | Ignored | Mapped | Disallowed

  // A line of the source file: its points, what is to be done with them, and what they map to.
  datatype Line = Line(first: nat, last: nat, status: Status, target: string)

  // What the table says of a point.
  datatype Entry = Entry(kind: char, target: string)

  // Deviations are valid, because there is no transitional processing. Only mapped points have a target.
  function EntryOf(line: Line): Entry {
    match line.status
    case Valid => Entry('v', "")
    case Deviation => Entry('v', "")
    case Ignored => Entry('i', "")
    case Mapped => Entry('m', line.target)
    case Disallowed => Entry('d', "")
  }

  function RowsOf(lines: seq<Line>): (rows: seq<Row<Entry>>)
    ensures |rows| == |lines|
  {
    seq(|lines|, i requires 0 <= i < |lines| => Row(lines[i].first, lines[i].last, EntryOf(lines[i])))
  }

  // Runs of one status merge, runs that are mapped never do.
  function MayMerge(e: Entry): bool {
    e.kind != 'm'
  }

  ghost predicate OnlyMappedHaveTargets(rows: seq<Row<Entry>>) {
    forall i :: 0 <= i < |rows| && rows[i].value.kind != 'm' ==> rows[i].value.target == ""
  }

  lemma OneMoreLine(lines: seq<Line>, n: nat)
    requires n < |lines|
    ensures Merge(RowsOf(lines[..n + 1]), MayMerge) ==
            Absorb(Merge(RowsOf(lines[..n]), MayMerge), Row(lines[n].first, lines[n].last, EntryOf(lines[n])), MayMerge)
  {
    OneMoreMerged(RowsOf(lines), n, MayMerge);
    assert RowsOf(lines)[..n] == RowsOf(lines[..n]) && RowsOf(lines)[..n + 1] == RowsOf(lines[..n + 1]);
  }

  method IdnaMapping(lines: seq<Line>) returns (collapsed: seq<Row<Entry>>)
    ensures collapsed == Merge(RowsOf(lines), MayMerge)
    ensures OnlyMappedHaveTargets(collapsed)
  {
    hide Merge, RowsOf;
    collapsed := [];
    NothingMerged(RowsOf(lines), MayMerge);
    assert RowsOf(lines)[..0] == RowsOf(lines[..0]);
    for n := 0 to |lines|
      invariant collapsed == Merge(RowsOf(lines[..n]), MayMerge)
      invariant OnlyMappedHaveTargets(collapsed)
    {
      OneMoreLine(lines, n);
      var Line(first, last, status, target) := lines[n];
      var Entry(kind, text) := EntryOf(lines[n]);
      var end := |collapsed| - 1;
      if collapsed != [] && kind != 'm' && collapsed[end].value.kind == kind && collapsed[end].last + 1 == first {
        collapsed := collapsed[end := collapsed[end].(last := last)];
      } else {
        collapsed := collapsed + [Row(first, last, Entry(kind, text))];
      }
    }
    assert lines[..|lines|] == lines;
  }

  // The rows that are mapped.
  function MappedOf(rows: seq<Row<Entry>>): seq<Row<Entry>> {
    if rows == [] then []
    else
      var last := rows[|rows| - 1];
      MappedOf(rows[..|rows| - 1]) + (if last.value.kind == 'm' then [last] else [])
  }

  lemma MappedAppend(rows: seq<Row<Entry>>, row: Row<Entry>)
    ensures MappedOf(rows + [row]) == MappedOf(rows) + (if row.value.kind == 'm' then [row] else [])
  {
    assert (rows + [row])[..|rows|] == rows;
  }

  // Merging leaves every mapped row as it is.
  lemma {:induction false} MappedRowsStay(rows: seq<Row<Entry>>)
    ensures MappedOf(Merge(rows, MayMerge)) == MappedOf(rows)
  {
    hide MappedOf;
    if rows != [] {
      var n := |rows| - 1;
      MappedRowsStay(rows[..n]);
      AbsorbedMapped(Merge(rows[..n], MayMerge), rows[n]);
      MappedAppend(Merge(rows[..n], MayMerge), rows[n]);
      MappedAppend(rows[..n], rows[n]);
      assert rows == rows[..n] + [rows[n]];
    } else {
      assert Merge(rows, MayMerge) == rows;
    }
  }

  lemma AbsorbedMapped(merged: seq<Row<Entry>>, row: Row<Entry>)
    ensures MappedOf(Absorb(merged, row, MayMerge)) == MappedOf(merged + [row])
  {
    hide MappedOf;
    MappedAppend(merged, row);
    if merged != [] && Adjacent(merged[|merged| - 1], row, MayMerge) {
      var k := |merged| - 1;
      assert merged == merged[..k] + [merged[k]];
      MappedAppend(merged[..k], merged[k]);
      MappedAppend(merged[..k], merged[k].(last := row.last));
    }
  }

  // Two rows of one kind are left side by side only where they are mapped.
  lemma RunsAreMerged(lines: seq<Line>, i: nat)
    requires Ordered(RowsOf(lines)) && i + 1 < |Merge(RowsOf(lines), MayMerge)|
    requires OnlyMappedHaveTargets(Merge(RowsOf(lines), MayMerge))
    ensures var rows := Merge(RowsOf(lines), MayMerge);
      rows[i].value.kind == rows[i + 1].value.kind && rows[i].last + 1 == rows[i + 1].first ==>
      rows[i].value.kind == 'm'
  {
    MergeIsFaithful(RowsOf(lines), MayMerge, 0);
    hide Merge, RowsOf, Ordered, Scan;
    var rows := Merge(RowsOf(lines), MayMerge);
    assert !Adjacent(rows[i], rows[i + 1], MayMerge);
  }

  // Where each text stands in a pool, in bytes.
  type Offsets = map<string, nat>

  ghost predicate SliceIs(bytes: seq<byte>, offset: nat, text: string) {
    var size := |Utf8.Encode(text)|;
    offset + size <= |bytes| && bytes[offset..offset + size] == Utf8.Encode(text)
  }

  // The bytes at every offset are those of the text that has it.
  ghost predicate Pooled(pool: string, offsets: Offsets) {
    forall t :: t in offsets ==> SliceIs(Utf8.Encode(pool), offsets[t], t)
  }

  // A pool with a text in it, where it was or at the end.
  function Added(pool: string, offsets: Offsets, text: string): (string, Offsets) {
    if text in offsets then (pool, offsets) else (pool + text, offsets[text := |Utf8.Encode(pool)|])
  }

  // The pool of a table: the targets of its rows, each where it first occurs.
  function Pooling(rows: seq<Row<Entry>>): (string, Offsets) {
    if rows == [] then ("", map[])
    else
      var before := Pooling(rows[..|rows| - 1]);
      var row := rows[|rows| - 1];
      if row.value.kind == 'm' then Added(before.0, before.1, row.value.target) else before
  }

  // The texts of a pool, each once, one after the other.
  ghost predicate IsOnceEach(texts: seq<string>, pool: string, offsets: Offsets) {
    && pool == Hex.Join(texts)
    && (forall i, j :: 0 <= i < j < |texts| ==> texts[i] != texts[j])
    && (forall t :: t in offsets <==> t in texts)
    && (forall i :: 0 <= i < |texts| ==> offsets[texts[i]] == |Utf8.Encode(Hex.Join(texts[..i]))|)
  }

  ghost predicate IsTargetOf(row: Row<Entry>, t: string) {
    row.value.kind == 'm' && row.value.target == t
  }

  ghost predicate SomeTarget(rows: seq<Row<Entry>>, t: string) {
    exists i :: 0 <= i < |rows| && IsTargetOf(rows[i], t)
  }

  lemma SomeTargetOf(rows: seq<Row<Entry>>, t: string)
    requires rows != []
    ensures SomeTarget(rows, t) <==>
      SomeTarget(rows[..|rows| - 1], t) || IsTargetOf(rows[|rows| - 1], t)
  {
    var less := rows[..|rows| - 1];
    assert forall i :: 0 <= i < |less| ==> less[i] == rows[i];
    if SomeTarget(less, t) {
      var i :| 0 <= i < |less| && IsTargetOf(less[i], t);
      assert IsTargetOf(rows[i], t);
    }
  }

  lemma NothingOnce()
    ensures IsOnceEach([], "", map[])
  {
  }

  lemma OnceMore(texts: seq<string>, pool: string, offsets: Offsets, t: string)
    requires IsOnceEach(texts, pool, offsets) && t !in offsets
    ensures IsOnceEach(texts + [t], pool + t, offsets[t := |Utf8.Encode(pool)|])
  {
    hide Utf8.Encode, Hex.Join;
    Hex.JoinAppend(texts, t);
    var more := texts + [t];
    assert more[..|texts|] == texts;
    forall i | 0 <= i < |texts|
      ensures more[..i] == texts[..i] && texts[i] in texts
    {
    }
  }

  lemma OnceKeys(texts: seq<string>, pool: string, offsets: Offsets)
    requires IsOnceEach(texts, pool, offsets)
    ensures forall t :: t in offsets <==> t in texts
  {
  }

  // The pool is the targets of the mapped rows, each once.
  lemma {:induction false} PoolHasEachOnce(rows: seq<Row<Entry>>) returns (texts: seq<string>)
    ensures IsOnceEach(texts, Pooling(rows).0, Pooling(rows).1)
    ensures forall t :: t in texts <==> SomeTarget(rows, t)
  {
    hide IsOnceEach, SomeTarget;
    if rows == [] {
      texts := [];
      NothingOnce();
      NoTarget();
    } else {
      var n := |rows| - 1;
      var less := PoolHasEachOnce(rows[..n]);
      var before, t := Pooling(rows[..n]), rows[n].value.target;
      OnceKeys(less, before.0, before.1);
      var isNew := rows[n].value.kind == 'm' && t !in before.1;
      texts := if isNew then less + [t] else less;
      if isNew {
        OnceMore(less, before.0, before.1, t);
      }
      forall u
        ensures u in texts <==> SomeTarget(rows, u)
      {
        SomeTargetOf(rows, u);
      }
    }
  }

  lemma NoTarget()
    ensures forall t :: !SomeTarget([], t)
  {
  }

  // A text is added once, and every text stays where it is.
  method Intern(pool: string, offsets: Offsets, text: string) returns (pool': string, offsets': Offsets)
    requires Pooled(pool, offsets)
    ensures Pooled(pool', offsets') && text in offsets'
    ensures (pool', offsets') == Added(pool, offsets, text)
  {
    pool', offsets' := pool, offsets;
    if text !in offsets {
      offsets' := offsets[text := |Utf8.Encode(pool)|];
      pool' := pool + text;
      PoolGrows(pool, offsets, text);
    }
  }

  lemma PoolGrows(pool: string, offsets: Offsets, text: string)
    requires Pooled(pool, offsets)
    ensures Pooled(pool + text, offsets[text := |Utf8.Encode(pool)|])
  {
    Utf8.EncodeConcat(pool, text);
    hide Utf8.Encode, SliceIs;
    var after := offsets[text := |Utf8.Encode(pool)|];
    NewSlice(Utf8.Encode(pool), text);
    forall t | t in offsets
      ensures SliceIs(Utf8.Encode(pool + text), offsets[t], t)
    {
      SliceStays(Utf8.Encode(pool), Utf8.Encode(text), offsets[t], t);
    }
  }

  lemma NewSlice(bytes: seq<byte>, text: string)
    ensures SliceIs(bytes + Utf8.Encode(text), |bytes|, text)
  {
  }

  lemma SliceStays(bytes: seq<byte>, more: seq<byte>, offset: nat, text: string)
    requires SliceIs(bytes, offset, text)
    ensures SliceIs(bytes + more, offset, text)
  {
    var size := |Utf8.Encode(text)|;
    assert (bytes + more)[offset..offset + size] == bytes[offset..offset + size];
  }

  function MapRecord(row: Row<Entry>, offset: nat, size: nat): string {
    Hex.Field(Hex.Upper, row.first, 6) + Hex.Field(Hex.Upper, row.last, 6) + [row.value.kind]
    + Hex.Field(Hex.Upper, offset, 5) + Hex.Field(Hex.Upper, size, 2)
  }

  ghost predicate HasTarget(row: Row<Entry>, offsets: Offsets) {
    row.value.kind == 'm' ==> row.value.target in offsets
  }

  // Where the target of a row stands, and how long it is. A row without a target has zeros.
  function OffsetOf(row: Row<Entry>, offsets: Offsets): nat {
    if row.value.kind == 'm' && row.value.target in offsets then offsets[row.value.target] else 0
  }

  function SizeOf(row: Row<Entry>): nat {
    if row.value.kind == 'm' then |Utf8.Encode(row.value.target)| else 0
  }

  ghost predicate IsRecord(record: string, row: Row<Entry>, offsets: Offsets) {
    HasTarget(row, offsets) && record == MapRecord(row, OffsetOf(row, offsets), SizeOf(row))
  }

  ghost predicate AreRecords(records: seq<string>, rows: seq<Row<Entry>>, offsets: Offsets) {
    |records| <= |rows| && forall i :: 0 <= i < |records| ==> IsRecord(records[i], rows[i], offsets)
  }

  lemma NothingPooled(rows: seq<Row<Entry>>)
    ensures AreRecords([], rows, map[]) && Pooled("", map[]) && Pooling(rows[..0]) == ("", map[])
  {
  }

  lemma OneMorePooled(rows: seq<Row<Entry>>, n: nat)
    requires n < |rows|
    ensures Pooling(rows[..n + 1]) ==
      var (pool, offsets) := Pooling(rows[..n]);
      if rows[n].value.kind == 'm' then Added(pool, offsets, rows[n].value.target) else (pool, offsets)
  {
    assert rows[..n + 1][..n] == rows[..n];
  }

  lemma OneMoreRecord(records: seq<string>, rows: seq<Row<Entry>>, offsets: Offsets, record: string)
    requires |records| < |rows| && AreRecords(records, rows, offsets) && IsRecord(record, rows[|records|], offsets)
    ensures AreRecords(records + [record], rows, offsets)
  {
    hide IsRecord;
  }

  method MapRecords(rows: seq<Row<Entry>>) returns (records: seq<string>, pool: string, ghost offsets: Offsets)
    ensures |records| == |rows| && AreRecords(records, rows, offsets)
    ensures Pooled(pool, offsets) && (pool, offsets) == Pooling(rows)
  {
    hide *;
    records, pool := [], "";
    var found: Offsets := map[];
    NothingPooled(rows);
    for n := 0 to |rows|
      invariant |records| == n && AreRecords(records, rows, found) && Pooled(pool, found)
      invariant (pool, found) == Pooling(rows[..n])
    {
      var record;
      ghost var before := found;
      record, pool, found := MapOne(rows[n], pool, found);
      RecordsStay(records, rows, before, found);
      OneMoreRecord(records, rows, found, record);
      OneMorePooled(rows, n);
      records := records + [record];
    }
    assert rows[..|rows|] == rows;
    offsets := found;
  }

  method MapOne(row: Row<Entry>, pool: string, found: Offsets)
    returns (record: string, pool': string, found': Offsets)
    requires Pooled(pool, found)
    ensures Pooled(pool', found') && IsRecord(record, row, found')
    ensures (pool', found') == if row.value.kind == 'm' then Added(pool, found, row.value.target) else (pool, found)
    ensures forall t :: t in found ==> t in found' && found'[t] == found[t]
  {
    var offset, size := 0, 0;
    pool', found' := pool, found;
    if row.value.kind == 'm' {
      pool', found' := Intern(pool, found, row.value.target);
      offset := found'[row.value.target];
      size := |Utf8.Encode(row.value.target)|;
    }
    record := MapRecord(row, offset, size);
  }

  lemma RecordStays(record: string, row: Row<Entry>, before: Offsets, after: Offsets)
    requires IsRecord(record, row, before)
    requires forall t :: t in before ==> t in after && after[t] == before[t]
    ensures IsRecord(record, row, after)
  {
    hide MapRecord;
  }

  lemma RecordsStay(records: seq<string>, rows: seq<Row<Entry>>, before: Offsets, after: Offsets)
    requires AreRecords(records, rows, before)
    requires forall t :: t in before ==> t in after && after[t] == before[t]
    ensures AreRecords(records, rows, after)
  {
    hide IsRecord;
    forall i | 0 <= i < |records|
      ensures IsRecord(records[i], rows[i], after)
    {
      RecordStays(records[i], rows[i], before, after);
    }
  }

  // A table is only made of records of its width: anything else stops the generator.
  method Table(records: seq<string>, width: nat) returns (text: Option<string>)
    ensures text.Some? <==> Hex.AllOfWidth(records, width)
    ensures text.Some? ==> text.value == Hex.Join(records)
  {
    for n := 0 to |records|
      invariant Hex.AllOfWidth(records[..n], width)
    {
      if |records[n]| != width {
        return None;
      }
    }
    var joined := "";
    for n := 0 to |records|
      invariant joined == Hex.Join(records[..n])
    {
      assert records[..n + 1][..n] == records[..n];
      joined := joined + records[n];
    }
    assert records[..|records|] == records;
    return Some(joined);
  }

  // A record of the right width has every field in its place, so that each reads back.
  ghost predicate ReadsRecord(text: string, at: nat, row: Row<Entry>, offset: nat, size: nat) {
    && at + MAP_WIDTH <= |text|
    && Hex.Value(text[at..at + 6]) == row.first
    && Hex.Value(text[at + 6..at + 6 + 6]) == row.last
    && text[at + 12] == row.value.kind
    && Hex.Value(text[at + 13..at + 13 + 5]) == offset
    && Hex.Value(text[at + 18..at + 18 + 2]) == size
  }

  lemma RecordReads(row: Row<Entry>, offset: nat, size: nat)
    requires |MapRecord(row, offset, size)| == MAP_WIDTH
    ensures ReadsRecord(MapRecord(row, offset, size), 0, row, offset, size)
  {
    var a, b := Hex.Field(Hex.Upper, row.first, 6), Hex.Field(Hex.Upper, row.last, 6);
    var c, d := Hex.Field(Hex.Upper, offset, 5), Hex.Field(Hex.Upper, size, 2);
    hide Hex.Field;
    assert |a| == 6 && |b| == 6 && |c| == 5 && |d| == 2;
    var r := a + b + [row.value.kind] + c + d;
    assert r == MapRecord(row, offset, size);
    assert r[0..6] == a && r[6..12] == b && r[12] == row.value.kind && r[13..18] == c && r[18..20] == d;
  }

  lemma RecordReadsAt(text: string, at: nat, record: string, row: Row<Entry>, offset: nat, size: nat)
    requires at + MAP_WIDTH <= |text| && text[at..at + MAP_WIDTH] == record
    requires |record| == MAP_WIDTH && ReadsRecord(record, 0, row, offset, size)
    ensures ReadsRecord(text, at, row, offset, size)
  {
    hide Hex.Value;
    SliceOfSlice(text, at, at + MAP_WIDTH, 0, 6);
    SliceOfSlice(text, at, at + MAP_WIDTH, 6, 12);
    SliceOfSlice(text, at, at + MAP_WIDTH, 13, 18);
    SliceOfSlice(text, at, at + MAP_WIDTH, 18, 20);
    assert record[12] == text[at + 12];
  }

  // What the generator writes for a source file: the text of the records, and the pool.
  ghost predicate IsMapTable(lines: seq<Line>, rows: seq<Row<Entry>>, text: string, pool: string, offsets: Offsets) {
    && rows == Merge(RowsOf(lines), MayMerge) && Pooled(pool, offsets)
    && forall n :: 0 <= n < |rows| ==> IsRecordAt(text, n, rows[n], offsets)
  }

  ghost predicate IsTableOf(lines: seq<Line>, text: string, pool: string) {
    exists offsets :: IsMapTable(lines, Merge(RowsOf(lines), MayMerge), text, pool, offsets)
  }

  ghost predicate IsRecordAt(text: string, n: nat, row: Row<Entry>, offsets: Offsets) {
    HasTarget(row, offsets) && ReadsRecord(text, n * MAP_WIDTH, row, OffsetOf(row, offsets), SizeOf(row))
  }

  lemma TableFound(lines: seq<Line>, rows: seq<Row<Entry>>, text: string, pool: string, offsets: Offsets)
    requires IsMapTable(lines, rows, text, pool, offsets)
    ensures IsTableOf(lines, text, pool)
  {
    hide IsRecordAt, Pooled;
  }

  // The fields of a record keep their widths.
  ghost predicate RowFits(row: Row<Entry>, offsets: Offsets) {
    && row.first < Hex.Pow16(6) && row.last < Hex.Pow16(6)
    && OffsetOf(row, offsets) < Hex.Pow16(5) && SizeOf(row) < Hex.Pow16(2)
  }

  lemma RecordFits(row: Row<Entry>, offset: nat, size: nat)
    ensures |MapRecord(row, offset, size)| == MAP_WIDTH <==>
      row.first < Hex.Pow16(6) && row.last < Hex.Pow16(6) && offset < Hex.Pow16(5) && size < Hex.Pow16(2)
  {
    hide Hex.Pow16;
    Hex.FieldWidth(Hex.Upper, row.first, 6);
    Hex.FieldWidth(Hex.Upper, row.last, 6);
    Hex.FieldWidth(Hex.Upper, offset, 5);
    Hex.FieldWidth(Hex.Upper, size, 2);
  }

  // Every row of the merge fits into its record.
  ghost predicate TableFits(lines: seq<Line>) {
    var rows := Merge(RowsOf(lines), MayMerge);
    forall n :: 0 <= n < |rows| ==> RowFits(rows[n], Pooling(rows).1)
  }

  lemma RecordsFit(records: seq<string>, rows: seq<Row<Entry>>, offsets: Offsets)
    requires |records| == |rows| && AreRecords(records, rows, offsets)
    ensures Hex.AllOfWidth(records, MAP_WIDTH) <==> forall n :: 0 <= n < |rows| ==> RowFits(rows[n], offsets)
  {
    hide OffsetOf, SizeOf, MapRecord;
    forall n | 0 <= n < |rows|
      ensures |records[n]| == MAP_WIDTH <==> RowFits(rows[n], offsets)
    {
      assert IsRecord(records[n], rows[n], offsets);
      RecordFits(rows[n], OffsetOf(rows[n], offsets), SizeOf(rows[n]));
    }
  }

  // The table is printed exactly when every field fits into its place.
  method BuildMap(lines: seq<Line>)
    returns (text: Option<string>, pool: string, ghost rows: seq<Row<Entry>>, ghost offsets: Offsets)
    ensures text.Some? <==> TableFits(lines)
    ensures rows == Merge(RowsOf(lines), MayMerge) && (pool, offsets) == Pooling(rows)
    ensures text.Some? ==> IsTableOf(lines, text.value, pool)
    ensures text.Some? ==> IsMapTable(lines, rows, text.value, pool, offsets)
  {
    hide Pooled, Merge, IsRecordAt, IsTableOf, RowFits, Pooling;
    var collapsed := IdnaMapping(lines);
    var records;
    records, pool, offsets := MapRecords(collapsed);
    text := Table(records, MAP_WIDTH);
    rows := collapsed;
    RecordsFit(records, rows, offsets);
    if text.Some? {
      forall n | 0 <= n < |rows|
        ensures IsRecordAt(text.value, n, rows[n], offsets)
      {
        assert IsRecord(records[n], rows[n], offsets);
        JoinedRecordReads(records, text.value, n, rows[n], offsets);
      }
      TableFound(lines, rows, text.value, pool, offsets);
    }
  }

  lemma JoinedRecordReads(records: seq<string>, text: string, n: nat, row: Row<Entry>, offsets: Offsets)
    requires Hex.AllOfWidth(records, MAP_WIDTH) && text == Hex.Join(records)
    requires n < |records| && IsRecord(records[n], row, offsets)
    ensures IsRecordAt(text, n, row, offsets)
  {
    hide MapRecord, Hex.Join, ReadsRecord, OffsetOf, SizeOf;
    Hex.RecordAt(records, MAP_WIDTH, n);
    RecordReads(row, OffsetOf(row, offsets), SizeOf(row));
    RecordReadsAt(text, n * MAP_WIDTH, records[n], row, OffsetOf(row, offsets), SizeOf(row));
  }

  // The ranges of a table, read back from its text.
  ghost predicate HasRanges<V>(text: string, width: nat, rows: seq<Row<V>>) {
    forall n :: 0 <= n < |rows| ==> HasRangeAt(text, n * width, rows[n])
  }

  ghost predicate HasRangeAt<V>(text: string, at: nat, row: Row<V>) {
    at + RANGE <= |text| && Hex.Value(text[at..at + 6]) == row.first
    && Hex.Value(text[at + 6..at + 6 + 6]) == row.last
  }

  // Binary search for the range that holds a point. It is right because the rows are in order.
  method FindRange<V>(text: string, count: nat, width: nat, point: nat, ghost rows: seq<Row<V>>) returns (index: int)
    requires Ordered(rows) && HasRanges(text, width, rows) && count == |rows|
    ensures -1 <= index < count
    ensures if index < 0 then Scan(rows, point) == None
      else Holds(rows[index], point) && Scan(rows, point) == Some(rows[index].value)
  {
    var low, high := 0, count - 1;
    while low <= high
      invariant 0 <= low <= high + 1 <= count
      invariant forall i :: 0 <= i < low ==> rows[i].last < point
      invariant forall i :: high < i < count ==> point < rows[i].first
    {
      var middle := (low + high) / 2;
      assert HasRangeAt(text, middle * width, rows[middle]);
      var first, last := ReadRange(text, middle * width, rows[middle]);
      if point < first {
        high := middle - 1;
      } else if point > last {
        low := middle + 1;
      } else {
        ScanFinds(rows, middle, point);
        return middle;
      }
    }
    ScanMisses(rows, point);
    return -1;
  }

  method ReadRange<V>(text: string, at: nat, ghost row: Row<V>) returns (first: int, last: int)
    requires HasRangeAt(text, at, row)
    ensures first == row.first && last == row.last
  {
    first := Hex.At(text, at, 6);
    last := Hex.At(text, at + 6, 6);
  }

  lemma MapHasRanges(lines: seq<Line>, rows: seq<Row<Entry>>, text: string, pool: string, offsets: Offsets)
    requires IsMapTable(lines, rows, text, pool, offsets)
    ensures HasRanges(text, MAP_WIDTH, rows)
  {
    forall n | 0 <= n < |rows|
      ensures HasRangeAt(text, n * MAP_WIDTH, rows[n])
    {
      assert IsRecordAt(text, n, rows[n], offsets);
    }
  }

  // What the source file says of a point. Points it does not name are disallowed.
  function Meaning(lines: seq<Line>, point: nat): Entry {
    match Scan(RowsOf(lines), point)
    case Some(e) => e
    case None => Entry('d', "")
  }

  // The letter of each status, for the points of a line; and that of a point that no line has.
  lemma LinesAreMeant(lines: seq<Line>, k: nat, point: nat)
    requires Ordered(RowsOf(lines)) && k < |lines| && lines[k].first <= point <= lines[k].last
    ensures Meaning(lines, point).kind == match lines[k].status
      case Valid => 'v'
      case Deviation => 'v'
      case Ignored => 'i'
      case Mapped => 'm'
      case Disallowed => 'd'
    ensures Meaning(lines, point).target == if lines[k].status == Mapped then lines[k].target else ""
  {
    assert Holds(RowsOf(lines)[k], point);
    ScanFinds(RowsOf(lines), k, point);
  }

  lemma OthersAreDisallowed(lines: seq<Line>, point: nat)
    requires forall k :: 0 <= k < |lines| ==> !(lines[k].first <= point <= lines[k].last)
    ensures Meaning(lines, point) == Entry('d', "")
  {
    ScanMisses(RowsOf(lines), point);
  }

  // The status that is found in the table is the one the source file gives the point.
  method IdnaStatus(text: string, count: nat, point: nat, ghost lines: seq<Line>,
                    ghost rows: seq<Row<Entry>>, ghost pool: string, ghost offsets: Offsets)
    returns (kind: char)
    requires IsMapTable(lines, rows, text, pool, offsets) && Ordered(RowsOf(lines)) && count == |rows|
    ensures kind == Meaning(lines, point).kind
  {
    MergeIsFaithful(RowsOf(lines), MayMerge, point);
    MapHasRanges(lines, rows, text, pool, offsets);
    hide Scan, Merge, Pooled;
    var index := FindRange(text, count, MAP_WIDTH, point, rows);
    if index < 0 {
      return 'd';
    }
    assert IsRecordAt(text, index, rows[index], offsets);
    return text[index * MAP_WIDTH + 12];
  }

  // The bytes that are found in the pool are those of the target the source file gives the point.
  method IdnaTarget(text: string, bytes: seq<byte>, count: nat, point: nat, ghost lines: seq<Line>,
                    ghost rows: seq<Row<Entry>>, ghost pool: string, ghost offsets: Offsets)
    returns (target: seq<byte>)
    requires IsMapTable(lines, rows, text, pool, offsets) && Ordered(RowsOf(lines)) && count == |rows|
    requires bytes == Utf8.Encode(pool) && Meaning(lines, point).kind == 'm'
    ensures target == Utf8.Encode(Meaning(lines, point).target)
  {
    MergeIsFaithful(RowsOf(lines), MayMerge, point);
    MapHasRanges(lines, rows, text, pool, offsets);
    hide Scan, Merge, Pooled, IsRecordAt;
    var index := FindRange(text, count, MAP_WIDTH, point, rows);
    assert IsRecordAt(text, index, rows[index], offsets);
    target := ReadTarget(text, bytes, index, rows[index], pool, offsets);
  }

  method ReadTarget(text: string, bytes: seq<byte>, index: nat, ghost row: Row<Entry>,
                    ghost pool: string, ghost offsets: Offsets)
    returns (target: seq<byte>)
    requires IsRecordAt(text, index, row, offsets) && row.value.kind == 'm'
    requires bytes == Utf8.Encode(pool) && Pooled(pool, offsets)
    ensures target == Utf8.Encode(row.value.target)
  {
    assert SliceIs(bytes, offsets[row.value.target], row.value.target);
    hide Utf8.Encode;
    var at := index * MAP_WIDTH;
    var offset := Hex.At(text, at + 13, 5);
    var length := Hex.At(text, at + 18, 2);
    target := bytes[offset..offset + length];
  }
}
