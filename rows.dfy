/** Rows of the table, the events the table triggers, and what the
    programmatic commands (addRow, addRecords, getRecords) do to the sequence
    of rows. */
module Rows {
  import opened Wrappers
  import opened Records

  /** A table row: the jQuery data the engine keeps on it (`isNew`, the cached
      `record`) and its named inputs. */
  datatype Row = Row(isNew: bool, record: Option<Record>, fields: seq<Field>)

  /** The kinds of record event. */
  datatype Kind = Add | Update | Remove

  /** An event triggered on the table element. */
  datatype Event =
    | RecordChange(kind: Kind, rec: Record, index: nat)  // 'record:change' with the kind as first argument
    | RecordKind(kind: Kind, rec: Record, index: nat)    // 'record:add', 'record:update' or 'record:remove'

  /** A removal waiting for the next tick: the record and index captured by
      removeRow while the row was still in the table. */
  datatype Notice = Notice(rec: Record, index: nat)

  /** The source always triggers 'record:change' and then 'record:<kind>'. */
  function Announce(kind: Kind, rec: Record, index: nat): seq<Event>
  {
    [RecordChange(kind, rec, index), RecordKind(kind, rec, index)]
  }

  /** serializeRow's result: the cached record, or the trimmed inputs. */
  function Serialize(row: Row): Record
  {
    if row.record.Some? then row.record.value else Serialized(row.fields)
  }

  /** serializeRow's effect on the row: the result is cached as its record. */
  function Cache(row: Row): Row
  {
    row.(record := Some(Serialize(row)))
  }

  /** serializeRow returns a cached record unchanged, otherwise caches what it
      read; the cache changes nothing else, so a second serialization with no
      edit in between returns the identical record and changes nothing. */
  lemma SerializeCaches(row: Row)
    ensures row.record.Some? ==> Serialize(row) == row.record.value && Cache(row) == row
    ensures row.record.None? ==> Serialize(row) == Serialized(row.fields)
    ensures Cache(row).isNew == row.isNew && Cache(row).fields == row.fields
    ensures Serialize(Cache(row)) == Serialize(row) && Cache(Cache(row)) == Cache(row)
  {
  }

  /** isEmptyRow: the row's serialization matches the template defaults. */
  ghost predicate IsEmpty(defaults: Record, row: Row)
  {
    IsEmptyRecord(defaults, Serialize(row))
  }

  /** A clone of the template with isNew set and no record. */
  function Blank(template: seq<Field>): Row
  {
    Row(true, None, template)
  }

  /** A clone of the template holding `record`. */
  function Populated(template: seq<Field>, record: Record): Row
  {
    Row(false, Some(record), PopulatedFields(template, record))
  }

  /** jQuery's `.eq(index)` over `len` elements: a negative index counts from
      the end, and an index out of range selects nothing. */
  function EqIndex(index: int, len: nat): (p: Option<nat>)
    ensures p.Some? <==> 0 <= index + len && index < len
    ensures p.Some? ==> p.value < len && (p.value == index || p.value == index + len)
  {
    var j := if index < 0 then index + len else index;
    if 0 <= j < len then Some(j) else None
  }

  /** The rows after addRow(record, index). */
  function AddRow(rows: seq<Row>, template: seq<Field>, record: Option<Record>, index: Option<int>): seq<Row>
  {
    match record
    case None => rows + [Blank(template)]
    case Some(rec) =>
      if index.None? then
        // `tr:last-child` of an empty body selects nothing to insert before
        if rows == [] then rows else rows[..|rows| - 1] + [Populated(template, rec)] + rows[|rows| - 1..]
      else
        match EqIndex(index.value, |rows|)
        case None => rows
        case Some(p) => rows[..p] + [Populated(template, rec)] + rows[p..]
  }

  /** Without a record, addRow appends exactly one new row, flagged isNew and
      without a record, and the index is ignored. */
  lemma AddBlankRow(rows: seq<Row>, template: seq<Field>, index: Option<int>)
    ensures var after := AddRow(rows, template, None, index);
      && |after| == |rows| + 1 && after[..|rows|] == rows
      && after[|rows|].isNew && after[|rows|].record.None? && after[|rows|].fields == template
  {
  }

  /** With a record, addRow inserts one row that is not new, caches the
      supplied record and fills each input with `record[name] || ''`; it goes
      just before the last row when no index is given, otherwise just before
      the row now at `index`. */
  lemma AddPopulatedRow(rows: seq<Row>, template: seq<Field>, rec: Record, index: Option<int>)
    requires index.None? ==> rows != []
    requires index.Some? ==> 0 <= index.value < |rows|
    ensures var after := AddRow(rows, template, Some(rec), index);
      var p := if index.None? then |rows| - 1 else index.value;
      && |after| == |rows| + 1
      && after[..p] == rows[..p] && after[p + 1..] == rows[p..]
      && !after[p].isNew && after[p].record == Some(rec) && |after[p].fields| == |template|
      && forall k :: 0 <= k < |template| ==>
           after[p].fields[k] == Field(template[k].name, ValueFor(rec, template[k].name))
  {
    var after := AddRow(rows, template, Some(rec), index);
    var p := if index.None? then |rows| - 1 else index.value;
    assert after == rows[..p] + [Populated(template, rec)] + rows[p..];
  }

  /** addRecords' starting index: `index || 0`. */
  function StartOf(index: Option<int>): int
  {
    if index.None? then 0 else index.value
  }

  /** The rows after addRecords(records, start): records[i] goes through
      addRow(records[i], i + start), in order. */
  function AddAll(rows: seq<Row>, template: seq<Field>, records: seq<Option<Record>>, start: int): seq<Row>
    decreases |records|
  {
    if records == [] then rows
    else
      var n := |records| - 1;
      AddRow(AddAll(rows, template, records[..n], start), template, records[n], Some(start + n))
  }

  /** addRecords from a start inside the table puts the records in order at
      consecutive positions from `start`, and shifts the rows that were there
      down behind them. */
  lemma {:induction false} AddAllInOrder(rows: seq<Row>, template: seq<Field>, records: seq<Option<Record>>, start: int)
    requires 0 <= start < |rows|
    requires forall i :: 0 <= i < |records| ==> records[i].Some?
    ensures var after := AddAll(rows, template, records, start);
      && |after| == |rows| + |records|
      && after[..start] == rows[..start]
      && (forall i :: 0 <= i < |records| ==> after[start + i] == Populated(template, records[i].value))
      && after[start + |records|..] == rows[start..]
  {
    if records != [] {
      var n := |records| - 1;
      var before := AddAll(rows, template, records[..n], start);
      AddAllInOrder(rows, template, records[..n], start);
      var p := start + n;
      assert EqIndex(p, |before|) == Some(p);
      var after := AddAll(rows, template, records, start);
      assert after == before[..p] + [Populated(template, records[n].value)] + before[p..];
      forall i | 0 <= i < |records| ensures after[start + i] == Populated(template, records[i].value) {
        if i < n {
          assert records[..n][i] == records[i];
          assert after[start + i] == before[start + i];
        }
      }
      assert after[start + |records|..] == before[p..];
      assert before[p..] == before[start + n..];
    }
  }

  /** addRecords from a start at or past the end of the table adds nothing:
      every `.eq` selects no row to insert before. */
  lemma {:induction false} AddAllPastEnd(rows: seq<Row>, template: seq<Field>, records: seq<Option<Record>>, start: int)
    requires start >= |rows|
    requires forall i :: 0 <= i < |records| ==> records[i].Some?
    ensures AddAll(rows, template, records, start) == rows
  {
    if records != [] {
      var n := |records| - 1;
      AddAllPastEnd(rows, template, records[..n], start);
    }
  }

  /** getRecords' result: the serialization of every row but the last. */
  function Snapshot(rows: seq<Row>): seq<Record>
  {
    if rows == [] then []
    else seq(|rows| - 1, i requires 0 <= i < |rows| - 1 => Serialize(rows[i]))
  }

  /** getRecords' effect: the first `n` rows get their serialization cached. */
  function CacheBelow(rows: seq<Row>, n: nat): seq<Row>
  {
    seq(|rows|, i requires 0 <= i < |rows| => if i < n then Cache(rows[i]) else rows[i])
  }

  /** getRecords yields one record per row but the last, in order; it only
      caches, so asking again returns the identical records. */
  lemma SnapshotSpec(rows: seq<Row>)
    requires rows != []
    ensures |Snapshot(rows)| == |rows| - 1
    ensures forall i :: 0 <= i < |rows| - 1 ==> Snapshot(rows)[i] == Serialize(rows[i])
    ensures Snapshot(CacheBelow(rows, |rows| - 1)) == Snapshot(rows)
  {
  }

  /** Records put in by addRecords come straight back out of getRecords at
      the positions they were placed, since each populated row caches the
      record it was given. */
  lemma AddedRecordsComeBack(rows: seq<Row>, template: seq<Field>, records: seq<Option<Record>>, start: int)
    requires 0 <= start < |rows|
    requires forall i :: 0 <= i < |records| ==> records[i].Some?
    ensures var got := Snapshot(AddAll(rows, template, records, start));
      && |got| == |rows| + |records| - 1
      && forall i :: 0 <= i < |records| ==> got[start + i] == records[i].value
  {
    AddAllInOrder(rows, template, records, start);
  }
}
