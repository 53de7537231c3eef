/** The EditableTable instance: the closure state of the constructor (the
    template, its default values, the blur timer handle) and the handlers and
    hooks that change the rows in place and trigger events on the table. */
module Table {
  import opened Wrappers
  import opened Records
  import opened Rows
  import opened Pruning
  import opened Editing

  class EditableTable {
    /** The rows of the table body, top to bottom; the last one is the entry
        row the user types into to start a new record. */
    var rows: seq<Row>
    /** The inputs of the clone of the entry row taken at start-up. */
    const template: seq<Field>
    /** serializeRow of the template: what an empty row holds. */
    const defaultValues: Record
    /** The events triggered on the table element so far, oldest first. */
    var log: seq<Event>
    /** The notices removeRow scheduled for the next tick and not yet
        delivered, oldest first. */
    var removals: seq<Notice>
    /** The blur timers scheduled and neither fired nor cleared. */
    var timers: set<nat>
    /** The handle handleBlur stored last (`removeTimeout`). */
    var removeTimeout: Option<nat>
    /** The handle the next setTimeout hands out. */
    var nextTimer: nat

    ghost predicate Valid()
      reads this
    {
      && defaultValues == Serialized(template)
      && (forall t :: t in timers ==> t < nextTimer)
      && (removeTimeout.Some? ==> removeTimeout.value < nextTimer)
    }

    /** initialize(): the last row of the body is flagged isNew, its clone is
        the template, and the template's serialization gives the defaults.
        `initial` holds the inputs of the rows in the page. */
    constructor (initial: seq<seq<Field>>)
      requires initial != []
      ensures Valid()
      ensures template == initial[|initial| - 1]
      ensures |rows| == |initial|
      ensures forall i :: 0 <= i < |initial| ==> rows[i] == Row(i == |initial| - 1, None, initial[i])
      ensures log == [] && removals == [] && timers == {} && removeTimeout == None
    {
      template := initial[|initial| - 1];
      var defaults := BuildRecord(initial[|initial| - 1]);
      defaultValues := defaults;
      rows := seq(|initial|, i requires 0 <= i < |initial| => Row(i == |initial| - 1, None, initial[i]));
      log := [];
      removals := [];
      timers := {};
      removeTimeout := None;
      nextTimer := 0;
    }

    /** serializeRow on row i. */
    method SerializeRow(i: nat) returns (rec: Record)
      requires i < |rows|
      modifies this`rows
      ensures rec == Serialize(old(rows)[i])
      ensures rows == old(rows)[i := Cache(old(rows)[i])]
    {
      var row := rows[i];
      if row.record.Some? {
        return row.record.value;
      }
      rec := BuildRecord(row.fields);
      rows := rows[i := row.(record := Some(rec))];
    }

    /** isEmptyRow on row i: it serializes, and so caches, the row. */
    method IsEmptyRow(i: nat) returns (empty: bool)
      requires i < |rows|
      modifies this`rows
      ensures empty <==> IsEmpty(defaultValues, old(rows)[i])
      ensures rows == old(rows)[i := Cache(old(rows)[i])]
    {
      var rec := SerializeRow(i);
      empty := MatchesDefaults(defaultValues, rec);
    }

    /** addRow(record, index); it triggers no event. */
    method AddRow(record: Option<Record>, index: Option<int>)
      modifies this`rows
      ensures rows == Rows.AddRow(old(rows), template, record, index)
    {
      if record.None? {
        rows := rows + [Blank(template)];
        return;
      }
      var fields := FillFields(template, record.value);
      var row := Row(false, record, fields);
      assert row == Populated(template, record.value);
      if index.None? {
        if rows != [] {
          rows := rows[..|rows| - 1] + [row] + rows[|rows| - 1..];
        }
        return;
      }
      var p := EqIndex(index.value, |rows|);
      if p.Some? {
        rows := rows[..p.value] + [row] + rows[p.value..];
      }
    }

    /** The 'add:record' hook. */
    method AddRecord(record: Option<Record>, index: Option<int>)
      modifies this`rows
      ensures rows == Rows.AddRow(old(rows), template, record, index)
    {
      AddRow(record, index);
    }

    /** The 'add:records' hook: records[n] goes in through addRow at
        `n + (index || 0)`, in order. */
    method AddRecords(records: seq<Option<Record>>, index: Option<int>)
      modifies this`rows
      ensures rows == AddAll(old(rows), template, records, StartOf(index))
    {
      var start := StartOf(index);
      for n := 0 to |records|
        invariant rows == AddAll(old(rows), template, records[..n], start)
      {
        assert records[..n + 1][..n] == records[..n];
        AddRow(records[n], Some(start + n));
      }
      assert records[..|records|] == records;
    }

    /** The 'get:records' hook: the records handed to the callback, one per
        row but the last. */
    method GetRecords() returns (records: seq<Record>)
      modifies this`rows
      ensures records == Snapshot(old(rows))
      ensures rows == CacheBelow(old(rows), |records|)
    {
      records := [];
      var n := if rows == [] then 0 else |rows| - 1;
      for i := 0 to n
        invariant rows == CacheBelow(old(rows), i)
        invariant records == Snapshot(old(rows))[..i]
      {
        var rec := SerializeRow(i);
        records := records + [rec];
      }
    }

    /** removeRow, run by the DOMNodeRemoved hook while row i is still in the
        table: a new row is ignored; otherwise its record and index are
        captured for the events of the next tick. */
    method HandleRemove(i: nat)
      requires i < |rows|
      modifies this`rows, this`removals
      ensures rows == if old(rows)[i].isNew then old(rows) else old(rows)[i := Cache(old(rows)[i])]
      ensures removals == old(removals) + Departure(old(rows)[i], i)
    {
      if rows[i].isNew {
        return;
      }
      var rec := SerializeRow(i);
      removals := removals + [Notice(rec, i)];
    }

    /** `.remove()` on row i: the hook runs, then the row leaves the table. */
    method RemoveElement(i: nat)
      requires i < |rows|
      modifies this`rows, this`removals
      ensures rows == RemoveAt(old(rows), i)
      ensures removals == old(removals) + Departure(old(rows)[i], i)
    {
      HandleRemove(i);
      rows := RemoveAt(rows, i);
    }

    /** removeEmptyRows(current): from the row above the last one upwards,
        remove rows while there is one, it is not `current`, and it is empty.
        `current`, when given, is a row above the last one. */
    method RemoveEmptyRows(current: Option<nat>)
      requires current.Some? ==> current.value < |rows| - 1
      modifies this`rows, this`removals
      ensures rows == Prune(old(rows), defaultValues, current).0
      ensures removals == old(removals) + Prune(old(rows), defaultValues, current).1
    {
      WalkIsPrune(rows, defaultValues, current);
      var done := false;
      while !done
        invariant !done ==> Walk(rows, defaultValues, current).0 == Walk(old(rows), defaultValues, current).0
        invariant !done ==> removals + Walk(rows, defaultValues, current).1 == old(removals) + Walk(old(rows), defaultValues, current).1
        invariant done ==> rows == Walk(old(rows), defaultValues, current).0
        invariant done ==> removals == old(removals) + Walk(old(rows), defaultValues, current).1
        decreases |rows|, !done
      {
        // the loop test: a row above the last one, not `current`, and empty (line 223)
        var k := |rows| - 2;
        if k < 0 || current == Some(k) {
          done := true;
        } else {
          ghost var before := rows;
          var empty := IsEmptyRow(k);
          if !empty {
            done := true;
          } else {
            // the row is removed, and the walk looks at the row now above the last one (lines 224-225)
            WalkRemoves(before, defaultValues, current);
            ghost var queued := removals;
            ghost var departure := Departure(rows[k], k);
            RemoveElement(k);
            AppendAssoc(queued, departure, Walk(rows, defaultValues, current).1);
          }
        }
      }
    }

    /** createRecordsAbove on row i: from the row above it upwards, while the
        row has no record, serialize it and trigger its `add` pair. */
    method CreateRecordsAbove(i: nat)
      requires i < |rows|
      modifies this`rows, this`log
      ensures rows == CreateAbove(old(rows), i - 1).0
      ensures log == old(log) + CreateAbove(old(rows), i - 1).1
    {
      var j := i - 1;
      while j >= 0
        invariant -1 <= j < |rows| == |old(rows)|
        invariant CreateAbove(rows, j).0 == CreateAbove(old(rows), i - 1).0
        invariant log + CreateAbove(rows, j).1 == old(log) + CreateAbove(old(rows), i - 1).1
        decreases j + 1
      {
        if HasRecord(rows[j]) {
          return;
        }
        CreateAboveStep(rows, j);
        var rec := SerializeRow(j);
        log := log + Announce(Add, rec, j);
        j := j - 1;
      }
    }

    /** handleInput after the user set input k of row i to v. */
    method HandleInput(i: nat, k: nat, v: string)
      requires i < |rows| && k < |rows[i].fields|
      modifies this`rows, this`log
      ensures rows == Edit(old(rows), i, k, v).0
      ensures log == old(log) + Edit(old(rows), i, k, v).1
    {
      rows := rows[i := Typed(rows[i], k, v)];
      var rec := SerializeRow(i);
      if rows[i].isNew {
        rows := rows[i := rows[i].(isNew := false)];
        assert rows == old(rows)[i := Cache(Typed(old(rows)[i], k, v)).(isNew := false)];
        CreateRecordsAbove(i);
        log := log + Announce(Add, rec, i);
      } else {
        rec := rec[rows[i].fields[k].name := v];
        rows := rows[i := rows[i].(record := Some(rec))];
        log := log + Announce(Update, rec, i);
      }
    }

    /** handleBlur: a new timer is scheduled and its handle overwrites
        removeTimeout; a timer already pending stays pending. */
    method HandleBlur()
      requires Valid()
      modifies this`timers, this`removeTimeout, this`nextTimer
      ensures Valid()
      ensures old(nextTimer) !in old(timers)
      ensures timers == old(timers) + {old(nextTimer)}
      ensures removeTimeout == Some(old(nextTimer))
    {
      timers := timers + {nextTimer};
      removeTimeout := Some(nextTimer);
      nextTimer := nextTimer + 1;
    }

    /** Focus in row c: when c is the last row, handleFocusInLastRow first
        appends a blank row; then handleFocus prunes up to row c and clears
        the timer removeTimeout names. Row c and every row above it come out
        unchanged, and row c is no longer the last row. */
    method HandleFocus(c: nat)
      requires Valid() && c < |rows|
      modifies this`rows, this`removals, this`timers
      ensures Valid()
      ensures rows == Prune(if c == |old(rows)| - 1 then old(rows) + [Blank(template)] else old(rows), defaultValues, Some(c)).0
      ensures removals == old(removals) + Prune(if c == |old(rows)| - 1 then old(rows) + [Blank(template)] else old(rows), defaultValues, Some(c)).1
      ensures c < |rows| - 1 && rows[..c + 1] == old(rows)[..c + 1]
      ensures timers == if removeTimeout.Some? then old(timers) - {removeTimeout.value} else old(timers)
    {
      ghost var grown := if c == |rows| - 1 then rows + [Blank(template)] else rows;
      if c == |rows| - 1 {
        AddRow(None, None);
      }
      assert rows == grown;
      PruneSparesCurrent(rows, defaultValues, c);
      RemoveEmptyRows(Some(c));
      assert grown[..c + 1] == old(rows)[..c + 1];
      if removeTimeout.Some? {
        timers := timers - {removeTimeout.value};
      }
    }

    /** A pending blur timer fires: removeEmptyRows with no current row. */
    method TimerFires(t: nat)
      requires Valid() && t in timers
      modifies this`rows, this`removals, this`timers
      ensures Valid()
      ensures timers == old(timers) - {t}
      ensures rows == Prune(old(rows), defaultValues, None).0
      ensures removals == old(removals) + Prune(old(rows), defaultValues, None).1
    {
      timers := timers - {t};
      RemoveEmptyRows(None);
    }

    /** handleClickOnRemoveButton in row i: the row is removed (through the
        removal hook), then the empty rows at the bottom are pruned. */
    method HandleClickOnRemoveButton(i: nat)
      requires i < |rows|
      modifies this`rows, this`removals
      ensures rows == Prune(RemoveAt(old(rows), i), defaultValues, None).0
      ensures removals == old(removals) + Departure(old(rows)[i], i) + Prune(RemoveAt(old(rows), i), defaultValues, None).1
    {
      RemoveElement(i);
      RemoveEmptyRows(None);
    }

    /** The next tick after a removal: the oldest captured notice is
        triggered as `record:change('remove')` and then `record:remove`. */
    method FireRemoval()
      requires removals != []
      modifies this`log, this`removals
      ensures log == old(log) + Announce(Remove, old(removals)[0].rec, old(removals)[0].index)
      ensures removals == old(removals)[1..]
    {
      var notice := removals[0];
      removals := removals[1..];
      log := log + Announce(Remove, notice.rec, notice.index);
    }
  }

  /** A table element of the page and the instance stored in its
      'bs.editableTable' data. */
  class TableElement {
    var api: EditableTable?

    constructor ()
      ensures api == null
    {
      api := null;
    }

    /** `$(el).editableTable()`: the first call creates the instance from the
        rows in the page and stores it; every later call returns the stored
        one. */
    method EditableTablePlugin(initial: seq<seq<Field>>) returns (t: EditableTable)
      requires api == null ==> initial != []
      modifies this`api
      ensures old(api) != null ==> t == old(api) && api == old(api)
      ensures old(api) == null ==> fresh(t) && api == t && t.Valid() && t.log == []
    {
      if api == null {
        api := new EditableTable(initial);
      }
      t := api;
    }
  }
}
