# Editable table: the row/record engine

This project models the row/record engine of the `EditableTable` jQuery
plugin (`bootstrap-editable-table.js`). The engine keeps the rows of an HTML
table in step with a list of records. It proves properties of that model in
Dafny.

- Every row carries an `isNew` flag and an optional cached record, which maps
  field names to strings.
- The last row of the table is the entry row. A clone of it, taken at
  start-up, is the template. The template's serialization gives the default
  values that make a row "empty".
- The engine reacts to these events:
  - an edit of an input, which triggers `record:change` and then
    `record:add` or `record:update`;
  - focus in a row, which appends a blank row when focus lands in the last
    row, and then prunes empty rows at the bottom;
  - blur, which schedules a prune;
  - a click on a remove button;
  - a row leaving the document, which queues `record:change('remove')` and
    `record:remove` for the next tick.
- It also answers three commands: `add:record`, `add:records` and
  `get:records`.

The model is split into modules:

- `Wrappers`: the `Option` type.
- `Records` (`records.dfy`):
  - `String.prototype.trim`;
  - serializing a row's named inputs into a record;
  - the emptiness test against the defaults;
  - filling a template clone from a record.
- `Rows` (`rows.dfy`):
  - the row, event and notice datatypes;
  - `serializeRow`'s caching;
  - `addRow`, `addRecords` and `getRecords` as functions on the sequence of rows.
- `Pruning` (`pruning.dfy`): `removeEmptyRows`. It is defined twice:
  - `Prune` is a reference definition that walks the rows above the last one;
  - `Walk` follows the loop step by step.

  `WalkIsPrune` proves the two agree.
- `Editing` (`editing.dfy`): `createRecordsAbove` and `handleInput` as
  functions returning the new rows and the events triggered.
- `Table` (`table.dfy`):
  - the class `EditableTable`, whose methods change the rows, the event log,
    the queue of pending removal notices and the blur timers in place;
  - the class `TableElement`, holding the instance the plugin stores on the
    element.

  Most methods are proved equal to the specification function of their
  operation, and the lemmas about those functions carry the properties.
  `HandleBlur`, `FireRemoval`, the constructor and
  `TableElement.EditableTablePlugin` have no specification function: their
  contracts give the new state directly.

Rows are identified by their index in the table. A row's inputs are a
sequence of `Field(name, value)`. A record passed to `addRow` may be absent
(`None`), which stands for the source's falsy record.

## Model

| member | source | states |
|---|---|---|
| Records.TrimStartSpec | bower_components/bootstrap-editable-table/bootstrap-editable-table.js:244 | trimming the start keeps a suffix, drops only white space, and leaves no white space at the front |
| Records.TrimEndSpec | bower_components/bootstrap-editable-table/bootstrap-editable-table.js:244 | trimming the end keeps a prefix, drops only white space, and leaves no white space at the back |
| Records.TrimSpec | bower_components/bootstrap-editable-table/bootstrap-editable-table.js:244 | `trim` keeps a contiguous piece of the value, cut only at white space, with none left at either end; trimming twice is trimming once |
| Records.SerializedKeys | bower_components/bootstrap-editable-table/bootstrap-editable-table.js:241-245 | a serialized record has exactly one key per input name |
| Records.SerializedValues | bower_components/bootstrap-editable-table/bootstrap-editable-table.js:242-245 | each name maps to the trimmed value of the last input carrying that name |
| Records.BuildRecord | bower_components/bootstrap-editable-table/bootstrap-editable-table.js:241-245 | the `.each` loop over the inputs builds exactly the serialized record |
| Records.MatchesDefaults | bower_components/bootstrap-editable-table/bootstrap-editable-table.js:205-211 | the loop over the defaults returns true exactly when every default key is in the record with the identical value |
| Records.EmptinessIsExactMatch | bower_components/bootstrap-editable-table/bootstrap-editable-table.js:201-212 | moving one default field off its default, or dropping a default key, makes an empty record non-empty; restoring the default, or adding a key the defaults lack, keeps it empty |
| Records.FillFields | bower_components/bootstrap-editable-table/bootstrap-editable-table.js:185-188 | each input of the clone keeps its name and gets `record[name]`, or `''` when the record has no such key |
| Records.PopulatedRoundTrip | bower_components/bootstrap-editable-table/bootstrap-editable-table.js:185-188 | reading back the inputs of a row filled from a record gives one key per template name, holding the trimmed value the record supplied, or `''` |
| Rows.SerializeCaches | bower_components/bootstrap-editable-table/bootstrap-editable-table.js:234-249 | a cached record is returned unchanged and nothing changes; otherwise the trimmed inputs are read and cached; isNew and the inputs are untouched; a second call returns the identical record and changes nothing |
| Rows.EqIndex | bower_components/bootstrap-editable-table/bootstrap-editable-table.js:194 | `.eq` selects a row exactly when `-len <= index < len`, and a negative index counts from the end |
| Rows.AddBlankRow | bower_components/bootstrap-editable-table/bootstrap-editable-table.js:179-182 | without a record, addRow appends exactly one row at the end, flagged isNew, with no record and the template's inputs; every other row is unchanged |
| Rows.AddPopulatedRow | bower_components/bootstrap-editable-table/bootstrap-editable-table.js:184-194 | with a record, addRow inserts one row just before the last row (no index) or just before the row at `index`; the row is not new, caches the supplied record and shows `record[name] \|\| ''` in each input; the rows around it are unchanged |
| Rows.AddAllInOrder | bower_components/bootstrap-editable-table/bootstrap-editable-table.js:149-155 | when every record is present, addRecords from a start inside the table puts the records in order at consecutive positions from the start, and shifts the rows that were there down behind them |
| Rows.AddAllPastEnd | bower_components/bootstrap-editable-table/bootstrap-editable-table.js:149-155 | when every record is present, addRecords from a start at or past the end of the table changes nothing |
| Rows.SnapshotSpec | bower_components/bootstrap-editable-table/bootstrap-editable-table.js:160-166 | getRecords yields one record per row except the last, in order, each the row's serialization; caching them changes what a second call returns not at all |
| Rows.AddedRecordsComeBack | bower_components/bootstrap-editable-table/bootstrap-editable-table.js:149-166 | when every record is present, the records put in by addRecords are returned by getRecords at the positions where they were placed |
| Pruning.PruneAbove | bower_components/bootstrap-editable-table/bootstrap-editable-table.js:219-227 | the walk over the rows above the last one never adds a row |
| Pruning.Prune | bower_components/bootstrap-editable-table/bootstrap-editable-table.js:219-227 | removeEmptyRows never adds a row and never removes the last row |
| Pruning.PruneAboveRun | bower_components/bootstrap-editable-table/bootstrap-editable-table.js:223-226 | the walk removes a contiguous run of rows at the bottom, each empty and none `current`; the rows above are kept, and only the lowest kept row may have gained a cached record |
| Pruning.PruneAboveStops | bower_components/bootstrap-editable-table/bootstrap-editable-table.js:223 | the walk stops only at the top, at `current`, or at a row that is not empty |
| Pruning.PruneAboveDepartures | bower_components/bootstrap-editable-table/bootstrap-editable-table.js:224 | the notices the walk queues are exactly those of the rows it removed |
| Pruning.DeparturesSound | bower_components/bootstrap-editable-table/bootstrap-editable-table.js:258-265 | each queued notice is for a removed row that was not new, with that row's serialization and index |
| Pruning.DeparturesComplete | bower_components/bootstrap-editable-table/bootstrap-editable-table.js:258-265 | every removed row that was not new has its notice queued |
| Pruning.DeparturesOrdered | bower_components/bootstrap-editable-table/bootstrap-editable-table.js:223-226 | notices are queued bottom row first, with strictly decreasing indices |
| Pruning.WalkIsPrune | bower_components/bootstrap-editable-table/bootstrap-editable-table.js:219-227 | the loop's step-by-step semantics on the whole table equals the reference walk over the rows above the last one, in rows and in notices |
| Pruning.PruneShape | bower_components/bootstrap-editable-table/bootstrap-editable-table.js:219-227 | the last row is kept; the rows above the lowest kept row are unchanged; the removed rows are a contiguous run above the last row, each empty and none `current`; the walk stopped at the top, at `current`, or at a non-empty row |
| Pruning.PruneNotices | bower_components/bootstrap-editable-table/bootstrap-editable-table.js:219-227 | one notice per removed row that was not new, with its record and index, bottom row first, and none other |
| Pruning.PruneSparesCurrent | bower_components/bootstrap-editable-table/bootstrap-editable-table.js:223 | a `current` row above the last one is never removed, and it and every row above it come out unchanged |
| Editing.StopAbove | bower_components/bootstrap-editable-table/bootstrap-editable-table.js:282-285 | createRecordsAbove stops at the nearest row at or above its start that has a record, or at the top; no row in between has a record |
| Editing.CreateAbove | bower_components/bootstrap-editable-table/bootstrap-editable-table.js:277-293 | createRecordsAbove adds and removes no row |
| Editing.VisitedSpec | bower_components/bootstrap-editable-table/bootstrap-editable-table.js:280-291 | the rows visited are those from the start up to the stopping row, nearest first, each with its serialization and its index, the index going down by one each step |
| Editing.AnnounceAllSpec | bower_components/bootstrap-editable-table/bootstrap-editable-table.js:288-289 | each visited row yields `record:change('add')` and then `record:add` with the same record and index, in visiting order |
| Editing.CreateAboveEvents | bower_components/bootstrap-editable-table/bootstrap-editable-table.js:280-291 | the events of createRecordsAbove are the `add` pairs of the visited rows, nearest first |
| Editing.CreateAboveRows | bower_components/bootstrap-editable-table/bootstrap-editable-table.js:282-291 | the visited rows get their serialization cached; the rows above the stopping row and below the start are unchanged |
| Editing.CreateAboveKeepsFlags | bower_components/bootstrap-editable-table/bootstrap-editable-table.js:277-293 | createRecordsAbove never changes an isNew flag or an input |
| Editing.Edit | bower_components/bootstrap-editable-table/bootstrap-editable-table.js:110-127 | an edit adds and removes no row and always triggers at least one pair of events |
| Editing.EditedRow | bower_components/bootstrap-editable-table/bootstrap-editable-table.js:110-127 | after any edit the row is no longer new, holds a record and shows what was typed |
| Editing.EditNewRow | bower_components/bootstrap-editable-table/bootstrap-editable-table.js:114-126 | first edit of a new row: the rows below are unchanged; the rows above, up to the nearest with a record, are cached with isNew kept; the row is cached and loses isNew; the events are the visited rows' `add` pairs, then the row's own `add` pair with its serialization and index |
| Editing.EditAnnouncesNearestFirst | bower_components/bootstrap-editable-table/bootstrap-editable-table.js:118-126 | with no record above a new row i, the events carry indices i-1, i-2, ..., 0 and then i, each as a change and a kind event |
| Editing.EditThirdOfThreeRows | bower_components/bootstrap-editable-table/bootstrap-editable-table.js:277-293 | three untouched rows above the entry row, then typing into the third: the `add` pairs come for rows 1, 0, 2 in that order |
| Editing.EditExistingRow | bower_components/bootstrap-editable-table/bootstrap-editable-table.js:121-126 | an edit of a row that is not new changes only that row; its record gets the raw, untrimmed value under the input's name and keeps every other key; exactly one `update` pair carries that record and the index |
| Editing.FirstEditAddsThenUpdates | bower_components/bootstrap-editable-table/bootstrap-editable-table.js:115-126 | the first edit of a new row announces an `add`, and the next edit of the same row is exactly one `update` pair |
| Editing.TabbedOverRowAddedTwice | bower_components/bootstrap-editable-table/bootstrap-editable-table.js:277-293 | a new row without a record directly above an edited new row gets an `add` and keeps isNew; its own first edit then announces a second `add`, with the record cached earlier rather than what was typed |
| Table.EditableTable.constructor | bower_components/bootstrap-editable-table/bootstrap-editable-table.js:33-37 | the last row is flagged isNew, the template is its inputs, and the defaults are the template's serialization; nothing is logged, queued or scheduled |
| Table.EditableTable.SerializeRow | bower_components/bootstrap-editable-table/bootstrap-editable-table.js:234-249 | returns the row's serialization and caches it on that row only |
| Table.EditableTable.IsEmptyRow | bower_components/bootstrap-editable-table/bootstrap-editable-table.js:201-212 | true exactly when the row's serialization matches the defaults; the serialization is cached on the row |
| Table.EditableTable.AddRow | bower_components/bootstrap-editable-table/bootstrap-editable-table.js:176-195 | the rows become those of the addRow specification |
| Table.EditableTable.AddRecord | bower_components/bootstrap-editable-table/bootstrap-editable-table.js:142-144 | the `add:record` hook is addRow, and it triggers no event |
| Table.EditableTable.AddRecords | bower_components/bootstrap-editable-table/bootstrap-editable-table.js:149-155 | the forEach loop yields the rows of addRow applied to each record in turn at `index \|\| 0` plus its position; no event |
| Table.EditableTable.GetRecords | bower_components/bootstrap-editable-table/bootstrap-editable-table.js:160-166 | the loop returns the snapshot of every row but the last, and caches each of those rows |
| Table.EditableTable.HandleRemove | bower_components/bootstrap-editable-table/bootstrap-editable-table.js:255-271 | a new row is ignored; otherwise its record, now cached, and its index are queued for the next tick |
| Table.EditableTable.RemoveElement | bower_components/bootstrap-editable-table/bootstrap-editable-table.js:132-134 | removing a row runs the removal hook on it and then takes it out of the table |
| Table.EditableTable.RemoveEmptyRows | bower_components/bootstrap-editable-table/bootstrap-editable-table.js:219-227 | the while loop leaves the rows and the queued notices of the pruning specification |
| Table.EditableTable.CreateRecordsAbove | bower_components/bootstrap-editable-table/bootstrap-editable-table.js:277-293 | the while loop leaves the rows and appends the events of the createRecordsAbove specification |
| Table.EditableTable.HandleInput | bower_components/bootstrap-editable-table/bootstrap-editable-table.js:110-127 | the handler leaves the rows and appends the events of the edit specification |
| Table.EditableTable.HandleBlur | bower_components/bootstrap-editable-table/bootstrap-editable-table.js:60-62 | a fresh timer is scheduled and becomes removeTimeout; a timer already pending stays pending |
| Table.EditableTable.HandleFocus | bower_components/bootstrap-editable-table/bootstrap-editable-table.js:89-101 | focus in the last row first appends a blank row; the rows are then pruned with the focused row as `current`, so that row and all rows above it are unchanged and it is no longer last; the timer named by removeTimeout is cleared |
| Table.EditableTable.TimerFires | bower_components/bootstrap-editable-table/bootstrap-editable-table.js:61 | a pending blur timer fires once and prunes with no current row |
| Table.EditableTable.HandleClickOnRemoveButton | bower_components/bootstrap-editable-table/bootstrap-editable-table.js:68-73 | the clicked row is removed, with its notice queued, and then the rows are pruned with no current row |
| Table.EditableTable.FireRemoval | bower_components/bootstrap-editable-table/bootstrap-editable-table.js:267-270 | the oldest queued notice is triggered as `record:change('remove')` and then `record:remove`, with the captured record and index, and leaves the queue |
| Table.TableElement.EditableTablePlugin | bower_components/bootstrap-editable-table/bootstrap-editable-table.js:309-316 | the first call creates and stores a new instance; every later call returns the stored one |

## Behaviour worth knowing

- `createRecordsAbove` (lines 280-291) walks upwards from the row above the
  edited one and triggers the `add` pairs nearest row first. The edited row's
  own pair comes last (lines 125-126). With three untouched rows above the
  entry row, typing into the third triggers `add` for row 1, then row 0,
  then row 2 (`Editing.EditThirdOfThreeRows`).
- `createRecordsAbove` never clears `isNew` on the rows it gives records to
  (lines 282-291). The first edit of such a row therefore triggers a second
  `add` (lines 114-120). That `add` carries the record cached earlier, not the
  value just typed (`Editing.TabbedOverRowAddedTwice`).
- `isEmptyRow` compares only the keys of the defaults (lines 205-209). A key
  that only the row has does not make the row non-empty.
- `getRecords` serializes every row but the last (line 162), new rows that
  were never edited among them.
- `addRow` with an index inserts before the row `.eq(index)` selects
  (line 194). A negative index counts from the end. An index outside the
  table selects no row, so nothing is inserted.
- `handleBlur` stores the new timer handle in `removeTimeout` and leaves any
  timer already pending (line 61). After two blurs two timers are pending,
  and a focus clears only the second (line 100).

## Left out

- Rows.AddAllInOrder, Rows.AddAllPastEnd and Rows.AddedRecordsComeBack cover
  only record lists in which every record is present. An absent (falsy)
  record makes addRow ignore the index and append a blank new row at the end
  (lines 179-181, `Rows.AddBlankRow`). The positions of the records after it
  then shift, and these lemmas do not describe that mix.

- `moment.parseFormat.js` and the browser test are not part of this model.
- Event registration (lines 39-49), `handleClick` (lines 79-83) and the
  document-level data-api handler (lines 329-332) are DOM plumbing. They are
  not modelled. The handlers are methods that are called directly.
- Time is not modelled. A blur timer is a handle in a set, and its firing is
  the method `TimerFires`. The next-tick removal events are a FIFO queue,
  delivered one notice at a time by `FireRemoval`.
- `api[option]` calls with a string option (lines 317-319) are not modelled,
  since the instance exposes no methods.
- Inputs without a `name`, and elements other than named inputs, are not
  modelled.
- Object identity of records is not modelled. The source's update writes into
  the very object an earlier listener received. The model's records are
  values.
- jQuery's data cleanup on `.remove()` is not modelled. Row data is taken to
  be intact when the removal hook runs.
- Table.EditableTable.constructor requires at least one row in the table
  body. The source would clone an empty selection.
- Table.EditableTable.RemoveEmptyRows requires `current`, when given, to be
  above the last row. A `current` that is the last row, with a template that
  has no named inputs, would make the source loop forever. Every caller in
  the source meets this requirement, because handleFocusInLastRow appends a
  row first.
- `addRecords` with a value that is not an array is not modelled. The records
  are a sequence.
