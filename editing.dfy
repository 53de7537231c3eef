/** What an edit does: handleInput turns the first edit of a new row into an
    `add` (after createRecordsAbove has made records for the untouched rows
    above it) and any other edit into an `update` that writes the raw input
    value into the cached record. */
module Editing {
  import opened Wrappers
  import opened Records
  import opened Rows

  /** hasRecord: the row has a cached record. */
  predicate HasRecord(row: Row)
  {
    row.record.Some?
  }

  /** Where createRecordsAbove, started at row j, stops: the nearest row at or
      above j that has a record, or -1 when it runs off the top. */
  function StopAbove(rows: seq<Row>, j: int): (m: int)
    requires -1 <= j < |rows|
    ensures -1 <= m <= j
    ensures m >= 0 ==> HasRecord(rows[m])
    ensures forall i :: m < i <= j ==> !HasRecord(rows[i])
    decreases j + 1
  {
    if j < 0 || HasRecord(rows[j]) then j else StopAbove(rows, j - 1)
  }

  /** The rows and the triggered events after createRecordsAbove, started at
      row j (the row above the edited one): while the row has no record, its
      serialization is cached and announced as an `add` at its index, and the
      walk moves one row up. */
  function CreateAbove(rows: seq<Row>, j: int): (r: (seq<Row>, seq<Event>))
    requires -1 <= j < |rows|
    ensures |r.0| == |rows|
    decreases j + 1
  {
    if j < 0 || HasRecord(rows[j]) then (rows, [])
    else
      var rest := CreateAbove(rows[j := Cache(rows[j])], j - 1);
      (rest.0, Announce(Add, Serialize(rows[j]), j) + rest.1)
  }

  /** One step of createRecordsAbove: a row without a record is cached and
      announced, and the walk goes on from the row above. */
  lemma CreateAboveStep(rows: seq<Row>, j: int)
    requires 0 <= j < |rows| && !HasRecord(rows[j])
    ensures CreateAbove(rows, j).0 == CreateAbove(rows[j := Cache(rows[j])], j - 1).0
    ensures CreateAbove(rows, j).1 == Announce(Add, Serialize(rows[j]), j) + CreateAbove(rows[j := Cache(rows[j])], j - 1).1
  {
  }

  /** StopAbove only looks at which rows have records. */
  lemma {:induction false} StopAboveAgree(rows: seq<Row>, rows': seq<Row>, j: int)
    requires -1 <= j < |rows| == |rows'|
    requires forall i :: 0 <= i <= j ==> rows[i].record.Some? == rows'[i].record.Some?
    ensures StopAbove(rows, j) == StopAbove(rows', j)
    decreases j + 1
  {
    if j >= 0 && !HasRecord(rows[j]) {
      StopAboveAgree(rows, rows', j - 1);
    }
  }

  /** The records and indices createRecordsAbove, started at row j,
      announces: the rows without a record from j upwards, nearest first. */
  function Visited(rows: seq<Row>, j: int): seq<Notice>
    requires -1 <= j < |rows|
    decreases j + 1
  {
    if j < 0 || HasRecord(rows[j]) then [] else [Notice(Serialize(rows[j]), j)] + Visited(rows, j - 1)
  }

  /** The `change` and kind events for each notice in turn. */
  function AnnounceAll(kind: Kind, notices: seq<Notice>): seq<Event>
  {
    if notices == [] then []
    else Announce(kind, notices[0].rec, notices[0].index) + AnnounceAll(kind, notices[1..])
  }

  /** Each notice gives exactly one `change` event followed by one kind event,
      in the notices' order. */
  lemma {:induction false} AnnounceAllSpec(kind: Kind, notices: seq<Notice>)
    ensures |AnnounceAll(kind, notices)| == 2 * |notices|
    ensures forall t :: 0 <= t < |notices| ==>
      && AnnounceAll(kind, notices)[2 * t] == RecordChange(kind, notices[t].rec, notices[t].index)
      && AnnounceAll(kind, notices)[2 * t + 1] == RecordKind(kind, notices[t].rec, notices[t].index)
  {
    if notices != [] {
      AnnounceAllSpec(kind, notices[1..]);
      forall t | 1 <= t < |notices|
        ensures AnnounceAll(kind, notices)[2 * t] == AnnounceAll(kind, notices[1..])[2 * (t - 1)]
        ensures AnnounceAll(kind, notices)[2 * t + 1] == AnnounceAll(kind, notices[1..])[2 * (t - 1) + 1]
      {
      }
    }
  }

  lemma {:induction false} AnnounceAllAppend(kind: Kind, ns: seq<Notice>, ms: seq<Notice>)
    ensures AnnounceAll(kind, ns + ms) == AnnounceAll(kind, ns) + AnnounceAll(kind, ms)
  {
    if ns == [] {
      assert ns + ms == ms;
    } else {
      assert (ns + ms)[0] == ns[0];
      assert (ns + ms)[1..] == ns[1..] + ms;
      AnnounceAllAppend(kind, ns[1..], ms);
    }
  }

  /** The visited rows are those strictly between the stop row and j, nearest
      first, so their indices strictly decrease. */
  lemma {:induction false} VisitedSpec(rows: seq<Row>, j: int)
    requires -1 <= j < |rows|
    ensures |Visited(rows, j)| == j - StopAbove(rows, j)
    ensures forall t :: 0 <= t < |Visited(rows, j)| ==> Visited(rows, j)[t] == Notice(Serialize(rows[j - t]), j - t)
    decreases j + 1
  {
    if j >= 0 && !HasRecord(rows[j]) {
      VisitedSpec(rows, j - 1);
      var vs := Visited(rows, j);
      forall t | 1 <= t < |vs| ensures vs[t] == Notice(Serialize(rows[j - t]), j - t) {
        assert vs[t] == Visited(rows, j - 1)[t - 1];
      }
    }
  }

  /** Only the rows from j upwards matter to the walk. */
  lemma {:induction false} VisitedAgree(rows: seq<Row>, rows': seq<Row>, j: int)
    requires -1 <= j < |rows| && j < |rows'|
    requires forall i :: 0 <= i <= j ==> rows[i] == rows'[i]
    ensures Visited(rows, j) == Visited(rows', j)
    decreases j + 1
  {
    if j >= 0 && !HasRecord(rows[j]) {
      VisitedAgree(rows, rows', j - 1);
    }
  }

  /** createRecordsAbove triggers exactly the `add` pairs of the visited rows. */
  lemma {:induction false} CreateAboveEvents(rows: seq<Row>, j: int)
    requires -1 <= j < |rows|
    ensures CreateAbove(rows, j).1 == AnnounceAll(Add, Visited(rows, j))
    decreases j + 1
  {
    if j >= 0 && !HasRecord(rows[j]) {
      var rows' := rows[j := Cache(rows[j])];
      CreateAboveEvents(rows', j - 1);
      VisitedAgree(rows, rows', j - 1);
    }
  }

  /** createRecordsAbove caches the records of exactly the visited rows and
      leaves every other row as it was. */
  lemma {:induction false} CreateAboveRows(rows: seq<Row>, j: int)
    requires -1 <= j < |rows|
    ensures forall i :: 0 <= i < |rows| && StopAbove(rows, j) < i <= j ==> CreateAbove(rows, j).0[i] == Cache(rows[i])
    ensures forall i :: 0 <= i < |rows| && !(StopAbove(rows, j) < i <= j) ==> CreateAbove(rows, j).0[i] == rows[i]
    decreases j + 1
  {
    if j >= 0 && !HasRecord(rows[j]) {
      var rows' := rows[j := Cache(rows[j])];
      CreateAboveRows(rows', j - 1);
      StopAboveAgree(rows, rows', j - 1);
    }
  }

  /** createRecordsAbove never clears or sets isNew and never changes a row's
      inputs; it only caches records. */
  lemma {:induction false} CreateAboveKeepsFlags(rows: seq<Row>, j: int)
    requires -1 <= j < |rows|
    ensures forall i :: 0 <= i < |rows| ==>
      && CreateAbove(rows, j).0[i].isNew == rows[i].isNew
      && CreateAbove(rows, j).0[i].fields == rows[i].fields
      && (rows[i].record.Some? ==> CreateAbove(rows, j).0[i] == rows[i])
    decreases j + 1
  {
    if j >= 0 && !HasRecord(rows[j]) {
      CreateAboveKeepsFlags(rows[j := Cache(rows[j])], j - 1);
    }
  }

  /** The row after the user set its input k to v. */
  function Typed(row: Row, k: nat, v: string): Row
    requires k < |row.fields|
  {
    row.(fields := row.fields[k := row.fields[k].(value := v)])
  }

  /** The rows and the triggered events after handleInput on input k of row
      i, which now holds v. The row is serialized (a cached record is
      returned as is, otherwise the inputs, v among them, are read trimmed and
      cached). A new row loses its isNew flag, the rows above it get records
      from createRecordsAbove, and the row is announced as an `add`;
      otherwise the untrimmed v is written under the input's name into the
      cached record, which is announced as an `update`. */
  function Edit(rows: seq<Row>, i: nat, k: nat, v: string): (r: (seq<Row>, seq<Event>))
    requires i < |rows| && k < |rows[i].fields|
    ensures |r.0| == |rows|
    ensures |r.1| >= 2
  {
    var typed := Typed(rows[i], k, v);
    var rec := Serialize(typed);
    if typed.isNew then
      var above := CreateAbove(rows[i := Cache(typed).(isNew := false)], i - 1);
      (above.0, above.1 + Announce(Add, rec, i))
    else
      var updated := rec[typed.fields[k].name := v];
      (rows[i := typed.(record := Some(updated))], Announce(Update, updated, i))
  }

  /** After any edit the row is no longer new, holds a record and shows what
      was typed; no row is added or removed. */
  lemma EditedRow(rows: seq<Row>, i: nat, k: nat, v: string)
    requires i < |rows| && k < |rows[i].fields|
    ensures |Edit(rows, i, k, v).0| == |rows|
    ensures !Edit(rows, i, k, v).0[i].isNew && HasRecord(Edit(rows, i, k, v).0[i])
    ensures Edit(rows, i, k, v).0[i].fields == Typed(rows[i], k, v).fields
  {
    if rows[i].isNew {
      CreateAboveRows(rows[i := Cache(Typed(rows[i], k, v)).(isNew := false)], i - 1);
    }
  }

  /** The first edit of a new row: every row below it is untouched, the rows
      above it up to the nearest one with a record get their records cached
      (keeping isNew), the row itself is cached and loses isNew, and the
      events are the `add` pairs of the visited rows, nearest first, followed
      by the row's own `add` with its serialization at its index. */
  lemma EditNewRow(rows: seq<Row>, i: nat, k: nat, v: string)
    requires i < |rows| && k < |rows[i].fields| && rows[i].isNew
    ensures forall x :: i < x < |rows| ==> Edit(rows, i, k, v).0[x] == rows[x]
    ensures Edit(rows, i, k, v).0[i] == Cache(Typed(rows[i], k, v)).(isNew := false)
    ensures forall x :: StopAbove(rows, i - 1) < x < i ==> Edit(rows, i, k, v).0[x] == Cache(rows[x])
    ensures forall x :: 0 <= x <= StopAbove(rows, i - 1) ==> Edit(rows, i, k, v).0[x] == rows[x]
    ensures Edit(rows, i, k, v).1 == AnnounceAll(Add, Visited(rows, i - 1) + [Notice(Serialize(Typed(rows[i], k, v)), i)])
    ensures Edit(rows, i, k, v).1[|Edit(rows, i, k, v).1| - 2..] == Announce(Add, Serialize(Typed(rows[i], k, v)), i)
  {
    var typed := Typed(rows[i], k, v);
    var rows' := rows[i := Cache(typed).(isNew := false)];
    CreateAboveRows(rows', i - 1);
    StopAboveAgree(rows, rows', i - 1);
    CreateAboveEvents(rows', i - 1);
    VisitedAgree(rows, rows', i - 1);
    var own := Notice(Serialize(typed), i);
    AnnounceAllAppend(Add, Visited(rows, i - 1), [own]);
    assert AnnounceAll(Add, [own]) == Announce(Add, own.rec, i);
  }

  /** With the rows above the edited new row i all new and without records,
      the events run i - 1, i - 2, ..., 0 and then i: nearest row first, the
      edited row last. */
  lemma EditAnnouncesNearestFirst(rows: seq<Row>, i: nat, k: nat, v: string)
    requires i < |rows| && k < |rows[i].fields| && rows[i].isNew
    requires forall x :: 0 <= x < i ==> !HasRecord(rows[x])
    ensures |Edit(rows, i, k, v).1| == 2 * i + 2
    ensures forall t :: 0 <= t < i ==>
      Edit(rows, i, k, v).1[2 * t] == RecordChange(Add, Serialize(rows[i - 1 - t]), i - 1 - t)
      && Edit(rows, i, k, v).1[2 * t + 1] == RecordKind(Add, Serialize(rows[i - 1 - t]), i - 1 - t)
    ensures Edit(rows, i, k, v).1[2 * i].index == i && Edit(rows, i, k, v).1[2 * i + 1].index == i
  {
    EditNewRow(rows, i, k, v);
    VisitedSpec(rows, i - 1);
    var ns := Visited(rows, i - 1) + [Notice(Serialize(Typed(rows[i], k, v)), i)];
    AnnounceAllSpec(Add, ns);
    assert |Visited(rows, i - 1)| == i;
    forall t | 0 <= t < i ensures ns[t] == Notice(Serialize(rows[i - 1 - t]), i - 1 - t) {
      assert ns[t] == Visited(rows, i - 1)[t];
    }
    assert ns[i].index == i;
  }

  /** Three untouched new rows above the entry row: editing the third one
      announces row 1, then row 0, then row 2. */
  lemma EditThirdOfThreeRows(template: seq<Field>, rows: seq<Row>, k: nat, v: string)
    requires |rows| == 4 && rows[0] == rows[1] == rows[2] == Blank(template) && k < |template|
    ensures |Edit(rows, 2, k, v).1| == 6
    ensures Edit(rows, 2, k, v).1[0].index == Edit(rows, 2, k, v).1[1].index == 1
    ensures Edit(rows, 2, k, v).1[2].index == Edit(rows, 2, k, v).1[3].index == 0
    ensures Edit(rows, 2, k, v).1[4].index == Edit(rows, 2, k, v).1[5].index == 2
  {
    assert forall x :: 0 <= x < 2 ==> !HasRecord(rows[x]);
    EditAnnouncesNearestFirst(rows, 2, k, v);
    var ev := Edit(rows, 2, k, v).1;
    assert ev[2 * 0].index == 1 && ev[2 * 0 + 1].index == 1;
    assert ev[2 * 1].index == 0 && ev[2 * 1 + 1].index == 0;
  }

  /** An edit of a row that is not new: only that row changes; its cached
      record (or, with none, the serialization of its inputs) gets the raw,
      untrimmed value under the input's name and keeps every other key, and
      exactly one `update` pair carries that record and the row's index. */
  lemma EditExistingRow(rows: seq<Row>, i: nat, k: nat, v: string)
    requires i < |rows| && k < |rows[i].fields| && !rows[i].isNew
    ensures forall x :: 0 <= x < |rows| && x != i ==> Edit(rows, i, k, v).0[x] == rows[x]
    ensures Edit(rows, i, k, v).1 == Announce(Update, Edit(rows, i, k, v).0[i].record.value, i)
    ensures rows[i].fields[k].name in Edit(rows, i, k, v).0[i].record.value
    ensures Edit(rows, i, k, v).0[i].record.value[rows[i].fields[k].name] == v
    ensures forall n :: n != rows[i].fields[k].name ==>
      (n in Edit(rows, i, k, v).0[i].record.value <==> n in Serialize(Typed(rows[i], k, v)))
    ensures forall n :: n != rows[i].fields[k].name && n in Serialize(Typed(rows[i], k, v)) ==>
      Edit(rows, i, k, v).0[i].record.value[n] == Serialize(Typed(rows[i], k, v))[n]
    ensures rows[i].record.Some? ==> Serialize(Typed(rows[i], k, v)) == rows[i].record.value
  {
  }

  /** The first edit of a row adds it; every later edit of it updates. */
  lemma FirstEditAddsThenUpdates(rows: seq<Row>, i: nat, k: nat, v: string, k': nat, v': string)
    requires i < |rows| && k < |rows[i].fields| && rows[i].isNew
    requires k' < |rows[i].fields|
    ensures Edit(rows, i, k, v).1[|Edit(rows, i, k, v).1| - 1].kind == Add
    ensures k' < |Edit(rows, i, k, v).0[i].fields|
    ensures Edit(Edit(rows, i, k, v).0, i, k', v').1 == Announce(Update, Serialize(Edit(Edit(rows, i, k, v).0, i, k', v').0[i]), i)
  {
    EditNewRow(rows, i, k, v);
  }

  /** A new row without a record directly above the edited new row gets an
      `add` for its current inputs and keeps its isNew flag; when it is then
      edited itself it is announced as an `add` a second time, carrying the
      record cached on the first pass rather than what was just typed. */
  lemma TabbedOverRowAddedTwice(rows: seq<Row>, i: nat, k: nat, v: string, after: seq<Row>, k': nat, v': string)
    requires 0 < i < |rows| && k < |rows[i].fields| && rows[i].isNew
    requires rows[i - 1].isNew && rows[i - 1].record.None? && k' < |rows[i - 1].fields|
    requires after == Edit(rows, i, k, v).0
    ensures Edit(rows, i, k, v).1[..2] == Announce(Add, Serialized(rows[i - 1].fields), i - 1)
    ensures after[i - 1] == Cache(rows[i - 1]) && after[i - 1].isNew
    ensures Edit(after, i - 1, k', v').1[|Edit(after, i - 1, k', v').1| - 2..]
            == Announce(Add, Serialized(rows[i - 1].fields), i - 1)
  {
    EditNewRow(rows, i, k, v);
    EditNewRow(after, i - 1, k', v');
  }
}
