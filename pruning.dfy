/** removeEmptyRows: the walk from the row above the last one upwards that
    removes rows matching the template, and the removal notices the
    DOMNodeRemoved hook (removeRow) queues for them. */
module Pruning {
  import opened Wrappers
  import opened Records
  import opened Rows

  /** The rows once row k has left the table. */
  function RemoveAt(rows: seq<Row>, k: nat): seq<Row>
    requires k < |rows|
  {
    rows[..k] + rows[k + 1..]
  }

  /** removeRow's bookkeeping for the row at `index`: nothing for a row that
      is still new, otherwise one notice with its record and index. */
  function Departure(row: Row, index: nat): seq<Notice>
  {
    if row.isNew then [] else [Notice(Serialize(row), index)]
  }

  /** The rows above the last one, and the queued removal notices, after
      removeEmptyRows(current). The walk looks at the bottom row of `above`;
      it stops when there is none, when it is `current`, or when it is not
      empty (having cached its record through isEmptyRow); otherwise that row
      is removed, which runs removeRow on it, and the walk goes on upwards. */
  ghost function PruneAbove(above: seq<Row>, defaults: Record, current: Option<nat>): (r: (seq<Row>, seq<Notice>))
    ensures |r.0| <= |above|
    decreases |above|
  {
    if above == [] || current == Some(|above| - 1) then (above, [])
    else
      var k := |above| - 1;
      if !IsEmptyRecord(defaults, Serialize(above[k])) then (above[..k] + [Cache(above[k])], [])
      else
        var rest := PruneAbove(above[..k], defaults, current);
        (rest.0, Departure(above[k], k) + rest.1)
  }

  /** The rows above the last one that survive the walk. */
  ghost function Kept(above: seq<Row>, defaults: Record, current: Option<nat>): seq<Row>
  {
    PruneAbove(above, defaults, current).0
  }

  /** The removal notices the walk queues. */
  ghost function Queued(above: seq<Row>, defaults: Record, current: Option<nat>): seq<Notice>
  {
    PruneAbove(above, defaults, current).1
  }

  /** The steps of the walk, one row at a time: it ends at the top or at
      `current` with nothing changed, ends at a row that is not empty with
      that row's record cached, and otherwise removes an empty row and goes
      on above it. */
  lemma PruneAboveStep(above: seq<Row>, defaults: Record, current: Option<nat>)
    ensures above == [] || current == Some(|above| - 1) ==>
      Kept(above, defaults, current) == above && Queued(above, defaults, current) == []
    ensures above != [] && current != Some(|above| - 1) && !IsEmpty(defaults, above[|above| - 1]) ==>
      && Kept(above, defaults, current) == above[..|above| - 1] + [Cache(above[|above| - 1])]
      && Queued(above, defaults, current) == []
    ensures above != [] && current != Some(|above| - 1) && IsEmpty(defaults, above[|above| - 1]) ==>
      && Kept(above, defaults, current) == Kept(above[..|above| - 1], defaults, current)
      && Queued(above, defaults, current) == Departure(above[|above| - 1], |above| - 1) + Queued(above[..|above| - 1], defaults, current)
  {
  }

  /** removeEmptyRows(current) on the whole table: the last row is never
      looked at. */
  ghost function Prune(rows: seq<Row>, defaults: Record, current: Option<nat>): (r: (seq<Row>, seq<Notice>))
    ensures |r.0| <= |rows|
    ensures rows != [] ==> 1 <= |r.0| && r.0[|r.0| - 1] == rows[|rows| - 1]
  {
    if rows == [] then (rows, [])
    else (Kept(rows[..|rows| - 1], defaults, current) + [rows[|rows| - 1]], Queued(rows[..|rows| - 1], defaults, current))
  }

  /** Pruning removes a contiguous run of rows from the bottom of `above`: the
      rows above the run stay, only the row the walk stopped at may have got
      its record cached (and only when it is not empty), and every removed row
      was empty and was not `current`. */
  lemma {:induction false} PruneAboveRun(above: seq<Row>, defaults: Record, current: Option<nat>)
    ensures forall i :: 0 <= i < |Kept(above, defaults, current)| - 1 ==> Kept(above, defaults, current)[i] == above[i]
    ensures |Kept(above, defaults, current)| >= 1 ==>
      var m := |Kept(above, defaults, current)| - 1;
      || Kept(above, defaults, current)[m] == above[m]
      || (Kept(above, defaults, current)[m] == Cache(above[m]) && current != Some(m) && !IsEmpty(defaults, above[m]))
    ensures forall i :: |Kept(above, defaults, current)| <= i < |above| ==> current != Some(i) && IsEmpty(defaults, above[i])
  {
    if above != [] && current != Some(|above| - 1) {
      var k := |above| - 1;
      if IsEmptyRecord(defaults, Serialize(above[k])) {
        PruneAboveRun(above[..k], defaults, current);
      }
    }
  }

  /** The walk stops at a row that is not empty, at `current`, or at the top
      of the table. */
  lemma {:induction false} PruneAboveStops(above: seq<Row>, defaults: Record, current: Option<nat>)
    ensures |Kept(above, defaults, current)| == 0
            || current == Some(|Kept(above, defaults, current)| - 1)
            || !IsEmpty(defaults, above[|Kept(above, defaults, current)| - 1])
  {
    if above != [] && current != Some(|above| - 1) {
      var k := |above| - 1;
      if IsEmptyRecord(defaults, Serialize(above[k])) {
        PruneAboveStops(above[..k], defaults, current);
      }
    }
  }

  /** The notices removeRow queues when the rows from `m` to the bottom of
      `above` are removed one by one, bottom row first. */
  function Departures(above: seq<Row>, m: nat): seq<Notice>
    requires m <= |above|
    decreases |above|
  {
    if |above| == m then []
    else
      var k := |above| - 1;
      Departure(above[k], k) + Departures(above[..k], m)
  }

  /** The walk's notices are those of the rows it removed. */
  lemma {:induction false} PruneAboveDepartures(above: seq<Row>, defaults: Record, current: Option<nat>)
    ensures Queued(above, defaults, current) == Departures(above, |Kept(above, defaults, current)|)
  {
    if above != [] && current != Some(|above| - 1) {
      var k := |above| - 1;
      if IsEmptyRecord(defaults, Serialize(above[k])) {
        PruneAboveDepartures(above[..k], defaults, current);
      }
    }
  }

  /** Each departure notice is for a removed row that was not new, with that
      row's record and index. */
  lemma {:induction false} DeparturesSound(above: seq<Row>, m: nat)
    requires m <= |above|
    ensures forall q :: 0 <= q < |Departures(above, m)| ==>
      && m <= Departures(above, m)[q].index < |above|
      && !above[Departures(above, m)[q].index].isNew
      && Departures(above, m)[q].rec == Serialize(above[Departures(above, m)[q].index])
  {
    if |above| != m {
      var k := |above| - 1;
      var rest := Departures(above[..k], m);
      DeparturesSound(above[..k], m);
      assert forall q :: 0 <= q < |rest| ==> above[..k][rest[q].index] == above[rest[q].index];
    }
  }

  /** Every removed row that was not new has its notice. */
  lemma {:induction false} DeparturesComplete(above: seq<Row>, m: nat, i: nat)
    requires m <= i < |above| && !above[i].isNew
    ensures Notice(Serialize(above[i]), i) in Departures(above, m)
  {
    var k := |above| - 1;
    if i < k {
      DeparturesComplete(above[..k], m, i);
      assert above[..k][i] == above[i];
    }
  }

  /** Departure notices come bottom row first: their indices strictly
      decrease. */
  lemma {:induction false} DeparturesOrdered(above: seq<Row>, m: nat)
    requires m <= |above|
    ensures forall q, q' :: 0 <= q < q' < |Departures(above, m)| ==>
              Departures(above, m)[q].index > Departures(above, m)[q'].index
  {
    if |above| != m {
      var k := |above| - 1;
      DeparturesOrdered(above[..k], m);
      DeparturesSound(above[..k], m);
    }
  }

  /** The test of removeEmptyRows' loop (line 223): there is a row above the
      last one, it is not `current`, and it is empty. */
  ghost predicate Removable(rows: seq<Row>, defaults: Record, current: Option<nat>)
  {
    |rows| >= 2 && current != Some(|rows| - 2) && IsEmpty(defaults, rows[|rows| - 2])
  }

  /** removeEmptyRows' loop on the whole table, step by step as the code
      runs it: stop when there is no row above the last one or it is
      `current`; otherwise isEmptyRow caches that row's record, and the loop
      stops if it is not empty, or else removes it (removeRow queuing its
      notice) and tests again. Walk exists only to connect the method's loop
      to Prune: the loop invariants speak of Walk, and WalkIsPrune shows it
      gives the same rows and notices as Prune, which the lemmas describe. */
  ghost function Walk(rows: seq<Row>, defaults: Record, current: Option<nat>): (r: (seq<Row>, seq<Notice>))
    decreases |rows|
  {
    if |rows| < 2 || current == Some(|rows| - 2) then (rows, [])
    else
      var k := |rows| - 2;
      var looked := rows[k := Cache(rows[k])];
      if !IsEmpty(defaults, rows[k]) then (looked, [])
      else
        var rest := Walk(RemoveAt(looked, k), defaults, current);
        (rest.0, Departure(looked[k], k) + rest.1)
  }

  /** Regrouping a concatenation of notice queues. */
  lemma AppendAssoc(a: seq<Notice>, b: seq<Notice>, c: seq<Notice>)
    ensures a + (b + c) == (a + b) + c
  {
  }

  /** One removal step of the walk. */
  lemma WalkRemoves(rows: seq<Row>, defaults: Record, current: Option<nat>)
    requires Removable(rows, defaults, current)
    ensures Walk(rows, defaults, current).0 == Walk(RemoveAt(rows[|rows| - 2 := Cache(rows[|rows| - 2])], |rows| - 2), defaults, current).0
    ensures Walk(rows, defaults, current).1 == Departure(Cache(rows[|rows| - 2]), |rows| - 2)
                                                + Walk(RemoveAt(rows[|rows| - 2 := Cache(rows[|rows| - 2])], |rows| - 2), defaults, current).1
  {
  }

  /** Prune in components. */
  lemma PruneParts(rows: seq<Row>, defaults: Record, current: Option<nat>)
    requires rows != []
    ensures Prune(rows, defaults, current).0 == Kept(rows[..|rows| - 1], defaults, current) + [rows[|rows| - 1]]
    ensures Prune(rows, defaults, current).1 == Queued(rows[..|rows| - 1], defaults, current)
  {
  }

  /** The removal step of the walk agrees with the removal step of
      PruneAbove. */
  lemma WalkRemovalAgrees(rows: seq<Row>, defaults: Record, current: Option<nat>)
    requires Removable(rows, defaults, current)
    ensures var next := RemoveAt(rows[|rows| - 2 := Cache(rows[|rows| - 2])], |rows| - 2);
      && next != []
      && Prune(rows, defaults, current).0 == Prune(next, defaults, current).0
      && Prune(rows, defaults, current).1 == Departure(Cache(rows[|rows| - 2]), |rows| - 2) + Prune(next, defaults, current).1
  {
    var k := |rows| - 2;
    var above := rows[..|rows| - 1];
    var next := RemoveAt(rows[k := Cache(rows[k])], k);
    PruneAboveStep(above, defaults, current);
    PruneParts(rows, defaults, current);
    PruneParts(next, defaults, current);
    assert next[..|next| - 1] == above[..k];
    assert next[|next| - 1] == rows[|rows| - 1];
  }

  /** With no row above the last one to test, or with that row `current`,
      neither the walk nor PruneAbove changes anything. */
  lemma WalkAtTop(rows: seq<Row>, defaults: Record, current: Option<nat>)
    requires rows != [] && (|rows| < 2 || current == Some(|rows| - 2))
    ensures Walk(rows, defaults, current).0 == Prune(rows, defaults, current).0
    ensures Walk(rows, defaults, current).1 == Prune(rows, defaults, current).1
  {
    var above := rows[..|rows| - 1];
    PruneAboveStep(above, defaults, current);
    PruneParts(rows, defaults, current);
    assert rows == above + [rows[|rows| - 1]];
  }

  /** With the row above the last one not empty, both cache it and stop. */
  lemma WalkAtFilledRow(rows: seq<Row>, defaults: Record, current: Option<nat>)
    requires |rows| >= 2 && current != Some(|rows| - 2) && !IsEmpty(defaults, rows[|rows| - 2])
    ensures Walk(rows, defaults, current).0 == Prune(rows, defaults, current).0
    ensures Walk(rows, defaults, current).1 == Prune(rows, defaults, current).1
  {
    var k := |rows| - 2;
    var above := rows[..|rows| - 1];
    PruneAboveStep(above, defaults, current);
    PruneParts(rows, defaults, current);
    assert Walk(rows, defaults, current).0 == rows[k := Cache(rows[k])];
    assert Prune(rows, defaults, current).0 == rows[..k] + [Cache(rows[k])] + [rows[k + 1]];
  }

  /** The loop computes the walk over the rows above the last one. */
  lemma {:induction false} WalkIsPrune(rows: seq<Row>, defaults: Record, current: Option<nat>)
    ensures Walk(rows, defaults, current).0 == Prune(rows, defaults, current).0
    ensures Walk(rows, defaults, current).1 == Prune(rows, defaults, current).1
    decreases |rows|
  {
    if Removable(rows, defaults, current) {
      var k := |rows| - 2;
      WalkRemovalAgrees(rows, defaults, current);
      WalkRemoves(rows, defaults, current);
      WalkIsPrune(RemoveAt(rows[k := Cache(rows[k])], k), defaults, current);
    } else if rows != [] {
      if |rows| < 2 || current == Some(|rows| - 2) {
        WalkAtTop(rows, defaults, current);
      } else {
        WalkAtFilledRow(rows, defaults, current);
      }
    }
  }

  /** removeEmptyRows never adds a row and never touches the last row; it
      removes only a contiguous run of empty rows, none of them `current`,
      directly above the last row, and stops at the top, at `current` or at
      the first row that is not empty. */
  lemma PruneShape(rows: seq<Row>, defaults: Record, current: Option<nat>)
    requires rows != []
    ensures var kept := Prune(rows, defaults, current).0;
      && 1 <= |kept| <= |rows|
      && kept[|kept| - 1] == rows[|rows| - 1]
      && (forall i :: 0 <= i < |kept| - 2 ==> kept[i] == rows[i])
      && (|kept| >= 2 ==> kept[|kept| - 2] == rows[|kept| - 2] || kept[|kept| - 2] == Cache(rows[|kept| - 2]))
    ensures var kept := Prune(rows, defaults, current).0;
      forall i :: |kept| - 1 <= i < |rows| - 1 ==> current != Some(i) && IsEmpty(defaults, rows[i])
    ensures var m := |Prune(rows, defaults, current).0| - 1;
      m == 0 || current == Some(m - 1) || !IsEmpty(defaults, rows[m - 1])
  {
    var above := rows[..|rows| - 1];
    assert Prune(rows, defaults, current).0 == Kept(above, defaults, current) + [rows[|rows| - 1]];
    PruneAboveRun(above, defaults, current);
    PruneAboveStops(above, defaults, current);
  }

  /** removeEmptyRows queues one removal notice per removed row that was not
      new, with its record and the index it had, bottom row first. */
  lemma PruneNotices(rows: seq<Row>, defaults: Record, current: Option<nat>)
    requires rows != []
    ensures var (kept, queued) := Prune(rows, defaults, current);
      forall q :: 0 <= q < |queued| ==>
        && |kept| - 1 <= queued[q].index < |rows| - 1
        && !rows[queued[q].index].isNew
        && queued[q].rec == Serialize(rows[queued[q].index])
    ensures var (kept, queued) := Prune(rows, defaults, current);
      forall i :: |kept| - 1 <= i < |rows| - 1 && !rows[i].isNew ==> Notice(Serialize(rows[i]), i) in queued
    ensures var queued := Prune(rows, defaults, current).1;
      forall q, q' :: 0 <= q < q' < |queued| ==> queued[q].index > queued[q'].index
  {
    var above := rows[..|rows| - 1];
    var m := |Kept(above, defaults, current)|;
    PruneAboveDepartures(above, defaults, current);
    DeparturesSound(above, m);
    DeparturesOrdered(above, m);
    forall i | m <= i < |rows| - 1 && !rows[i].isNew
      ensures Notice(Serialize(rows[i]), i) in Prune(rows, defaults, current).1
    {
      assert above[i] == rows[i];
      DeparturesComplete(above, m, i);
    }
  }

  /** A `current` row above the last one is never removed and comes out of
      the walk unchanged, as do all rows above it. */
  lemma PruneSparesCurrent(rows: seq<Row>, defaults: Record, c: nat)
    requires c < |rows| - 1
    ensures c < |Prune(rows, defaults, Some(c)).0| - 1
    ensures Prune(rows, defaults, Some(c)).0[..c + 1] == rows[..c + 1]
  {
    var above := rows[..|rows| - 1];
    PruneAboveRun(above, defaults, Some(c));
  }
}
