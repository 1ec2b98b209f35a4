/** Finding the row that holds an ID by reading the ID column, as `updateHypothesis` does before it writes. */
module RowLocation {
  import opened Results
  import opened Grid
  import opened Sequences

  /** The cell a single-column read returns for one row: nothing when the row is too short or the cell is blank. */
  function IdCell(row: seq<Cell>, column: nat): (r: Option<Cell>)
    ensures r.Some? <==> column < |row| && row[column] != Str("")
    ensures r.Some? ==> r.value == row[column]
  {
    if column < |row| && row[column] != Str("") then Some(row[column]) else None
  }

  /** The read of the column range `X1:X`, kept aligned with the sheet: one entry per row, header row first. */
  function IdColumn(rows: seq<seq<Cell>>, column: nat): (r: seq<Option<Cell>>)
    ensures |r| == |rows|
    ensures forall j :: 0 <= j < |rows| ==> r[j] == IdCell(rows[j], column)
  {
    seq(|rows|, j requires 0 <= j < |rows| => IdCell(rows[j], column))
  }

  lemma IdColumnMatches(rows: seq<seq<Cell>>, column: nat, id: string)
    ensures forall j :: 0 <= j < |rows| ==>
      (IdColumn(rows, column)[j] == Some(Str(id)) <==> column < |rows[j]| && rows[j][column] == Str(id) && id != "")
  {
  }

  /** The position of the first row (the header row being position 0) whose ID cell is exactly `id`. */
  function LocateRow(rows: seq<seq<Cell>>, column: nat, id: string): (r: Option<nat>)
    ensures r.Some? ==> r.value < |rows| && column < |rows[r.value]| && rows[r.value][column] == Str(id) && id != ""
    ensures r.Some? ==> forall j :: 0 <= j < r.value ==> !(column < |rows[j]| && rows[j][column] == Str(id))
    ensures r.None? <==> id == "" || forall j :: 0 <= j < |rows| ==> !(column < |rows[j]| && rows[j][column] == Str(id))
  {
    IdColumnMatches(rows, column, id);
    FirstIndexOf(IdColumn(rows, column), Some(Str(id)))
  }

  function AsList(o: Option<Cell>): (r: seq<Cell>)
    ensures |r| <= 1
  {
    match o
    case None => []
    case Some(c) => [c]
  }

  /** The ID column as the code reads it: `(response.data.values || []).flat()`. The store returns `[]` for a
      row whose cell in the column is missing or blank, and `flat()` drops those entries. */
  function FlatIdColumn(rows: seq<seq<Cell>>, column: nat): (r: seq<Cell>)
    ensures |r| <= |rows|
  {
    Flatten(seq(|rows|, j requires 0 <= j < |rows| => AsList(IdCell(rows[j], column))))
  }

  /** `idColumnValues.findIndex(cell => cell === id)` over the flattened column. */
  function LocateRowAsWritten(rows: seq<seq<Cell>>, column: nat, id: string): (r: Option<nat>)
    ensures r.Some? ==> r.value < |rows|
  {
    FirstIndexOf(FlatIdColumn(rows, column), Str(id))
  }

  lemma {:induction false} FlattenSingletons(ss: seq<seq<Cell>>)
    requires forall j :: 0 <= j < |ss| ==> |ss[j]| == 1
    ensures |Flatten(ss)| == |ss|
    ensures forall j :: 0 <= j < |ss| ==> Flatten(ss)[j] == ss[j][0]
  {
    if |ss| > 0 {
      FlattenSingletons(ss[1..]);
      assert Flatten(ss) == ss[0] + Flatten(ss[1..]);
    }
  }

  /** Two sequences that match their targets at the same positions have the same first match. */
  lemma FirstIndexOfAligned<T, U>(a: seq<T>, x: T, b: seq<U>, y: U)
    requires |a| == |b|
    requires forall j :: 0 <= j < |a| ==> (a[j] == x <==> b[j] == y)
    ensures FirstIndexOf(a, x) == FirstIndexOf(b, y)
  {
    var ra, rb := FirstIndexOf(a, x), FirstIndexOf(b, y);
    if ra.Some? {
      assert b[ra.value] == y;
    }
    if rb.Some? {
      assert a[rb.value] == x;
    }
  }

  /** When no row above the end of the sheet has a missing or blank ID cell, the code as written finds the right row. */
  lemma AsWrittenAgreesWithoutBlanks(rows: seq<seq<Cell>>, column: nat, id: string)
    requires forall j :: 0 <= j < |rows| ==> IdCell(rows[j], column).Some?
    ensures LocateRowAsWritten(rows, column, id) == LocateRow(rows, column, id)
  {
    var lists := seq(|rows|, j requires 0 <= j < |rows| => AsList(IdCell(rows[j], column)));
    FlattenSingletons(lists);
    var flat := FlatIdColumn(rows, column);
    var col := IdColumn(rows, column);
    forall j | 0 <= j < |rows|
      ensures flat[j] == Str(id) <==> col[j] == Some(Str(id))
    {
      assert flat[j] == lists[j][0] == IdCell(rows[j], column).value;
    }
    FirstIndexOfAligned(flat, Str(id), col, Some(Str(id)));
  }

  /** A blank row above the target shifts the code's index by one: for ID "7" it names position 1, the blank
      row, while the row holding "7" is at position 2; the write would land on the blank row. */
  lemma AsWrittenMissesRowBelowBlank()
    ensures var rows := [[Str("ID"), Str("Name")], [], [Str("7"), Str("x")]];
      && LocateRowAsWritten(rows, 0, "7") == Some(1)
      && LocateRow(rows, 0, "7") == Some(2)
      && rows[1] == []
  {
    var rows := [[Str("ID"), Str("Name")], [], [Str("7"), Str("x")]];
    var lists := seq(|rows|, j requires 0 <= j < |rows| => AsList(IdCell(rows[j], 0)));
    assert lists == [[Str("ID")], [], [Str("7")]];
    assert Flatten(lists) == [Str("ID"), Str("7")] by {
      assert Flatten(lists[1..]) == [] + Flatten(lists[2..]);
      assert Flatten(lists[2..]) == [Str("7")] + Flatten(lists[3..]);
    }
    var col := IdColumn(rows, 0);
    assert col == [Some(Str("ID")), None, Some(Str("7"))];
  }
}
