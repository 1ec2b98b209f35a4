/** `updateHypothesis`: locate the row holding an ID, merge the update over the current record, and write the
    whole row back in header order with one store write. */
module Update {
  import opened Results
  import opened Text
  import opened Grid
  import opened ColumnLetters
  import opened Sequences
  import opened Discovery
  import opened Decode
  import opened Reads
  import opened RowLocation

  const IdHeader: string := "ID"

  /** The one field with a value transform: given as a percentage, stored as a fraction. */
  const ConfidenceHeader: string := "Confidence %"

  /** `{ ...currentRowData, ...updates }`: every field of the update replaces the current one, the rest are kept. */
  function Merge(current: Record, updates: Updates): (r: map<string, Value>)
    ensures r.Keys == current.Keys + updates.Keys
    ensures forall k :: k in updates ==> r[k] == updates[k]
    ensures forall k :: k in current && k !in updates ==> r[k] == Given(current[k])
  {
    (map k | k in current :: Given(current[k])) + updates
  }

  /** The update gives `Confidence %` a truthy number (non-zero); a text value or an absent field does not qualify. */
  predicate IsPercentUpdate(updates: Updates) {
    && ConfidenceHeader in updates
    && updates[ConfidenceHeader].Given?
    && updates[ConfidenceHeader].cell.Num?
    && updates[ConfidenceHeader].cell.number != 0.0
  }

  /** The percentage transform: a qualifying `Confidence %` update is stored divided by 100. */
  function PercentAdjusted(data: map<string, Value>, updates: Updates): map<string, Value> {
    if IsPercentUpdate(updates)
    then data[ConfidenceHeader := Given(Num(updates[ConfidenceHeader].cell.number / 100.0))]
    else data
  }

  /** `headers.map(header => updatedData[header] ?? '')`. */
  function RowValues(headers: seq<string>, data: map<string, Value>): (r: seq<Cell>)
    ensures |r| == |headers|
  {
    seq(|headers|, i requires 0 <= i < |headers| =>
      if headers[i] in data && data[headers[i]].Given? then data[headers[i]].cell else Str(""))
  }

  /** What the written row holds under `header`, stated field by field: the transformed percentage, else the
      update's value (blank for null), else the current value, else blank. */
  function UpdatedCell(current: Record, updates: Updates, header: string): Cell {
    if header == ConfidenceHeader && IsPercentUpdate(updates) then Num(updates[ConfidenceHeader].cell.number / 100.0)
    else if header in updates then (if updates[header].Given? then updates[header].cell else Str(""))
    else if header in current then current[header]
    else Str("")
  }

  /** The serialised row agrees with `UpdatedCell` at every header. */
  lemma RowValuesAt(headers: seq<string>, current: Record, updates: Updates, i: nat)
    requires i < |headers|
    ensures RowValues(headers, PercentAdjusted(Merge(current, updates), updates))[i] == UpdatedCell(current, updates, headers[i])
  {
  }

  /** The address of a write of `width` cells to 1-based row `n`: `title!A<n>:<last column><n>`. */
  function RowRange(title: string, n: nat, width: nat): string
    requires width >= 1
  {
    title + "!A" + DecimalText(n) + ":" + ColumnName(width - 1) + DecimalText(n)
  }

  /** The range runs along row `n`, from column A to the column whose zero-based index is `width - 1`: the
      row part is a numeral denoting `n`, the column part a column name denoting `width - 1`. */
  lemma RowRangeSpans(title: string, n: nat, width: nat)
    requires width >= 1
    ensures exists last: string, row: string ::
      && IsColumnName(last)
      && LetterToIndex(last) == width - 1
      && row != [] && AllDigits(row) && DecimalValue(row) == n
      && RowRange(title, n, width) == title + "!A" + row + ":" + last + row
  {
    var last, row := ColumnName(width - 1), DecimalText(n);
    LetterToIndexOfColumnName(width - 1);
    DecimalTextValue(n);
    assert RowRange(title, n, width) == title + "!A" + row + ":" + last + row;
  }

  /** One `values.update` request: the sheet, the A1 range text, the 1-based row it addresses and the row's cells. */
  datatype WriteRequest = WriteRequest(title: string, range: string, rowNumber: nat, values: seq<Cell>)

  /** The rows of the hypotheses sheet: reading the sheet discovery names always succeeds. */
  function HypothesesRows(sheets: seq<Sheet>): (r: seq<seq<Cell>>)
    requires FindTitle(sheets).Success?
    ensures ReadSheet(sheets, FindTitle(sheets).value) == Success(r)
  {
    FoundTitleExists(sheets);
    ReportedRows(sheets[TitleIndex(sheets, FindTitle(sheets).value).value].rows)
  }

  /** The header names of the hypotheses sheet, as `getHeaders` returns them once discovery has succeeded. */
  function HeaderRow(sheets: seq<Sheet>): (r: seq<string>)
    requires FindTitle(sheets).Success?
    ensures Headers(sheets) == Success(r)
  {
    HeaderNames(HypothesesRows(sheets))
  }

  /** The request for row `rowIndex` (0-based, header row 0): the range spans column A to the last header's
      column, and each cell is the merged value for its header. */
  function BuildWrite(title: string, headers: seq<string>, rowIndex: nat, current: Record, updates: Updates): WriteRequest
    requires |headers| >= 1
  {
    WriteRequest(title, RowRange(title, rowIndex + 1, |headers|), rowIndex + 1,
                 RowValues(headers, PercentAdjusted(Merge(current, updates), updates)))
  }

  /** The row an update goes to (0-based, header row 0) and the record currently decoded for the ID. */
  datatype Target = Target(rowIndex: nat, current: Record)

  /** `updateHypothesis` up to the merge: discovery, the header read, the `ID` column, the ID-column read
      and the record lookup, each failure stopping it before anything is written. The header read and the
      ID-column read go to the sheet discovery named, which exists. */
  function FindTarget(sheets: seq<Sheet>, id: string): (r: Result<Target, Error>)
    ensures r.Success? ==> FindTitle(sheets).Success? && |HeaderRow(sheets)| >= 1
  {
    match FindTitle(sheets)
    case Failure(e) => Failure(e)
    case Success(title) =>
      var headers := HeaderRow(sheets);
      if |headers| == 0 then Failure(NoHeaders)
      else
        match FirstIndexOf(headers, IdHeader)
        case None => Failure(NoIdColumn)
        case Some(idColumn) =>
          match LocateRow(HypothesesRows(sheets), idColumn, id)
          case None => Failure(IdNotInSheet(id))
          case Some(rowIndex) =>
            match HypothesisRow(sheets, id)
            case Failure(e) => Failure(e)
            case Success(current) => Success(Target(rowIndex, current))
  }

  /** `updateHypothesis` up to the write: the request it sends, or the failure that stops it. */
  function PlanUpdate(sheets: seq<Sheet>, id: string, updates: Updates): (r: Result<WriteRequest, Error>)
  {
    match FindTarget(sheets, id)
    case Failure(e) => Failure(e)
    case Success(t) => Success(BuildWrite(FindTitle(sheets).value, HeaderRow(sheets), t.rowIndex, t.current, updates))
  }

  /** The row the store holds after writing `values` over `previous` from column A: the written cells, then any
      cells of the previous row beyond them. */
  function Overlay(values: seq<Cell>, previous: seq<Cell>): (r: seq<Cell>)
    ensures |r| == if |previous| <= |values| then |values| else |previous|
    ensures r[..|values|] == values
    ensures forall i :: |values| <= i < |previous| ==> r[i] == previous[i]
  {
    if |previous| <= |values| then values else values + previous[|values|..]
  }

  /** A row as a read reports it: it never ends in a blank cell, since the store reports a row up to its last
      filled cell. */
  predicate EndsFilled(row: seq<Cell>) {
    |row| == 0 || row[|row| - 1] != Str("")
  }

  /** The row with its trailing blank cells removed. */
  function DropTrailingBlanks(row: seq<Cell>): (r: seq<Cell>)
    ensures |r| <= |row| && r == row[..|r|] && EndsFilled(r)
    ensures forall i :: |r| <= i < |row| ==> row[i] == Str("")
  {
    if |row| == 0 || row[|row| - 1] != Str("") then row else DropTrailingBlanks(row[..|row| - 1])
  }

  /** A prefix that ends filled, followed only by blank cells, is what is left once the blank tail is dropped. */
  lemma {:induction false} DropTrailingBlanksIs(row: seq<Cell>, m: nat)
    requires m <= |row| && EndsFilled(row[..m])
    requires forall i :: m <= i < |row| ==> row[i] == Str("")
    ensures DropTrailingBlanks(row) == row[..m]
    decreases |row|
  {
    if m < |row| {
      var shorter := row[..|row| - 1];
      assert shorter[..m] == row[..m];
      DropTrailingBlanksIs(shorter, m);
    } else {
      assert row[..m] == row;
    }
  }

  /** `row` reads back as `values` over the written span: a cell the row reaches is the written one, and a
      written cell the row does not reach was blank. */
  predicate ReadsBack(row: seq<Cell>, values: seq<Cell>) {
    forall j :: 0 <= j < |values| ==> if j < |row| then row[j] == values[j] else values[j] == Str("")
  }

  /** The row the store holds after `values` is written over `previous` from column A: the written cells, then
      any previous cells beyond them, without the trailing blank cells, since writing `''` clears a cell. */
  function StoredRow(values: seq<Cell>, previous: seq<Cell>): (r: seq<Cell>)
    ensures ReadsBack(r, values) && EndsFilled(r)
    ensures forall i :: |values| <= i < |r| ==> i < |previous| && r[i] == previous[i]
    ensures forall i :: |values| <= i < |previous| ==> if i < |r| then r[i] == previous[i] else previous[i] == Str("")
  {
    var written := Overlay(values, previous);
    assert forall j :: 0 <= j < |values| ==> written[j] == values[j] by {
      forall j | 0 <= j < |values| ensures written[j] == values[j] {
        assert written[..|values|][j] == values[j];
      }
    }
    DropTrailingBlanks(written)
  }

  /** Writing the same cells over a stored row stores it unchanged. */
  lemma StoredRowIdempotent(values: seq<Cell>, previous: seq<Cell>)
    ensures StoredRow(values, StoredRow(values, previous)) == StoredRow(values, previous)
  {
    var written := Overlay(values, previous);
    var stored := DropTrailingBlanks(written);
    var again := Overlay(values, stored);
    assert stored[..|stored|] == stored;
    if |stored| <= |values| {
      assert again == values;
      assert again[..|stored|] == written[..|stored|];
    } else {
      assert stored[..|values|] == written[..|values|];
      assert again == stored;
    }
    DropTrailingBlanksIs(again, |stored|);
  }

  /** A field written blank at the end of the row is no longer reported: the record decoded from the stored row
      has every other field of the written record, and lacks only fields whose written cell is blank. */
  lemma StoredRecord(keys: seq<string>, values: seq<Cell>, previous: seq<Cell>, k: string)
    requires |keys| == |values| && k in keys
    ensures k in RowRecord(keys, values)
    ensures k in RowRecord(keys, StoredRow(values, previous)) ==>
              RowRecord(keys, StoredRow(values, previous))[k] == RowRecord(keys, values)[k]
    ensures k !in RowRecord(keys, StoredRow(values, previous)) ==> RowRecord(keys, values)[k] == Str("")
  {
    RowRecordField(keys, values, k);
    RowRecordField(keys, StoredRow(values, previous), k);
  }

  /** `count` empty rows, the gap the store leaves when a write lands below the last row. */
  function BlankRows(count: nat): (r: seq<seq<Cell>>)
    ensures |r| == count && forall j :: 0 <= j < count ==> r[j] == []
  {
    if count == 0 then [] else BlankRows(count - 1) + [[]]
  }

  /** The rows of a sheet once `values` is written to row `n` (0-based); a row below the last is written over
      an empty row. */
  function WrittenRows(rows: seq<seq<Cell>>, n: nat, values: seq<Cell>): (r: seq<seq<Cell>>)
    ensures n < |r| && r[n] == StoredRow(values, if n < |rows| then rows[n] else [])
    ensures forall j :: 0 <= j < |r| && j != n ==> r[j] == if j < |rows| then rows[j] else []
  {
    if n < |rows| then rows[n := StoredRow(values, rows[n])]
    else rows + BlankRows(n - |rows|) + [StoredRow(values, [])]
  }

  /** Writing the same cells to the same row twice leaves the rows as writing them once. */
  lemma WrittenRowsIdempotent(rows: seq<seq<Cell>>, n: nat, values: seq<Cell>)
    ensures WrittenRows(WrittenRows(rows, n, values), n, values) == WrittenRows(rows, n, values)
  {
    var once := WrittenRows(rows, n, values);
    StoredRowIdempotent(values, if n < |rows| then rows[n] else []);
    assert once[n := once[n]] == once;
  }

  /** The store performing a write request on the sheet with its title. */
  function WriteRow(sheets: seq<Sheet>, w: WriteRequest): (r: seq<Sheet>)
    requires w.rowNumber >= 1
    ensures |r| == |sheets|
  {
    match TitleIndex(sheets, w.title)
    case None => sheets
    case Some(k) =>
      sheets[k := Sheet(sheets[k].title, WrittenRows(sheets[k].rows, w.rowNumber - 1, w.values))]
  }

  /** Every row of every sheet is as a read reports it, ending in a filled cell. */
  predicate InStoreForm(sheets: seq<Sheet>) {
    forall k, j :: 0 <= k < |sheets| && 0 <= j < |sheets[k].rows| ==> EndsFilled(sheets[k].rows[j])
  }

  /** A write keeps every row in the form a read reports. */
  lemma WriteKeepsStoreForm(sheets: seq<Sheet>, w: WriteRequest)
    requires w.rowNumber >= 1 && InStoreForm(sheets)
    ensures InStoreForm(WriteRow(sheets, w))
  {
  }

  /** Writing a row's own cells back, with blanks where it has none, stores the row unchanged. */
  lemma RewriteSameCells(values: seq<Cell>, row: seq<Cell>)
    requires EndsFilled(row)
    requires forall i :: 0 <= i < |values| ==> values[i] == if i < |row| then row[i] else Str("")
    ensures StoredRow(values, row) == row
  {
    var written := Overlay(values, row);
    if |row| <= |values| {
      assert written[..|row|] == row;
    } else {
      assert values == row[..|values|];
      assert written == row;
    }
    DropTrailingBlanksIs(written, |row|);
  }

  /** The update fails, writing nothing, exactly in the cases the code checks, in its order. */
  lemma UpdateFailures(sheets: seq<Sheet>, id: string, updates: Updates)
    ensures FindTitle(sheets).Failure? ==> PlanUpdate(sheets, id, updates) == Failure(FindTitle(sheets).error)
    ensures FindTitle(sheets).Success? && HeaderRow(sheets) == [] ==> PlanUpdate(sheets, id, updates) == Failure(NoHeaders)
    ensures FindTitle(sheets).Success? && HeaderRow(sheets) != [] && IdHeader !in HeaderRow(sheets) ==>
              PlanUpdate(sheets, id, updates) == Failure(NoIdColumn)
    ensures FindTitle(sheets).Success? && IdHeader in HeaderRow(sheets)
              && LocateRow(HypothesesRows(sheets), FirstIndexOf(HeaderRow(sheets), IdHeader).value, id).None? ==>
              PlanUpdate(sheets, id, updates) == Failure(IdNotInSheet(id))
    ensures FindTitle(sheets).Success? && IdHeader in HeaderRow(sheets)
              && LocateRow(HypothesesRows(sheets), FirstIndexOf(HeaderRow(sheets), IdHeader).value, id).Some?
              && HypothesisRow(sheets, id).Failure? ==>
              PlanUpdate(sheets, id, updates) == Failure(HypothesisRow(sheets, id).error)
  {
    if FindTitle(sheets).Success? {
      FoundTitleExists(sheets);
    }
  }

  /** The stages of a successful update: the ID column, the row found there and the current record. */
  lemma PlanUpdateStages(sheets: seq<Sheet>, id: string, updates: Updates, w: WriteRequest)
    returns (column: nat, rowIndex: nat, current: Record)
    requires PlanUpdate(sheets, id, updates) == Success(w)
    ensures FindTitle(sheets).Success? && |HeaderRow(sheets)| >= 1
    ensures FirstIndexOf(HeaderRow(sheets), IdHeader) == Some(column)
    ensures LocateRow(HypothesesRows(sheets), column, id) == Some(rowIndex)
    ensures HypothesisRow(sheets, id) == Success(current) && HasId(current, id)
    ensures FindTarget(sheets, id) == Success(Target(rowIndex, current))
    ensures w == BuildWrite(FindTitle(sheets).value, HeaderRow(sheets), rowIndex, current, updates)
    ensures w.title == FindTitle(sheets).value && w.rowNumber == rowIndex + 1
    ensures w.values == RowValues(HeaderRow(sheets), PercentAdjusted(Merge(current, updates), updates))
  {
    column := FirstIndexOf(HeaderRow(sheets), IdHeader).value;
    rowIndex := LocateRow(HypothesesRows(sheets), column, id).value;
    current := HypothesisRow(sheets, id).value;
  }

  /** Writing an existing row of an existing sheet changes that row alone. */
  lemma WriteRowFrame(sheets: seq<Sheet>, w: WriteRequest, k: nat)
    requires w.rowNumber >= 1 && TitleIndex(sheets, w.title) == Some(k) && w.rowNumber - 1 < |sheets[k].rows|
    ensures var after := WriteRow(sheets, w);
      && (forall m :: 0 <= m < |sheets| && m != k ==> after[m] == sheets[m])
      && after[k].title == sheets[k].title
      && after[k].rows == sheets[k].rows[w.rowNumber - 1 := StoredRow(w.values, sheets[k].rows[w.rowNumber - 1])]
  {
    var rows, n := sheets[k].rows, w.rowNumber - 1;
    assert WriteRow(sheets, w) == sheets[k := Sheet(sheets[k].title, WrittenRows(rows, n, w.values))];
    WrittenExistingRow(rows, n, w.values);
  }

  /** Writing an existing row replaces that row by the stored one. */
  lemma WrittenExistingRow(rows: seq<seq<Cell>>, n: nat, values: seq<Cell>)
    requires n < |rows|
    ensures WrittenRows(rows, n, values) == rows[n := StoredRow(values, rows[n])]
  {
  }

  /** A successful update writes an existing row of the sheet discovery names. */
  lemma PlanAddress(sheets: seq<Sheet>, id: string, updates: Updates, w: WriteRequest)
    requires PlanUpdate(sheets, id, updates) == Success(w)
    ensures FindTitle(sheets).Success?
    ensures w.title == FindTitle(sheets).value && 1 <= w.rowNumber <= |HypothesesRows(sheets)|
  {
    var column, rowIndex, current := PlanUpdateStages(sheets, id, updates, w);
  }

  /** A successful update addresses the first row whose `ID` cell is `id`, as 1-based row number index + 1. */
  lemma UpdateTarget(sheets: seq<Sheet>, id: string, updates: Updates, w: WriteRequest) returns (column: nat)
    requires PlanUpdate(sheets, id, updates) == Success(w)
    ensures FindTitle(sheets).Success? && FirstIndexOf(HeaderRow(sheets), IdHeader) == Some(column)
    ensures var rows := HypothesesRows(sheets);
      && w.title == FindTitle(sheets).value
      && 1 <= w.rowNumber <= |rows|
      && column < |rows[w.rowNumber - 1]| && rows[w.rowNumber - 1][column] == Str(id)
      && (forall j :: 0 <= j < w.rowNumber - 1 ==> !(column < |rows[j]| && rows[j][column] == Str(id)))
  {
    var rowIndex, current;
    column, rowIndex, current := PlanUpdateStages(sheets, id, updates, w);
  }

  /** A successful update writes one cell per header, in a range from column A to the column of the last header. */
  lemma UpdateShape(sheets: seq<Sheet>, id: string, updates: Updates, w: WriteRequest)
    requires PlanUpdate(sheets, id, updates) == Success(w)
    ensures |w.values| == |HeaderRow(sheets)| >= 1
    ensures w.range == RowRange(w.title, w.rowNumber, |w.values|)
  {
    var column, rowIndex, current := PlanUpdateStages(sheets, id, updates, w);
  }

  /** The write replaces exactly one existing row of the hypotheses sheet, keeping the cells beyond the
      written span; every other row and every other sheet is unchanged. */
  lemma UpdateWritesOneRow(sheets: seq<Sheet>, id: string, updates: Updates, w: WriteRequest) returns (k: nat)
    requires PlanUpdate(sheets, id, updates) == Success(w)
    ensures w.rowNumber >= 1 && TitleIndex(sheets, w.title) == Some(k) && HypothesesRows(sheets) == ReportedRows(sheets[k].rows)
    ensures var after := WriteRow(sheets, w);
      && (forall m :: 0 <= m < |sheets| && m != k ==> after[m] == sheets[m])
      && after[k].title == sheets[k].title
      && w.rowNumber - 1 < |sheets[k].rows|
      && after[k].rows == sheets[k].rows[w.rowNumber - 1 := StoredRow(w.values, sheets[k].rows[w.rowNumber - 1])]
  {
    PlanAddress(sheets, id, updates, w);
    k := HypothesesSheetIndex(sheets);
    ReportedRowIsRow(sheets[k].rows, w.rowNumber - 1);
    WriteRowFrame(sheets, w, k);
  }

  /** Each written cell is the field-by-field merge: for header `i`, the update's value if it has one (a
      truthy number for `Confidence %` divided by 100, null written blank), otherwise the current value
      of the record found for `id`, otherwise blank. */
  lemma UpdatedCells(sheets: seq<Sheet>, id: string, updates: Updates, w: WriteRequest, i: nat)
    requires PlanUpdate(sheets, id, updates) == Success(w)
    ensures FindTitle(sheets).Success? && HypothesisRow(sheets, id).Success?
    ensures |w.values| == |HeaderRow(sheets)|
    ensures i < |HeaderRow(sheets)| ==> w.values[i] == UpdatedCell(HypothesisRow(sheets, id).value, updates, HeaderRow(sheets)[i])
  {
    var column, rowIndex, current := PlanUpdateStages(sheets, id, updates, w);
    if i < |HeaderRow(sheets)| {
      RowValuesAt(HeaderRow(sheets), current, updates, i);
    }
  }

  /** Update fields that name no header never reach the grid: two updates that agree on every header give the same write. */
  lemma UnknownFieldsIgnored(sheets: seq<Sheet>, id: string, u1: Updates, u2: Updates)
    requires FindTitle(sheets).Success?
    requires forall h :: h in HeaderRow(sheets) ==> (h in u1 <==> h in u2) && (h in u1 ==> u1[h] == u2[h])
    ensures PlanUpdate(sheets, id, u1) == PlanUpdate(sheets, id, u2)
  {
    if FindTarget(sheets, id).Success? {
      var t := FindTarget(sheets, id).value;
      BuildWriteIgnoresUnknown(FindTitle(sheets).value, HeaderRow(sheets), t.rowIndex, t.current, u1, u2);
    }
  }

  lemma BuildWriteIgnoresUnknown(title: string, headers: seq<string>, rowIndex: nat, current: Record, u1: Updates, u2: Updates)
    requires |headers| >= 1
    requires forall h :: h in headers ==> (h in u1 <==> h in u2) && (h in u1 ==> u1[h] == u2[h])
    ensures BuildWrite(title, headers, rowIndex, current, u1) == BuildWrite(title, headers, rowIndex, current, u2)
  {
    var v1 := RowValues(headers, PercentAdjusted(Merge(current, u1), u1));
    var v2 := RowValues(headers, PercentAdjusted(Merge(current, u2), u2));
    forall i | 0 <= i < |headers|
      ensures v1[i] == v2[i]
    {
      RowValuesAt(headers, current, u1, i);
      RowValuesAt(headers, current, u2, i);
    }
    assert v1 == v2;
  }

  /** With distinct header names, the first record whose ID is `id` is the one decoded from the first data
      row holding `id` in the `ID` column. */
  lemma FirstRecordIsLocatedRow(rows: seq<seq<Cell>>, keys: seq<string>, records: seq<Record>, column: nat, id: string, rowIndex: nat)
    requires Distinct(keys) && FirstIndexOf(keys, IdHeader) == Some(column)
    requires |records| == |rows| - 1 && forall j :: 0 <= j < |records| ==> records[j] == RowRecord(keys, rows[j + 1])
    requires LocateRow(rows, column, id) == Some(rowIndex) && rowIndex >= 1
    ensures FirstWithId(records, id) == Some(rowIndex - 1)
  {
    assert LastIndex(keys, IdHeader) == column;
    forall j | 0 <= j < |records|
      ensures HasId(records[j], id) <==> column < |rows[j + 1]| && rows[j + 1][column] == Str(id)
    {
      DistinctRowRecordAt(keys, rows[j + 1], column);
    }
    FirstWithIdIs(records, id, rowIndex - 1);
  }

  /** The ID column locates the header row only for an ID that trims to `ID` itself. */
  lemma LocatedHeaderRow(sheets: seq<Sheet>, id: string)
    requires FindTitle(sheets).Success? && IdHeader in HeaderRow(sheets)
    requires LocateRow(HypothesesRows(sheets), FirstIndexOf(HeaderRow(sheets), IdHeader).value, id) == Some(0)
    ensures Trim(id) == IdHeader
  {
    var rows := HypothesesRows(sheets);
    var column := FirstIndexOf(HeaderRow(sheets), IdHeader).value;
    assert HeaderRow(sheets)[column] == Trim(CellString(rows[0][column]));
  }

  /** The loaded records and the header names are those of the rows of the hypotheses sheet. */
  lemma HypothesesRowsDecode(sheets: seq<Sheet>)
    requires FindTitle(sheets).Success?
    ensures LoadRecords(sheets) == Success(Records(HypothesesRows(sheets)))
    ensures |HeaderRow(sheets)| > 0 ==> |HypothesesRows(sheets)| > 0
    ensures |HypothesesRows(sheets)| > 0 ==> HeaderRow(sheets) == HeaderKeys(HypothesesRows(sheets)[0])
  {
    FoundTitleExists(sheets);
    var rows := HypothesesRows(sheets);
    if |rows| > 0 {
      HeaderNamesAreKeys(rows);
    }
  }

  /** The lookup returns the record decoded from the row the ID column located, provided that row is a
      data row and the header names are distinct. */
  lemma LookupFindsLocatedRow(sheets: seq<Sheet>, id: string, column: nat, rowIndex: nat)
    requires FindTitle(sheets).Success? && FirstIndexOf(HeaderRow(sheets), IdHeader) == Some(column) && Distinct(HeaderRow(sheets))
    requires LocateRow(HypothesesRows(sheets), column, id) == Some(rowIndex)
    requires rowIndex >= 1
    ensures HypothesisRow(sheets, id) == Success(RowRecord(HeaderRow(sheets), HypothesesRows(sheets)[rowIndex]))
  {
    var rows, keys := HypothesesRows(sheets), HeaderRow(sheets);
    HypothesesRowsDecode(sheets);
    var records := Records(rows);
    assert FirstWithId(records, id) == Some(rowIndex - 1) by {
      FirstRecordIsLocatedRow(rows, keys, records, column, id, rowIndex);
    }
    assert records[rowIndex - 1] == RowRecord(keys, rows[rowIndex]);
    assert LoadRecords(sheets) == Success(records);
  }

  /** The hypotheses sheet's position among the sheets. */
  lemma HypothesesSheetIndex(sheets: seq<Sheet>) returns (k: nat)
    requires FindTitle(sheets).Success?
    ensures TitleIndex(sheets, FindTitle(sheets).value) == Some(k)
    ensures HypothesesRows(sheets) == ReportedRows(sheets[k].rows)
  {
    FoundTitleExists(sheets);
    k := TitleIndex(sheets, FindTitle(sheets).value).value;
  }

  /** A write below the header row leaves discovery and the header read as they were, and changes only the
      written row of the hypotheses sheet. */
  lemma RewriteKeepsHeaders(sheets: seq<Sheet>, w: WriteRequest, k: nat)
    requires FindTitle(sheets) == Success(w.title) && TitleIndex(sheets, w.title) == Some(k)
    requires 2 <= w.rowNumber <= |sheets[k].rows|
    ensures var after := WriteRow(sheets, w);
      && FindTitle(after) == FindTitle(sheets)
      && TitleIndex(after, w.title) == Some(k)
      && HypothesesRows(sheets) == ReportedRows(sheets[k].rows)
      && HypothesesRows(after) == ReportedRows(after[k].rows)
      && after[k].rows == sheets[k].rows[w.rowNumber - 1 := StoredRow(w.values, sheets[k].rows[w.rowNumber - 1])]
      && HeaderRow(after) == HeaderRow(sheets)
  {
    var after := WriteRow(sheets, w);
    WriteRowFrame(sheets, w, k);
    FindTitleReadsHeaderRows(sheets, after);
    FoundTitleExists(sheets);
    assert HeaderNames(after[k].rows) == HeaderNames(sheets[k].rows) by {
      assert after[k].rows[0] == sheets[k].rows[0];
    }
    HeaderNamesOfReported(sheets[k].rows);
    HeaderNamesOfReported(after[k].rows);
  }

  /** After a write to a reported data row, a read reports the old rows with that row stored, cut again at
      the last non-empty row; a stored row that is not empty is never cut. */
  lemma RewriteReportedRows(sheets: seq<Sheet>, w: WriteRequest)
    requires FindTitle(sheets) == Success(w.title) && 2 <= w.rowNumber <= |HypothesesRows(sheets)|
    ensures FindTitle(WriteRow(sheets, w)) == FindTitle(sheets)
    ensures HeaderRow(WriteRow(sheets, w)) == HeaderRow(sheets)
    ensures var rows, n := HypothesesRows(sheets), w.rowNumber - 1;
      && HypothesesRows(WriteRow(sheets, w)) == ReportedRows(rows[n := StoredRow(w.values, rows[n])])
      && (StoredRow(w.values, rows[n]) != [] ==> HypothesesRows(WriteRow(sheets, w)) == rows[n := StoredRow(w.values, rows[n])])
  {
    var k := HypothesesSheetIndex(sheets);
    ReportedRowIsRow(sheets[k].rows, w.rowNumber - 1);
    RewriteKeepsHeaders(sheets, w, k);
    ReportedAfterWrite(sheets[k].rows, WriteRow(sheets, w)[k].rows, HypothesesRows(sheets),
                       HypothesesRows(WriteRow(sheets, w)), w.rowNumber - 1, w.values);
  }

  /** The rows a read reports after a write to a reported row. */
  lemma ReportedAfterWrite(rows: seq<seq<Cell>>, after: seq<seq<Cell>>, reported: seq<seq<Cell>>,
                           reportedAfter: seq<seq<Cell>>, n: nat, values: seq<Cell>)
    requires n < |rows| && after == rows[n := StoredRow(values, rows[n])]
    requires reported == ReportedRows(rows) && reportedAfter == ReportedRows(after)
    ensures n < |reported| ==> reportedAfter == ReportedRows(reported[n := StoredRow(values, reported[n])])
    ensures n < |reported| && StoredRow(values, reported[n]) != [] ==>
              reportedAfter == reported[n := StoredRow(values, reported[n])]
  {
    if n < |reported| {
      ReportedRowIsRow(rows, n);
      ReportedAfterReplace(rows, n, StoredRow(values, rows[n]));
    }
  }

  /** Merging an update over the record of the row it produced gives that row again, repeated header names
      included: each header's field of the stored record is the cell written under the last column of that
      name, which holds the same merged value, or it is absent and that cell was written blank. */
  lemma RemergeKeepsCells(headers: seq<string>, current: Record, updates: Updates, stored: seq<Cell>)
    requires ReadsBack(stored, RowValues(headers, PercentAdjusted(Merge(current, updates), updates)))
    ensures RowValues(headers, PercentAdjusted(Merge(RowRecord(headers, stored), updates), updates))
         == RowValues(headers, PercentAdjusted(Merge(current, updates), updates))
  {
    var values := RowValues(headers, PercentAdjusted(Merge(current, updates), updates));
    var written := RowRecord(headers, stored);
    var again := RowValues(headers, PercentAdjusted(Merge(written, updates), updates));
    forall i | 0 <= i < |headers|
      ensures again[i] == values[i]
    {
      RowValuesAt(headers, written, updates, i);
      RowValuesAt(headers, current, updates, i);
      RowRecordAt(headers, stored, i);
      RowValuesAt(headers, current, updates, LastIndex(headers, headers[i]));
    }
  }

  /** The target is assembled from the stages: the `ID` column, the row located there and the record found. */
  lemma FindTargetOfStages(sheets: seq<Sheet>, id: string, column: nat, rowIndex: nat, current: Record)
    requires FindTitle(sheets).Success? && |HeaderRow(sheets)| >= 1
    requires FirstIndexOf(HeaderRow(sheets), IdHeader) == Some(column)
    requires LocateRow(HypothesesRows(sheets), column, id) == Some(rowIndex)
    requires HypothesisRow(sheets, id) == Success(current)
    ensures FindTarget(sheets, id) == Success(Target(rowIndex, current))
  {
  }

  /** An update writes the sheet discovery names, below its header row, so discovery and the header read
      see the same sheet and the same headers afterwards. */
  lemma RewriteKeepsDiscovery(sheets: seq<Sheet>, id: string, updates: Updates, w: WriteRequest)
    requires PlanUpdate(sheets, id, updates) == Success(w) && w.rowNumber >= 2
    ensures FindTitle(sheets).Success? && FindTitle(WriteRow(sheets, w)) == FindTitle(sheets)
    ensures HeaderRow(WriteRow(sheets, w)) == HeaderRow(sheets)
  {
    PlanAddress(sheets, id, updates, w);
    var k := HypothesesSheetIndex(sheets);
    ReportedRowIsRow(sheets[k].rows, w.rowNumber - 1);
    RewriteKeepsHeaders(sheets, w, k);
  }

  /** An update rewrites the row it located, a data row, and no other row of the hypotheses sheet. */
  lemma RewriteRows(sheets: seq<Sheet>, id: string, updates: Updates, w: WriteRequest)
    requires PlanUpdate(sheets, id, updates) == Success(w) && w.rowNumber >= 2
    ensures FindTitle(WriteRow(sheets, w)).Success?
    ensures 1 <= w.rowNumber - 1 < |HypothesesRows(sheets)|
    ensures var rows, n := HypothesesRows(sheets), w.rowNumber - 1;
      HypothesesRows(WriteRow(sheets, w)) == ReportedRows(rows[n := StoredRow(w.values, rows[n])])
    ensures var rows, n := HypothesesRows(sheets), w.rowNumber - 1;
      StoredRow(w.values, rows[n]) != [] ==> HypothesesRows(WriteRow(sheets, w)) == rows[n := StoredRow(w.values, rows[n])]
  {
    PlanAddress(sheets, id, updates, w);
    RewriteReportedRows(sheets, w);
  }

  /** An update that leaves the `ID` field alone writes the record's own ID back into the ID column. */
  lemma KeptIdCell(headers: seq<string>, current: Record, updates: Updates, column: nat, id: string)
    requires column < |headers| && headers[column] == IdHeader && IdHeader !in updates && HasId(current, id)
    ensures RowValues(headers, PercentAdjusted(Merge(current, updates), updates))[column] == Str(id)
  {
    RowValuesAt(headers, current, updates, column);
  }

  /** An update that leaves the `ID` field alone keeps the written record's ID, repeated `ID` columns included. */
  lemma KeptIdField(headers: seq<string>, current: Record, updates: Updates, id: string)
    requires IdHeader in headers && IdHeader !in updates && HasId(current, id)
    ensures HasId(RowRecord(headers, RowValues(headers, PercentAdjusted(Merge(current, updates), updates))), id)
  {
    var values := RowValues(headers, PercentAdjusted(Merge(current, updates), updates));
    KeptIdCell(headers, current, updates, LastIndex(headers, IdHeader), id);
    RowRecordField(headers, values, IdHeader);
  }

  /** A non-empty ID is never a blank cell, so the stored row keeps the record's ID. */
  lemma StoredRowKeepsId(keys: seq<string>, values: seq<Cell>, previous: seq<Cell>, id: string)
    requires |keys| == |values| && HasId(RowRecord(keys, values), id) && id != ""
    ensures HasId(RowRecord(keys, StoredRow(values, previous)), id)
  {
    StoredRecord(keys, values, previous, IdHeader);
  }

  /** Rewriting a data row located by its ID, with the ID cell kept, leaves the ID column locating that row. */
  lemma RowAfterRewrite(sheets: seq<Sheet>, w: WriteRequest, column: nat, id: string, rowIndex: nat)
    requires FindTitle(sheets) == Success(w.title)
    requires LocateRow(HypothesesRows(sheets), column, id) == Some(rowIndex) && rowIndex >= 1 && w.rowNumber == rowIndex + 1
    requires column < |w.values| && w.values[column] == Str(id)
    ensures FindTitle(WriteRow(sheets, w)) == FindTitle(sheets)
    ensures HeaderRow(WriteRow(sheets, w)) == HeaderRow(sheets)
    ensures rowIndex < |HypothesesRows(sheets)|
    ensures HypothesesRows(WriteRow(sheets, w)) == HypothesesRows(sheets)[rowIndex := StoredRow(w.values, HypothesesRows(sheets)[rowIndex])]
    ensures LocateRow(HypothesesRows(WriteRow(sheets, w)), column, id) == Some(rowIndex)
  {
    var stored := StoredRow(w.values, HypothesesRows(sheets)[rowIndex]);
    assert stored != [] by {
      assert ReadsBack(stored, w.values);
      assert w.values[column] != Str("");
    }
    RewriteReportedRows(sheets, w);
    RewriteLocatesSameRow(HypothesesRows(sheets), column, id, rowIndex, w.values);
  }

  /** The data records after data row `p` is replaced: the same records, with the one decoded from row `p` replaced. */
  lemma RecordsAfterRewrite(rows: seq<seq<Cell>>, p: nat, row: seq<Cell>)
    requires 1 <= p < |rows|
    ensures Records(rows[p := row]) == Records(rows)[p - 1 := RowRecord(HeaderKeys(rows[0]), row)]
  {
    assert rows[p := row][0] == rows[0];
  }

  /** After the rewrite of a located data row the loaded records are the old ones with that row's record
      replaced by the record of the stored row. */
  lemma LoadAfterRewrite(sheets: seq<Sheet>, w: WriteRequest, column: nat, id: string, rowIndex: nat)
    requires FindTitle(sheets) == Success(w.title)
    requires LocateRow(HypothesesRows(sheets), column, id) == Some(rowIndex) && rowIndex >= 1 && w.rowNumber == rowIndex + 1
    requires column < |w.values| && w.values[column] == Str(id)
    ensures LoadRecords(sheets) == Success(Records(HypothesesRows(sheets)))
    ensures 1 <= rowIndex < |HypothesesRows(sheets)| && |Records(HypothesesRows(sheets))| == |HypothesesRows(sheets)| - 1
    ensures LoadRecords(WriteRow(sheets, w))
         == Success(Records(HypothesesRows(sheets))[rowIndex - 1 := RowRecord(HeaderRow(sheets), StoredRow(w.values, HypothesesRows(sheets)[rowIndex]))])
  {
    var after, rows := WriteRow(sheets, w), HypothesesRows(sheets);
    RowAfterRewrite(sheets, w, column, id, rowIndex);
    HypothesesRowsDecode(sheets);
    HypothesesRowsDecode(after);
    RecordsAfterRewrite(rows, rowIndex, StoredRow(w.values, rows[rowIndex]));
  }

  /** The lookup over records where one record holding the ID replaced another: it returns that record or
      the record it found before. */
  lemma WrittenRecordFound(after: seq<Sheet>, id: string, records: seq<Record>, p: nat, record: Record, current: Record)
    returns (again: Record)
    requires p < |records| && HasId(record, id) && LoadRecords(after) == Success(records[p := record])
    requires FirstWithId(records, id).Some? && records[FirstWithId(records, id).value] == current
    ensures again == current || again == record
    ensures HypothesisRow(after, id) == Success(again)
  {
    var s := FirstWithIdAfterReplace(records, id, p, record);
    again := records[p := record][s];
    FirstWithIdIsLookup(after, id, records[p := record], s, again);
  }

  /** After that rewrite the lookup stages find the same row again, its record either the one found before or
      the record of the row the store now holds. */
  lemma TargetAfterRewrite(sheets: seq<Sheet>, w: WriteRequest, column: nat, id: string, rowIndex: nat, current: Record)
    returns (again: Record, stored: seq<Cell>)
    requires FindTitle(sheets) == Success(w.title) && |HeaderRow(sheets)| == |w.values|
    requires FirstIndexOf(HeaderRow(sheets), IdHeader) == Some(column)
    requires LocateRow(HypothesesRows(sheets), column, id) == Some(rowIndex) && rowIndex >= 1 && w.rowNumber == rowIndex + 1
    requires HypothesisRow(sheets, id) == Success(current)
    requires column < |w.values| && w.values[column] == Str(id)
    requires HasId(RowRecord(HeaderRow(sheets), w.values), id)
    ensures ReadsBack(stored, w.values)
    ensures again == current || again == RowRecord(HeaderRow(sheets), stored)
    ensures FindTitle(WriteRow(sheets, w)) == FindTitle(sheets)
    ensures HeaderRow(WriteRow(sheets, w)) == HeaderRow(sheets)
    ensures FindTarget(WriteRow(sheets, w), id) == Success(Target(rowIndex, again))
  {
    RowAfterRewrite(sheets, w, column, id, rowIndex);
    again, stored := LookupAfterRewrite(sheets, w, column, id, rowIndex, current);
    FindTargetOfStages(WriteRow(sheets, w), id, column, rowIndex, again);
  }

  /** After that rewrite the lookup returns the record it found before or the record of the stored row. */
  lemma LookupAfterRewrite(sheets: seq<Sheet>, w: WriteRequest, column: nat, id: string, rowIndex: nat, current: Record)
    returns (again: Record, stored: seq<Cell>)
    requires FindTitle(sheets) == Success(w.title) && |HeaderRow(sheets)| == |w.values|
    requires LocateRow(HypothesesRows(sheets), column, id) == Some(rowIndex) && rowIndex >= 1 && w.rowNumber == rowIndex + 1
    requires HypothesisRow(sheets, id) == Success(current)
    requires column < |w.values| && w.values[column] == Str(id)
    requires HasId(RowRecord(HeaderRow(sheets), w.values), id)
    ensures ReadsBack(stored, w.values)
    ensures again == current || again == RowRecord(HeaderRow(sheets), stored)
    ensures HypothesisRow(WriteRow(sheets, w), id) == Success(again)
  {
    var rows := HypothesesRows(sheets);
    var records := Records(rows);
    stored := StoredRow(w.values, rows[rowIndex]);
    var record := RowRecord(HeaderRow(sheets), stored);
    assert HasId(record, id) by {
      StoredRowKeepsId(HeaderRow(sheets), w.values, rows[rowIndex], id);
    }
    assert && rowIndex - 1 < |records|
           && LoadRecords(WriteRow(sheets, w)) == Success(records[rowIndex - 1 := record])
           && FirstWithId(records, id).Some? && records[FirstWithId(records, id).value] == current by {
      LoadAfterRewrite(sheets, w, column, id, rowIndex);
      LoadedLookup(sheets, id, records);
    }
    again := WrittenRecordFound(WriteRow(sheets, w), id, records, rowIndex - 1, record, current);
  }

  /** A second run of an update that leaves the `ID` field alone plans the very same request: discovery and
      the headers are unchanged, the ID column locates the same row, and the record found there merges back
      into the written cells. */
  lemma UpdatePlanRepeats(sheets: seq<Sheet>, id: string, updates: Updates, w: WriteRequest)
    requires PlanUpdate(sheets, id, updates) == Success(w) && w.rowNumber >= 2
    requires IdHeader !in updates
    ensures PlanUpdate(WriteRow(sheets, w), id, updates) == Success(w)
  {
    var column, rowIndex, current := PlanUpdateStages(sheets, id, updates, w);
    var title, headers := w.title, HeaderRow(sheets);
    KeptIdCell(headers, current, updates, column, id);
    KeptIdField(headers, current, updates, id);
    var again, stored := TargetAfterRewrite(sheets, w, column, id, rowIndex, current);
    if again != current {
      RebuildSameWrite(title, headers, rowIndex, current, updates, w, stored);
    }
    PlanOfTarget(WriteRow(sheets, w), id, updates, rowIndex, again, title, headers, w);
  }

  /** Repeating an update that leaves the `ID` field alone is a no-op: the second run targets the same row
      and writes the same cells, so the grid stays as the first run left it. This needs the located row to
      be a data row. */
  lemma UpdateIdempotent(sheets: seq<Sheet>, id: string, updates: Updates, w: WriteRequest)
    requires PlanUpdate(sheets, id, updates) == Success(w) && w.rowNumber >= 2
    requires IdHeader !in updates
    ensures PlanUpdate(WriteRow(sheets, w), id, updates) == Success(w)
    ensures WriteRow(WriteRow(sheets, w), w) == WriteRow(sheets, w)
  {
    UpdatePlanRepeats(sheets, id, updates, w);
    WriteRowIdempotent(sheets, w);
  }

  /** An update with no fields writes each header's current cell, or `''` where the row has none, and so
      leaves a spreadsheet in store form as it was, provided the header names are distinct and the located
      row is a data row. */
  lemma EmptyUpdateChangesNothing(sheets: seq<Sheet>, id: string, w: WriteRequest)
    requires PlanUpdate(sheets, id, map[]) == Success(w) && w.rowNumber >= 2
    requires Distinct(HeaderRow(sheets)) && InStoreForm(sheets)
    ensures WriteRow(sheets, w) == sheets
  {
    var column, rowIndex, current := PlanUpdateStages(sheets, id, map[], w);
    RewriteLocatedRecord(sheets, id, column, rowIndex, current, w);
  }

  /** Writing the merge of no fields over the record that the `ID` column locates in a data row leaves a
      spreadsheet in store form as it was. */
  lemma RewriteLocatedRecord(sheets: seq<Sheet>, id: string, column: nat, rowIndex: nat, current: Record, w: WriteRequest)
    requires FindTitle(sheets).Success? && FirstIndexOf(HeaderRow(sheets), IdHeader) == Some(column)
    requires LocateRow(HypothesesRows(sheets), column, id) == Some(rowIndex) && rowIndex >= 1
    requires HypothesisRow(sheets, id) == Success(current)
    requires w.title == FindTitle(sheets).value && w.rowNumber == rowIndex + 1
    requires w.values == RowValues(HeaderRow(sheets), PercentAdjusted(Merge(current, map[]), map[]))
    requires Distinct(HeaderRow(sheets)) && InStoreForm(sheets)
    ensures WriteRow(sheets, w) == sheets
  {
    var k := LocatedRowRecord(sheets, id, column, rowIndex);
    RewriteOwnRecord(sheets, w, k, HeaderRow(sheets), current);
  }

  /** With distinct header names, the lookup of `id` decodes the row of the grid that the `ID` column
      locates, when that row is a data row. */
  lemma LocatedRowRecord(sheets: seq<Sheet>, id: string, column: nat, rowIndex: nat) returns (k: nat)
    requires FindTitle(sheets).Success? && FirstIndexOf(HeaderRow(sheets), IdHeader) == Some(column) && Distinct(HeaderRow(sheets))
    requires LocateRow(HypothesesRows(sheets), column, id) == Some(rowIndex) && rowIndex >= 1
    ensures TitleIndex(sheets, FindTitle(sheets).value) == Some(k) && rowIndex < |sheets[k].rows|
    ensures HypothesisRow(sheets, id) == Success(RowRecord(HeaderRow(sheets), sheets[k].rows[rowIndex]))
  {
    LookupFindsLocatedRow(sheets, id, column, rowIndex);
    k := LocatedSheetRow(sheets, rowIndex);
  }

  /** A row of the hypotheses sheet as a read reports it is the row of that sheet in the grid. */
  lemma LocatedSheetRow(sheets: seq<Sheet>, rowIndex: nat) returns (k: nat)
    requires FindTitle(sheets).Success? && rowIndex < |HypothesesRows(sheets)|
    ensures TitleIndex(sheets, FindTitle(sheets).value) == Some(k)
    ensures rowIndex < |sheets[k].rows| && HypothesesRows(sheets)[rowIndex] == sheets[k].rows[rowIndex]
  {
    k := HypothesesSheetIndex(sheets);
    ReportedRowIsRow(sheets[k].rows, rowIndex);
  }

  /** Writing a row of a sheet in store form with the merge of no fields over its own record leaves the
      spreadsheet as it was. */
  lemma RewriteOwnRecord(sheets: seq<Sheet>, w: WriteRequest, k: nat, headers: seq<string>, current: Record)
    requires w.rowNumber >= 1 && TitleIndex(sheets, w.title) == Some(k) && w.rowNumber - 1 < |sheets[k].rows|
    requires InStoreForm(sheets) && Distinct(headers)
    requires current == RowRecord(headers, sheets[k].rows[w.rowNumber - 1])
    requires w.values == RowValues(headers, PercentAdjusted(Merge(current, map[]), map[]))
    ensures WriteRow(sheets, w) == sheets
  {
    var row := sheets[k].rows[w.rowNumber - 1];
    assert StoredRow(w.values, row) == row by {
      assert EndsFilled(row);
      EmptyUpdateCells(headers, row, current);
      RewriteSameCells(w.values, row);
    }
    RewriteUnchangedRow(sheets, w, k);
  }

  /** With distinct header names, merging no fields over a row's record gives back the row's cells. */
  lemma EmptyUpdateCells(headers: seq<string>, row: seq<Cell>, current: Record)
    requires Distinct(headers) && current == RowRecord(headers, row)
    ensures var values := RowValues(headers, PercentAdjusted(Merge(current, map[]), map[]));
      forall i :: 0 <= i < |values| ==> values[i] == if i < |row| then row[i] else Str("")
  {
    forall i | 0 <= i < |headers|
      ensures RowValues(headers, PercentAdjusted(Merge(current, map[]), map[]))[i]
           == if i < |row| then row[i] else Str("")
    {
      RowValuesAt(headers, current, map[], i);
      DistinctRowRecordAt(headers, row, i);
    }
  }

  /** A write that stores its row as it was leaves the spreadsheet as it was. */
  lemma RewriteUnchangedRow(sheets: seq<Sheet>, w: WriteRequest, k: nat)
    requires w.rowNumber >= 1 && TitleIndex(sheets, w.title) == Some(k) && w.rowNumber - 1 < |sheets[k].rows|
    requires StoredRow(w.values, sheets[k].rows[w.rowNumber - 1]) == sheets[k].rows[w.rowNumber - 1]
    ensures WriteRow(sheets, w) == sheets
  {
    var rows := sheets[k].rows;
    assert rows[w.rowNumber - 1 := rows[w.rowNumber - 1]] == rows;
    assert sheets[k := Sheet(sheets[k].title, rows)] == sheets;
  }

  /** A plan is the request built for its target. */
  lemma PlanOfTarget(sheets: seq<Sheet>, id: string, updates: Updates, rowIndex: nat, current: Record,
                     title: string, headers: seq<string>, w: WriteRequest)
    requires FindTarget(sheets, id) == Success(Target(rowIndex, current))
    requires FindTitle(sheets) == Success(title) && HeaderRow(sheets) == headers
    requires |headers| >= 1 && BuildWrite(title, headers, rowIndex, current, updates) == w
    ensures PlanUpdate(sheets, id, updates) == Success(w)
  {
  }

  /** Building the request again from the record of the row the store holds after it gives the same request. */
  lemma RebuildSameWrite(title: string, headers: seq<string>, rowIndex: nat, current: Record, updates: Updates,
                         w: WriteRequest, stored: seq<Cell>)
    requires |headers| >= 1
    requires w == BuildWrite(title, headers, rowIndex, current, updates) && ReadsBack(stored, w.values)
    ensures BuildWrite(title, headers, rowIndex, RowRecord(headers, stored), updates) == w
  {
    RemergeKeepsCells(headers, current, updates, stored);
  }

  /** Performing the same write request twice leaves the grid as performing it once. */
  lemma WriteRowIdempotent(sheets: seq<Sheet>, w: WriteRequest)
    requires w.rowNumber >= 1
    ensures WriteRow(WriteRow(sheets, w), w) == WriteRow(sheets, w)
  {
    var after := WriteRow(sheets, w);
    if TitleIndex(sheets, w.title).Some? {
      var k := TitleIndex(sheets, w.title).value;
      var rows := WrittenRows(sheets[k].rows, w.rowNumber - 1, w.values);
      assert after == sheets[k := Sheet(sheets[k].title, rows)];
      assert TitleIndex(after, w.title) == Some(k) by {
        SameTitlesSameIndex(after, sheets, w.title);
      }
      assert after[k].rows == rows;
      WrittenRowsIdempotent(sheets[k].rows, w.rowNumber - 1, w.values);
      WriteRowRewritesSame(after, w, k, rows);
    }
  }

  /** A write whose rows come out as the sheet already holds them changes nothing. */
  lemma WriteRowRewritesSame(sheets: seq<Sheet>, w: WriteRequest, k: nat, rows: seq<seq<Cell>>)
    requires w.rowNumber >= 1 && TitleIndex(sheets, w.title) == Some(k) && sheets[k].rows == rows
    requires WrittenRows(rows, w.rowNumber - 1, w.values) == rows
    ensures WriteRow(sheets, w) == sheets
  {
    assert sheets[k := Sheet(sheets[k].title, rows)] == sheets;
  }

  /** Writing a row whose ID cell is kept leaves the first match of the ID where it was. */
  lemma RewriteLocatesSameRow(rows: seq<seq<Cell>>, column: nat, id: string, rowIndex: nat, values: seq<Cell>)
    requires LocateRow(rows, column, id) == Some(rowIndex)
    requires column < |values| && values[column] == Str(id)
    ensures LocateRow(rows[rowIndex := StoredRow(values, rows[rowIndex])], column, id) == Some(rowIndex)
  {
    var rows' := rows[rowIndex := StoredRow(values, rows[rowIndex])];
    assert rows'[rowIndex][column] == Str(id);
    IdColumnKeepsRow(rows, rows', column, id, rowIndex);
  }

  /** Rewriting one row with its ID cell kept leaves the first match of the ID unchanged. */
  lemma IdColumnKeepsRow(rows: seq<seq<Cell>>, rows': seq<seq<Cell>>, column: nat, id: string, rowIndex: nat)
    requires LocateRow(rows, column, id) == Some(rowIndex)
    requires |rows'| == |rows| && forall j :: 0 <= j < |rows| && j != rowIndex ==> rows'[j] == rows[j]
    requires column < |rows'[rowIndex]| && rows'[rowIndex][column] == Str(id)
    ensures LocateRow(rows', column, id) == Some(rowIndex)
  {
  }
}
