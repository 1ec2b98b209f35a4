/** Decoding a sheet's grid into records keyed by header name, the way `loadHypotheses` and `getHeaders` read row 0. */
module Decode {
  import opened Text
  import opened Grid

  /** The keys decoding gives the columns: each header cell as `HeaderKey` turns it into a property name. */
  function HeaderKeys(headerRow: seq<Cell>): (r: seq<string>)
    ensures |r| == |headerRow|
    ensures forall i :: 0 <= i < |r| ==> r[i] == HeaderKey(headerRow[i])
  {
    seq(|headerRow|, i requires 0 <= i < |headerRow| => HeaderKey(headerRow[i]))
  }

  /** `getHeaders`: `String(h).trim()` of every cell of row 1, or no headers when the sheet has no rows. */
  function HeaderNames(rows: seq<seq<Cell>>): (r: seq<string>)
    ensures |rows| == 0 ==> r == []
    ensures |rows| > 0 ==> |r| == |rows[0]|
  {
    if |rows| == 0 then [] else seq(|rows[0]|, i requires 0 <= i < |rows[0]| => Trim(CellString(rows[0][i])))
  }

  /** The header row a read reports is the sheet's first row, so the cut trailing empty rows do not change the names. */
  lemma HeaderNamesOfReported(rows: seq<seq<Cell>>)
    ensures HeaderNames(ReportedRows(rows)) == HeaderNames(rows)
  {
    var reported := ReportedRows(rows);
    ReportedCountSpec(rows);
    if |reported| > 0 {
      assert reported[0] == rows[0];
    }
  }

  /** The header names `getHeaders` returns are exactly the keys the decoded records use. */
  lemma HeaderNamesAreKeys(rows: seq<seq<Cell>>)
    requires |rows| > 0
    ensures HeaderNames(rows) == HeaderKeys(rows[0])
  {
    forall i | 0 <= i < |rows[0]|
      ensures HeaderNames(rows)[i] == HeaderKeys(rows[0])[i]
    {
      HeaderKeysAgree(rows[0][i]);
    }
  }

  /** The position of the last column named `k`. */
  function LastIndex(keys: seq<string>, k: string): (i: nat)
    requires k in keys
    ensures i < |keys| && keys[i] == k
    ensures forall j :: i < j < |keys| ==> keys[j] != k
  {
    if keys[|keys| - 1] == k then |keys| - 1 else LastIndex(keys[..|keys| - 1], k)
  }

  /** The record a data row decodes to: the header names are assigned in column order, each to the row's
      cell under it, and a name whose column lies past the end of the row is removed, as assigning
      `undefined` leaves no value. A repeated header name therefore ends with its last column's cell. */
  function RowRecord(keys: seq<string>, row: seq<Cell>): (r: Record)
    ensures forall k :: k in r ==> k in keys
    decreases |keys|
  {
    if |keys| == 0 then map[]
    else
      var i := |keys| - 1;
      var before := RowRecord(keys[..i], row);
      if i < |row| then before[keys[i] := row[i]] else before - {keys[i]}
  }

  /** Field `k` of a decoded row is the cell under the LAST column named `k`, and is absent when there is no
      such column or the row does not reach it. */
  lemma {:induction false} RowRecordField(keys: seq<string>, row: seq<Cell>, k: string)
    ensures k in RowRecord(keys, row) <==> k in keys && LastIndex(keys, k) < |row|
    ensures k in RowRecord(keys, row) ==> RowRecord(keys, row)[k] == row[LastIndex(keys, k)]
    decreases |keys|
  {
    if |keys| > 0 {
      var i := |keys| - 1;
      RowRecordField(keys[..i], row, k);
      if keys[i] != k && k in keys {
        assert k in keys[..i] by {
          var j :| 0 <= j < |keys| && keys[j] == k;
          assert j < i && keys[..i][j] == k;
        }
      }
    }
  }

  /** Column alignment: the field of header `i` is the cell of the last column carrying that name, or absent
      past the end of the row. With a repeated header name the later column wins. */
  lemma RowRecordAt(keys: seq<string>, row: seq<Cell>, i: nat)
    requires i < |keys|
    ensures i <= LastIndex(keys, keys[i])
    ensures keys[i] in RowRecord(keys, row) <==> LastIndex(keys, keys[i]) < |row|
    ensures LastIndex(keys, keys[i]) < |row| ==> RowRecord(keys, row)[keys[i]] == row[LastIndex(keys, keys[i])]
  {
    RowRecordField(keys, row, keys[i]);
  }

  predicate Distinct(keys: seq<string>) {
    forall i, j :: 0 <= i < j < |keys| ==> keys[i] != keys[j]
  }

  /** With distinct header names, field `i` is cell `i`, present exactly when the row reaches column `i`. */
  lemma DistinctRowRecordAt(keys: seq<string>, row: seq<Cell>, i: nat)
    requires Distinct(keys) && i < |keys|
    ensures keys[i] in RowRecord(keys, row) <==> i < |row|
    ensures i < |row| ==> RowRecord(keys, row)[keys[i]] == row[i]
  {
    RowRecordAt(keys, row, i);
  }

  /** Cells to the right of the last header never reach a record. */
  lemma RowRecordIgnoresExtraCells(keys: seq<string>, row: seq<Cell>, extra: seq<Cell>)
    requires |keys| <= |row|
    ensures RowRecord(keys, row + extra) == RowRecord(keys, row)
  {
    var a, b := RowRecord(keys, row + extra), RowRecord(keys, row);
    forall k
      ensures (k in a <==> k in b) && (k in a ==> a[k] == b[k])
    {
      RowRecordField(keys, row + extra, k);
      RowRecordField(keys, row, k);
      if k in keys {
        assert (row + extra)[LastIndex(keys, k)] == row[LastIndex(keys, k)];
      }
    }
    assert a.Keys == b.Keys;
  }

  /** The `forEach` over the headers that fills a fresh record for one data row. */
  method DecodeRow(keys: seq<string>, row: seq<Cell>) returns (hypothesis: Record)
    ensures hypothesis == RowRecord(keys, row)
  {
    hypothesis := map[];
    for index := 0 to |keys|
      invariant hypothesis == RowRecord(keys[..index], row)
    {
      assert keys[..index + 1][..index] == keys[..index];
      if index < |row| {
        hypothesis := hypothesis[keys[index] := row[index]];
      } else {
        hypothesis := hypothesis - {keys[index]};
      }
    }
    assert keys[..|keys|] == keys;
  }

  /** The records of a whole sheet: none without a data row, otherwise one per data row, in row order. */
  function Records(rows: seq<seq<Cell>>): (r: seq<Record>)
    ensures |rows| < 2 ==> r == []
    ensures |rows| >= 2 ==> |r| == |rows| - 1
    ensures forall j :: 0 <= j < |r| ==> r[j] == RowRecord(HeaderKeys(rows[0]), rows[j + 1])
  {
    if |rows| < 2 then []
    else seq(|rows| - 1, j requires 0 <= j < |rows| - 1 => RowRecord(HeaderKeys(rows[0]), rows[j + 1]))
  }

  /** `rows.slice(1).map(...)`: decodes every data row against the trimmed header row. */
  method DecodeRows(rows: seq<seq<Cell>>) returns (hypotheses: seq<Record>)
    ensures hypotheses == Records(rows)
  {
    if |rows| < 2 {
      return [];
    }
    var headers := HeaderKeys(rows[0]);
    ghost var all := Records(rows);
    hypotheses := [];
    for j := 1 to |rows|
      invariant hypotheses == all[..j - 1]
    {
      var hypothesis := DecodeRow(headers, rows[j]);
      assert all[..j] == all[..j - 1] + [hypothesis];
      hypotheses := hypotheses + [hypothesis];
    }
    assert all[..|rows| - 1] == all;
  }

  lemma TwoColumnRecord(keys: seq<string>, a: Cell, b: Cell)
    requires keys == ["ID", "Name"]
    ensures RowRecord(keys, [a, b]) == map["ID" := a, "Name" := b]
  {
    DistinctRowRecordAt(keys, [a, b], 0);
    DistinctRowRecordAt(keys, [a, b], 1);
  }

  /** The worked example: headers ID and Name over two data rows; a header row alone decodes to nothing. */
  lemma RecordsExample()
    ensures Records([[Str("ID"), Str("Name")], [Str("1"), Str("Alice")], [Str("2"), Str("Bob")]])
         == [map["ID" := Str("1"), "Name" := Str("Alice")], map["ID" := Str("2"), "Name" := Str("Bob")]]
    ensures Records([[Str("ID"), Str("Name")]]) == []
  {
    var rows := [[Str("ID"), Str("Name")], [Str("1"), Str("Alice")], [Str("2"), Str("Bob")]];
    var keys := HeaderKeys(rows[0]);
    assert keys == ["ID", "Name"] by {
      assert HeaderKey(Str("ID")) == "ID" by { TrimUnpadded("ID"); }
      assert HeaderKey(Str("Name")) == "Name" by { TrimUnpadded("Name"); }
    }
    var r := Records(rows);
    assert r[0] == map["ID" := Str("1"), "Name" := Str("Alice")] by { TwoColumnRecord(keys, Str("1"), Str("Alice")); }
    assert r[1] == map["ID" := Str("2"), "Name" := Str("Bob")] by { TwoColumnRecord(keys, Str("2"), Str("Bob")); }
  }
}
