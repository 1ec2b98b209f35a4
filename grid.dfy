/** The abstract spreadsheet: sheets of rows of cells, as the store returns them, and the failures of the row store. */
module Grid {
  import opened Results
  import opened Text

  /** A cell value as the store returns it: text or a number. A blank cell is `Str("")`. */
  datatype Cell = Str(text: string) | Num(number: real)

  /** A JavaScript value supplied as a field update: a cell value, or `null`/`undefined` given explicitly. */
  datatype Value = Given(cell: Cell) | Null

  /** One sheet (tab) of the spreadsheet: its title, if it has one, and its rows; row 0 is the header row. */
  datatype Sheet = Sheet(title: Option<string>, rows: seq<seq<Cell>>)

  /** A decoded row: header name to cell. A header whose cell is missing is absent from the map. */
  type Record = map<string, Cell>

  /** A field update request: header name to new value. */
  type Updates = map<string, Value>

  datatype Error =
    | NoSheets
    | NoMatchingSheet
    | UnknownSheet(title: string)
    | ReadFailed(cause: Error)
    | NoHeaders
    | NoIdColumn
    | IdNotInSheet(id: string)
    | HypothesisNotFound(id: string)

  /** The message text of each failure. */
  function Message(e: Error): string {
    match e
    case NoSheets => "No sheets found in the spreadsheet."
    case NoMatchingSheet => "Could not find a sheet with the required headers."
    case UnknownSheet(title) => "Unable to parse range: " + title
    case ReadFailed(cause) => "Could not read from Google Sheets. Original error: " + Message(cause)
    case NoHeaders => "Could not read sheet headers."
    case NoIdColumn => "Could not find \"ID\" column in the sheet."
    case IdNotInSheet(id) => "Hypothesis " + id + " not found in sheet"
    case HypothesisNotFound(id) => "Hypothesis " + id + " not found"
  }

  /** JavaScript `String(c)`. */
  function CellString(c: Cell): string {
    match c
    case Str(t) => t
    case Num(x) => NumberText(x)
  }

  /** The property key a header cell becomes when a row is decoded: strings are trimmed, numbers stringified. */
  function HeaderKey(c: Cell): string {
    if c.Str? then Trim(c.text) else CellString(c)
  }

  /** The header name `getHeaders` makes of a cell, `String(h).trim()`, is the key decoding uses. */
  lemma HeaderKeysAgree(c: Cell)
    ensures Trim(CellString(c)) == HeaderKey(c)
  {
    if c.Num? {
      NumberTextIsTrimmed(c.number);
    }
  }

  /** Index of the first sheet with the given title: the sheet a range naming that title addresses. */
  function TitleIndex(sheets: seq<Sheet>, title: string): (r: Option<nat>)
    ensures r.Some? ==> r.value < |sheets| && sheets[r.value].title == Some(title)
    ensures r.Some? ==> forall j :: 0 <= j < r.value ==> sheets[j].title != Some(title)
    ensures r.None? ==> forall j :: 0 <= j < |sheets| ==> sheets[j].title != Some(title)
  {
    if |sheets| == 0 then None
    else if sheets[0].title == Some(title) then Some(0)
    else match TitleIndex(sheets[1..], title)
      case None => None
      case Some(k) => Some(k + 1)
  }

  /** Addressing by title sees the titles alone. */
  lemma SameTitlesSameIndex(a: seq<Sheet>, b: seq<Sheet>, title: string)
    requires |a| == |b| && forall m :: 0 <= m < |a| ==> a[m].title == b[m].title
    ensures TitleIndex(a, title) == TitleIndex(b, title)
  {
    var ra, rb := TitleIndex(a, title), TitleIndex(b, title);
    if ra.Some? {
      assert b[ra.value].title == Some(title);
    }
    if rb.Some? {
      assert a[rb.value].title == Some(title);
    }
  }

  /** How many rows a read of a sheet reports: the store reports a sheet up to its last non-empty row. */
  function ReportedCount(rows: seq<seq<Cell>>): (c: nat)
    ensures c <= |rows|
  {
    CountUpTo(rows, |rows|)
  }

  function CountUpTo(rows: seq<seq<Cell>>, m: nat): (c: nat)
    requires m <= |rows|
    ensures c <= m
  {
    if m == 0 || |rows[m - 1]| != 0 then m else CountUpTo(rows, m - 1)
  }

  /** The rows a read of a sheet returns. */
  function ReportedRows(rows: seq<seq<Cell>>): seq<seq<Cell>> {
    rows[..ReportedCount(rows)]
  }

  /** `m` rows are reported when row `m` is the last non-empty one, or when every row is empty and `m` is 0. */
  predicate ReportsUpTo(rows: seq<seq<Cell>>, m: nat) {
    && m <= |rows|
    && (m == 0 || |rows[m - 1]| != 0)
    && forall j :: m <= j < |rows| ==> |rows[j]| == 0
  }

  /** A read reports the rows up to the last non-empty one and cuts only empty rows. */
  lemma ReportedCountSpec(rows: seq<seq<Cell>>)
    ensures ReportsUpTo(rows, ReportedCount(rows))
  {
    CountUpToSpec(rows, |rows|);
  }

  /** Counting down from row `m` stops at the last non-empty row before it, passing only empty rows. */
  lemma {:induction false} CountUpToSpec(rows: seq<seq<Cell>>, m: nat)
    requires m <= |rows|
    ensures var c := CountUpTo(rows, m);
      && (c == 0 || |rows[c - 1]| != 0)
      && forall j :: c <= j < m ==> |rows[j]| == 0
    decreases m
  {
    if m > 0 && |rows[m - 1]| == 0 {
      CountUpToSpec(rows, m - 1);
    }
  }

  /** Only one count meets that description. */
  lemma ReportedCountIs(rows: seq<seq<Cell>>, m: nat)
    requires ReportsUpTo(rows, m)
    ensures ReportedCount(rows) == m
  {
    ReportedCountSpec(rows);
  }

  /** A reported row is the sheet's row at that position. */
  lemma ReportedRowIsRow(rows: seq<seq<Cell>>, j: nat)
    requires j < ReportedCount(rows)
    ensures j < |rows| && ReportedRows(rows)[j] == rows[j]
  {
  }

  /** Replacing a reported row gives the reported rows with that row replaced, cut again at the last
      non-empty row; a non-empty replacement is never cut. */
  lemma ReportedAfterReplace(rows: seq<seq<Cell>>, n: nat, row: seq<Cell>)
    requires n < ReportedCount(rows)
    ensures ReportedRows(rows[n := row]) == ReportedRows(ReportedRows(rows)[n := row])
    ensures |row| != 0 ==> ReportedRows(rows[n := row]) == ReportedRows(rows)[n := row]
  {
    ReportedCountSpec(rows);
    var c := ReportedCount(rows);
    var replaced := rows[..c][n := row];
    var after := rows[n := row];
    ReportedCountSpec(replaced);
    var q := ReportedCount(replaced);
    assert ReportsUpTo(after, q) by {
      assert q == 0 || after[q - 1] == replaced[q - 1];
      forall j | q <= j < |after|
        ensures |after[j]| == 0
      {
        if j < c {
          assert after[j] == replaced[j];
        }
      }
    }
    ReportedCountIs(after, q);
    assert after[..q] == replaced[..q];
    if |row| != 0 {
      assert ReportsUpTo(after, c) by {
        assert after[c - 1] == if n == c - 1 then row else rows[c - 1];
      }
      ReportedCountIs(after, c);
      assert after[..c] == replaced;
    }
  }

  /** A read of the whole sheet named `title`; the store fails when no sheet has that title. */
  function ReadSheet(sheets: seq<Sheet>, title: string): (r: Result<seq<seq<Cell>>, Error>)
    ensures r.Failure? <==> TitleIndex(sheets, title).None?
    ensures r.Success? ==> r.value == ReportedRows(sheets[TitleIndex(sheets, title).value].rows)
  {
    match TitleIndex(sheets, title)
    case None => Failure(UnknownSheet(title))
    case Some(k) => Success(ReportedRows(sheets[k].rows))
  }
}
