/** `GoogleSheetsService`: the row store's operations, step by step, over the spreadsheet it is connected to.
    The spreadsheet is held as a field, and a write replaces it. */
module Service {
  import opened Results
  import opened Text
  import opened Grid
  import opened ColumnLetters
  import opened Sequences
  import opened Discovery
  import opened Decode
  import opened Reads
  import opened RowLocation
  import opened Update

  class GoogleSheetsService {
    /** The sheets of the spreadsheet, in document order, as the store currently holds them. */
    var spreadsheet: seq<Sheet>

    constructor(sheets: seq<Sheet>)
      ensures spreadsheet == sheets
    {
      spreadsheet := sheets;
    }

    /** `findHypothesesSheetTitle`: scans the sheets in order, skipping untitled sheets and sheets without a
        header row, and returns the title of the first whose probed header cells name every required column. */
    method FindHypothesesSheetTitle() returns (r: Result<string, Error>)
      ensures r == FindTitle(spreadsheet)
    {
      var sheetsList := spreadsheet;
      if |sheetsList| == 0 {
        return Failure(NoSheets);
      }
      var i := 0;
      while i < |sheetsList|
        invariant i <= |sheetsList|
        invariant FirstHypothesesSheet(sheetsList, i) == FirstHypothesesSheet(sheetsList, 0)
      {
        var sheet := sheetsList[i];
        i := i + 1;
        if sheet.title.None? || sheet.title.value == "" {
          continue;
        }
        var title := sheet.title.value;
        if |sheet.rows| == 0 {
          continue;
        }
        var cleanedHeaders := CleanHeaders(ProbedHeaders(sheet.rows[0]));
        if HasRequiredHeaders(cleanedHeaders) {
          return Success(title);
        }
      }
      return Failure(NoMatchingSheet);
    }

    /** `loadHypotheses`: reads the whole hypotheses sheet and decodes its data rows; every failure on the way
        is reported as a read failure. */
    method LoadHypotheses() returns (r: Result<seq<Record>, Error>)
      ensures r == LoadRecords(spreadsheet)
    {
      var sheetTitle := FindHypothesesSheetTitle();
      if sheetTitle.Failure? {
        return Failure(ReadFailed(sheetTitle.error));
      }
      FoundTitleExists(spreadsheet);
      var response := ReadSheet(spreadsheet, sheetTitle.value);
      var hypotheses := DecodeRows(response.value);
      return Success(hypotheses);
    }

    /** `getHeaders`: the trimmed texts of the header row of the hypotheses sheet. */
    method GetHeaders() returns (r: Result<seq<string>, Error>)
      ensures r == Headers(spreadsheet)
    {
      var sheetTitle :- FindHypothesesSheetTitle();
      FoundTitleExists(spreadsheet);
      var response := ReadSheet(spreadsheet, sheetTitle);
      return Success(HeaderNames(response.value));
    }

    /** `getHypothesisRow`: the first loaded record whose `ID` is `id`. */
    method GetHypothesisRow(id: string) returns (r: Result<Record, Error>)
      ensures r == HypothesisRow(spreadsheet, id)
    {
      var hypotheses :- LoadHypotheses();
      var found := FirstWithId(hypotheses, id);
      if found.None? {
        return Failure(HypothesisNotFound(id));
      }
      return Success(hypotheses[found.value]);
    }

    /** The first half of `updateHypothesis`: discovery, the header read, the `ID` column, the ID-column read
        addressed by the column's letter, and the current record. It yields the title and headers it read. */
    method LocateUpdate(id: string) returns (r: Result<Target, Error>, title: string, headers: seq<string>)
      ensures r == FindTarget(spreadsheet, id)
      ensures r.Success? ==> FindTitle(spreadsheet) == Success(title) && headers == HeaderRow(spreadsheet)
    {
      ghost var sheets := spreadsheet;
      title, headers := "", [];
      title :- FindHypothesesSheetTitle();
      var headerRead := GetHeaders();
      assert headerRead == Success(HeaderRow(sheets));
      headers := headerRead.value;
      if |headers| == 0 {
        return Failure(NoHeaders), title, headers;
      }
      var idColumnIndex := FirstIndexOf(headers, IdHeader);
      if idColumnIndex.None? {
        return Failure(NoIdColumn), title, headers;
      }
      var idColumnLetter := ColumnIndexToLetter(idColumnIndex.value);
      LetterToIndexOfColumnName(idColumnIndex.value);
      FoundTitleExists(sheets);
      var response := ReadSheet(spreadsheet, title);
      var idColumnValues := IdColumn(response.value, LetterToIndex(idColumnLetter));
      var rowIndex := FirstIndexOf(idColumnValues, Some(Str(id)));
      assert rowIndex == LocateRow(HypothesesRows(sheets), idColumnIndex.value, id);
      if rowIndex.None? {
        return Failure(IdNotInSheet(id)), title, headers;
      }
      var currentRowData := GetHypothesisRow(id);
      if currentRowData.Failure? {
        return Failure(currentRowData.error), title, headers;
      }
      return Success(Target(rowIndex.value, currentRowData.value)), title, headers;
    }

    /** The second half of `updateHypothesis` up to the write: the merge, the percentage transform, the
        cells in header order and the range from column A to the last header's column. */
    method BuildRequest(title: string, headers: seq<string>, rowIndex: nat, current: Record, updates: Updates)
      returns (request: WriteRequest)
      requires |headers| >= 1
      ensures request == BuildWrite(title, headers, rowIndex, current, updates)
    {
      var absoluteRowNumber := rowIndex + 1;
      var updatedData := PercentAdjusted(Merge(current, updates), updates);
      var orderedRowValues := RowValues(headers, updatedData);
      var endColumnLetter := ColumnIndexToLetter(|headers| - 1);
      var updateRange := title + "!A" + DecimalText(absoluteRowNumber) + ":" + endColumnLetter + DecimalText(absoluteRowNumber);
      request := WriteRequest(title, updateRange, absoluteRowNumber, orderedRowValues);
    }

    /** `updateHypothesis`: on success the spreadsheet is the old one with the planned row written; on failure
        it reports the error the steps stop at and the spreadsheet is unchanged. */
    method UpdateHypothesis(id: string, updates: Updates) returns (err: Option<Error>)
      modifies this
      ensures err.None? <==> PlanUpdate(old(spreadsheet), id, updates).Success?
      ensures err.Some? ==> err.value == PlanUpdate(old(spreadsheet), id, updates).error && spreadsheet == old(spreadsheet)
      ensures err.None? ==> spreadsheet == WriteRow(old(spreadsheet), PlanUpdate(old(spreadsheet), id, updates).value)
    {
      ghost var sheets := spreadsheet;
      var target, title, headers := LocateUpdate(id);
      if target.Failure? {
        assert PlanUpdate(sheets, id, updates) == Failure(target.error);
        return Some(target.error);
      }
      var request := BuildRequest(title, headers, target.value.rowIndex, target.value.current, updates);
      PlanOfTarget(sheets, id, updates, target.value.rowIndex, target.value.current, title, headers, request);
      spreadsheet := WriteRow(spreadsheet, request);
      return None;
    }
  }
}
