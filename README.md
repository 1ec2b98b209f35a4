# Header-indexed row store over a spreadsheet

This project is a Dafny model of the row store behind a hypothesis-tracking tool. The store keeps hypotheses
as rows of a spreadsheet sheet. Row 1 of the sheet holds the column titles, and every later row is one record
keyed by those titles. The model covers:

- **sheet discovery**: which sheet holds the hypotheses;
- **decoding**: turning the grid into records;
- **lookup by `ID`**;
- **in-place update of one record**: locate its row through the `ID` column, merge the update over the current
  record, and write the row back in header order with one ranged write;
- **column-letter names**: the letters (`A`, `B`, …, `Z`, `AA`, …) used to build those ranges;
- **the `update_hypotheses` tool**: it builds the update record and picks a status from a confidence score.

The spreadsheet service is abstract. A spreadsheet is a sequence of sheets, each with an optional title and
rows of cells. Every read is a function of that sequence. The one write is `Update.WriteRow`, which replaces
the addressed row. `Service.GoogleSheetsService` holds the spreadsheet as a field, and its methods perform the
steps of `GoogleSheetsService`'s methods one by one. Each method is proved equal to the specification function
whose properties the lemmas establish. The update method is `modifies this`: on success it writes exactly the
request `Update.PlanUpdate` describes, and on failure it leaves the field unchanged.

Modules, one file each:

- `Results`: Option and Result.
- `Text`: JavaScript `trim()` and number-to-text.
- `Grid`: the cell, sheet, record and error types, and the address-by-title read.
- `ColumnLetters`: column-letter names.
- `Sequences`: `indexOf` and `flat`.
- `Discovery`: sheet discovery.
- `Decode`: decoding rows into records.
- `Reads`: load, the header read and lookup by `ID`.
- `RowLocation`: the `ID` column read.
- `Update`: the update's plan and the lemmas about it.
- `Service`: the class.
- `UpdateTool`: the tool.

Three facts about the code that the model keeps:

- The code never checks that header names are distinct. Decoding lets the later column win.
- Discovery reads only `A1:Z1`, the first 26 cells of row 1.
- Repeating an update is harmless when the located row is a data row and the update leaves `ID` alone.
  `Update.UpdateIdempotent` proves this for every such update, repeated header names included.

The store reports a row only up to its last filled cell, and writing `''` clears a cell. So a written row is
stored without its trailing blank cells (`Update.StoredRow`), and the ID-column read drops blank cells. In the
same way a read of a sheet reports its rows only up to the last non-empty one (`Grid.ReportedRows`): a write
that empties the last row shortens what the next read returns. An update with no fields on a data row
(`rowNumber >= 2`) therefore leaves the spreadsheet exactly as it was, provided the header names are distinct
and every row already ends in a filled cell (`Update.InStoreForm`). This is `Update.EmptyUpdateChangesNothing`.

## Model

| member | source | states |
|---|---|---|
| ColumnLetters.ColumnIndexToLetter | src/services/google-sheets.ts:159-168 | The loop returns `ColumnName(index)`. Its invariant is that the letters built so far, appended to the numeral of the remaining dividend, give the numeral of `index + 1`. It terminates because the dividend strictly decreases. |
| ColumnLetters.LettersPeel | src/services/google-sheets.ts:163-165 | One iteration prepends the letter `65 + (dividend - 1) % 26` and continues with `(dividend - modulo) / 26`. This keeps the whole numeral, and the new dividend is smaller but not negative. |
| ColumnLetters.ColumnName | src/services/google-sheets.ts:159-168 | The name of every index is non-empty and uses only `A`–`Z`. |
| ColumnLetters.ValueOfLetters | src/services/google-sheets.ts:159-168 | The letter value of the bijective base-26 numeral of `d` is `d`. |
| ColumnLetters.LettersOfValue | src/services/google-sheets.ts:159-168 | Any string of letters is the numeral of its own letter value. |
| ColumnLetters.LetterToIndexOfColumnName | src/services/google-sheets.ts:159-168 | The letter-to-index inverse recovers `i` from the name of `i`, for every `i ≥ 0`. |
| ColumnLetters.ColumnNameOfLetterToIndex | src/services/google-sheets.ts:159-168 | Every non-empty string of `A`–`Z` is the name of exactly the index it denotes. |
| ColumnLetters.ColumnNameInjective | src/services/google-sheets.ts:159-168 | Distinct indexes get distinct names. |
| ColumnLetters.ColumnNameExamples | src/services/google-sheets.ts:159-168 | 0→`A`, 25→`Z`, 26→`AA`, 701→`ZZ`, 702→`AAA`. |
| Discovery.ProbedHeaders | src/services/google-sheets.ts:143-147 | The probe of `A1:Z1` returns the first `min(26, n)` cells of the header row, as a prefix of it. |
| Discovery.CleanHeaders | src/services/google-sheets.ts:150 | One cleaned cell per probed cell. `Discovery.CleanedHeadersContain` states what the cleaned cells contain. |
| Discovery.CleanedHeadersContain | src/services/google-sheets.ts:150-152 | A required name is among the cleaned header cells exactly when it is the trimmed text of one of the first 26 cells. A number cell never matches. |
| Discovery.HasRequiredHeaders | src/services/google-sheets.ts:151-152 | No contract: every required title occurs among the cleaned cells. `Discovery.CleanedHeadersContain` characterises it. |
| Discovery.IsHypothesesSheet | src/services/google-sheets.ts:139-152 | No contract: the test one sheet must pass. `Discovery.IsHypothesesSheetMeans` characterises it. |
| Discovery.IsHypothesesSheetMeans | src/services/google-sheets.ts:139-154 | A sheet qualifies exactly when it has a non-empty title and a header row, and each of `Problem Title`, `Hypothesis` and `Questions to Ask in Meeting` is the trimmed text of one of its first 26 header cells. |
| Discovery.FirstHypothesesSheet | src/services/google-sheets.ts:139-155 | The scan returns a titled sheet at or after `from`. `Discovery.FirstHypothesesSheetSpec` states that it is the first qualifying one. |
| Discovery.FirstHypothesesSheetSpec | src/services/google-sheets.ts:139-155 | The scan from position `from` returns a qualifying sheet with none qualifying before it, and returns nothing only when no sheet from `from` on qualifies. |
| Discovery.FindTitle | src/services/google-sheets.ts:130-157 | Discovery can fail only with "no sheets" or "no matching sheet". |
| Discovery.FindTitleSpec | src/services/google-sheets.ts:134-156 | It fails with "no sheets" if and only if the spreadsheet is empty. It fails with "no matching sheet" if and only if sheets exist and none qualifies. Otherwise it returns the title of the first qualifying sheet in document order. |
| Discovery.UniqueHypothesesSheet | src/services/google-sheets.ts:139-155 | When exactly one sheet qualifies, discovery returns its title wherever it stands. |
| Discovery.FindTitleReadsHeaderRows | src/services/google-sheets.ts:139-155 | Discovery depends only on the sheets' titles and header rows. |
| Service.GoogleSheetsService.FindHypothesesSheetTitle | src/services/google-sheets.ts:130-157 | The loop, with its `continue`s and early return, returns exactly `FindTitle` of the spreadsheet. Its invariant is that the first qualifying sheet from the current position is the first qualifying sheet overall. |
| Grid.TitleIndex | src/services/google-sheets.ts:26-29 | A read addressed by title goes to the first sheet with that title: found, none before it, or none at all. |
| Grid.SameTitlesSameIndex | src/services/google-sheets.ts:26-29 | Addressing by title depends only on the titles. |
| Grid.ReadSheet | src/services/google-sheets.ts:26-29 | A read of a sheet fails exactly when no sheet has the title, and otherwise returns that sheet's rows up to its last non-empty row. |
| Grid.ReportedRows | src/services/google-sheets.ts:26-31 | No contract: the rows a read returns, the grid's rows cut after the last non-empty one. `Grid.ReportedCountSpec` states where the cut falls. |
| Grid.ReportedCountSpec | src/services/google-sheets.ts:26-31 | A read reports the rows up to a non-empty last row, or none, and every row it leaves out is empty. |
| Grid.ReportedCountIs | src/services/google-sheets.ts:26-31 | Only one count of rows meets that description. |
| Grid.ReportedAfterReplace | src/services/google-sheets.ts:26-31 | Replacing a reported row and reading again gives the reported rows with that row replaced, cut again; a non-empty replacement is never cut. |
| Text.TrimSpec | src/services/google-sheets.ts:37 | `trim()` keeps a contiguous part of the text, cuts off only white space on either side, and keeps no white space at either end. |
| Text.TrimIdempotent | src/services/google-sheets.ts:37 | Trimming twice is trimming once. |
| Text.Trim | src/services/google-sheets.ts:37 | The result is never longer than the text. `Text.TrimSpec` states what is cut. |
| Text.NumberText | src/services/google-sheets.ts:61 | `String(n)` of a number cell is non-empty, starts with `-` or a digit and ends with a digit, and starts with `-` exactly when the number is negative. |
| Grid.HeaderKey | src/services/google-sheets.ts:37 | No contract: a text cell is trimmed and a number is stringified. `Grid.HeaderKeysAgree` relates it to the header read. |
| Grid.Message | src/services/google-sheets.ts:50-156 | No contract: the text of each failure, as thrown at lines 50, 68, 78, 83, 98, 136 and 156. `UnknownSheet` ("Unable to parse range: …") is not thrown by the code: it stands for the error the remote service raises for a title no sheet has, which `Grid.ReadSheet` returns. |
| Grid.CellString | src/services/google-sheets.ts:61 | No contract: JavaScript `String(h)` of a cell. `Grid.HeaderKeysAgree` states that trimming it gives the decoding key. |
| Grid.HeaderKeysAgree | src/services/google-sheets.ts:60-61 | `String(h).trim()` of a header cell is the key that decoding gives that cell. |
| Decode.HeaderNames | src/services/google-sheets.ts:60-61 | The header read returns no names when the sheet has no rows, and otherwise one name per header cell. |
| Decode.HeaderNamesAreKeys | src/services/google-sheets.ts:60-61 | The names the header read returns are exactly the keys the decoded records use. |
| Decode.HeaderKeys | src/services/google-sheets.ts:37 | There is one key per header cell, and key `i` is the decoding of cell `i`. |
| Decode.RowRecord | src/services/google-sheets.ts:39-43 | Every field of a decoded row is named by a header. |
| Decode.RowRecordField | src/services/google-sheets.ts:40-42 | Field `k` is present exactly when some header is `k` and the row reaches the last column so named. Its value is that column's cell, so a repeated name takes the later column. |
| Decode.RowRecordAt | src/services/google-sheets.ts:40-42 | The field of header `i` is the cell of the last column with that name, and is absent when the row does not reach that column. |
| Decode.DistinctRowRecordAt | src/services/google-sheets.ts:40-42 | With distinct headers, field `i` is `row[i]` when the row reaches column `i`, and is absent otherwise. |
| Decode.RowRecordIgnoresExtraCells | src/services/google-sheets.ts:40-42 | Cells to the right of the last header never reach a record. |
| Decode.DecodeRow | src/services/google-sheets.ts:39-43 | The `forEach` over the headers builds `RowRecord(keys, row)`. Its invariant is that after `index` headers the record is the decoding by the first `index` headers. |
| Decode.Records | src/services/google-sheets.ts:31-44 | Decoding yields `[]` when there are fewer than 2 rows. Otherwise it yields one record per data row, in row order, and record `j` is the decoding of row `j + 1` against the header row. |
| Decode.DecodeRows | src/services/google-sheets.ts:31-44 | The loop over the data rows returns `Records(rows)`. |
| Decode.RecordsExample | src/services/google-sheets.ts:31-44 | An `ID`/`Name` header over two data rows decodes to the two records. A header row alone decodes to nothing. |
| Reads.LoadRecords | src/services/google-sheets.ts:21-52 | Loading fails exactly when discovery fails, and the error is wrapped as a read failure. Otherwise it returns the records of the sheet discovery names. |
| Reads.FoundTitleExists | src/services/google-sheets.ts:23-29 | The title discovery returns addresses an existing sheet, so the read that follows cannot fail. |
| Service.GoogleSheetsService.LoadHypotheses | src/services/google-sheets.ts:21-52 | The method returns exactly `LoadRecords` of the spreadsheet. |
| Reads.Headers | src/services/google-sheets.ts:54-62 | The header read fails exactly when discovery fails, with the same error. Otherwise it returns the trimmed names of row 1 of that sheet. |
| Service.GoogleSheetsService.GetHeaders | src/services/google-sheets.ts:54-62 | The method returns exactly `Headers` of the spreadsheet. |
| Reads.FirstWithId | src/services/google-sheets.ts:66 | `find` returns the first record whose `ID` is exactly the text `id`, with none before it, or nothing when no record has it. |
| Reads.HypothesisRow | src/services/google-sheets.ts:64-71 | The lookup fails with the load error when loading fails, and otherwise with "not found". |
| Reads.LookupIsFirstMatch | src/services/google-sheets.ts:64-71 | A successful lookup returns a loaded record with the `ID`, with no loaded record before it having that `ID`. Given a load, it fails if and only if no loaded record has the `ID`. |
| Reads.LoadedLookup | src/services/google-sheets.ts:64-71 | Given the loaded records, the lookup succeeds exactly when some record has the `ID`, and returns the first such record. |
| Reads.FirstWithIdIsLookup | src/services/google-sheets.ts:64-71 | When the first loaded record with the `ID` is at `j`, the lookup returns record `j`. |
| Reads.FirstWithIdAfterReplace | src/services/google-sheets.ts:66 | Replacing record `p` by a record with the `ID` leaves a first match before `p` where it was, and otherwise moves the first match to `p`. |
| Reads.LookupExample | src/services/google-sheets.ts:66 | On the `ID`/`Name` table, `ID` "2" finds Bob's record and `ID` "9" finds nothing. |
| Service.GoogleSheetsService.GetHypothesisRow | src/services/google-sheets.ts:64-71 | The method returns exactly `HypothesisRow` of the spreadsheet. |
| RowLocation.IdCell | src/services/google-sheets.ts:89-94 | A single-column read yields a row's cell only when the row reaches the column and the cell is not blank. |
| RowLocation.IdColumn | src/services/google-sheets.ts:89-94 | The ID-column read, kept aligned with the sheet, has one entry per row. |
| Sequences.FirstIndexOf | src/services/google-sheets.ts:81-95 | The first position holding `x`, with none before it, and nothing exactly when `x` does not occur. This is `indexOf` at line 81 and `findIndex` at line 95. |
| RowLocation.LocateRow | src/services/google-sheets.ts:94-99 | The corrected row search returns the first row, header row included, whose ID cell is exactly `id`, with none before it. It returns nothing exactly when `id` is empty or no row holds it. |
| RowLocation.LocateRowAsWritten | src/services/google-sheets.ts:94-95 | The search over the flattened column, as written, returns an index below the number of rows. |
| Sequences.Flatten | src/services/google-sheets.ts:94 | One level of `flat()`: when every inner list has at most one entry, the result is no longer than the list. `RowLocation.FlattenSingletons` states that singletons flatten to their entries in order. |
| RowLocation.FlatIdColumn | src/services/google-sheets.ts:94 | The flattened column has at most one entry per row. |
| RowLocation.AsWrittenAgreesWithoutBlanks | src/services/google-sheets.ts:94-95 | When every row has a non-blank ID cell, the search as written finds the same row as the corrected search. |
| RowLocation.AsWrittenMissesRowBelowBlank | src/services/google-sheets.ts:94-101 | With a blank row above the target, the search as written names the blank row and not the row holding the `ID`. |
| Update.Merge | src/services/google-sheets.ts:104 | The spread merge has the union of the keys. An updated field takes the update's value, and every other field keeps its current value. |
| Update.RowValuesAt | src/services/google-sheets.ts:104-111 | Cell `i` of the serialised row is the field-by-field merge for header `i`: a truthy numeric `Confidence %` divided by 100; otherwise the update's value, blank for null; otherwise the current value; otherwise blank. |
| Update.UpdateFailures | src/services/google-sheets.ts:75-103 | The update fails, in the code's order, with each of the errors it checks: <ul><li>discovery's error;</li><li>no headers;</li><li>no `ID` column;</li><li>`id` not in the ID column;</li><li>the lookup's error.</li></ul> |
| Update.PlanUpdateStages | src/services/google-sheets.ts:75-114 | A successful plan has passed every stage and is the request built from the located row and the current record. |
| Update.UpdateTarget | src/services/google-sheets.ts:81-101 | A successful update addresses the sheet discovery names, at 1-based row `rowIndex + 1`, where `rowIndex` is the first row whose `ID`-column cell is `id`. |
| Update.UpdateShape | src/services/google-sheets.ts:111-114 | The write has exactly one cell per header, at least one, and its range is `RowRange` of the title, the row number and the header count. |
| Update.RowRangeSpans | src/services/google-sheets.ts:113-114 | The range is `title!A<row>:<last><row>`, where `<last>` is a column name whose index is the last header's and `<row>` is a numeral denoting the row number. |
| Update.UpdatedCells | src/services/google-sheets.ts:103-111 | Each written cell is `UpdatedCell` of the record found for `id`, the update and that cell's header. |
| Update.UnknownFieldsIgnored | src/services/google-sheets.ts:104-111 | Two updates that agree on every header give the same write, so keys that name no header never reach the grid. |
| Update.WriteRowFrame | src/services/google-sheets.ts:116-121 | A write to an existing row changes that row and nothing else. The new row is the stored row: the written cells, then any old cells beyond them, without trailing blank cells. |
| Update.FindTarget | src/services/google-sheets.ts:75-103 | On success, discovery succeeded and row 1 has at least one header. `Update.UpdateFailures` gives each failing stage's error. |
| Update.PlanUpdate | src/services/google-sheets.ts:75-114 | No contract of its own: the stages up to the write, as one function. `Update.UpdateFailures`, `Update.PlanUpdateStages` and the lemmas after them state its properties. |
| Update.BuildWrite | src/services/google-sheets.ts:101-114 | No contract of its own: the request for one row. `Update.UpdateShape`, `Update.UpdatedCells` and `Update.RowRangeSpans` state its range and cells. |
| Update.IsPercentUpdate | src/services/google-sheets.ts:107 | No contract: the update gives `Confidence %` a number other than zero, which is truthy and has `typeof` number. |
| Update.PercentAdjusted | src/services/google-sheets.ts:106-109 | No contract: a qualifying `Confidence %` is replaced by its value divided by 100. `Update.RowValuesAt` states the result cell by cell. |
| Update.RowValues | src/services/google-sheets.ts:111 | One cell per header. `Update.RowValuesAt` gives each cell. |
| Update.UpdatedCell | src/services/google-sheets.ts:104-111 | No contract: the field-by-field statement of a written cell that `Update.RowValuesAt` and `Update.UpdatedCells` compare against. |
| Update.RowRange | src/services/google-sheets.ts:113-114 | No contract: the text `title!A<n>:<last><n>`. `Update.RowRangeSpans` states that `<last>` names the last header's column. |
| Text.DecimalText | src/services/google-sheets.ts:114 | The row number is written as a non-empty string of decimal digits. |
| Text.DecimalValue | src/services/google-sheets.ts:114 | No contract: the number a string of digits denotes, the inverse `Text.DecimalTextValue` connects to `DecimalText`. |
| Text.DecimalTextValue | src/services/google-sheets.ts:114 | The numeral of `n` denotes `n` and has no leading zero. |
| Text.DecimalTextInjective | src/services/google-sheets.ts:114 | Distinct row numbers get distinct numerals. |
| Update.WriteRow | src/services/google-sheets.ts:116-121 | The store performs the write on the first sheet with the title, and the number of sheets stays the same. `Update.WriteRowFrame` states what changes. |
| Update.WrittenRows | src/services/google-sheets.ts:116-121 | The written row is the stored row. Every other row is kept, and any gap below the old last row is empty rows. The grid may so end in empty rows, which a read never reports (`Grid.ReportedRows`). |
| Update.WrittenRowsIdempotent | src/services/google-sheets.ts:116-121 | Writing the same cells to the same row twice leaves the rows as one write does. |
| Update.StoredRow | src/services/google-sheets.ts:116-121 | The stored row reads back as the written cells: a cell it reaches is the written one, and a written cell it does not reach was blank. It ends in a filled cell. Beyond the written span it keeps every previous cell, and a previous cell it does not reach was blank. |
| Update.StoredRecord | src/services/google-sheets.ts:40-42 | Decoding the stored row gives every field of the written record, except that a field written blank at the end of the row is absent. |
| Update.WriteKeepsStoreForm | src/services/google-sheets.ts:116-121 | A write keeps every row ending in a filled cell, the form every read reports. |
| Update.RewriteSameCells | src/services/google-sheets.ts:111-121 | Writing a row's own cells back, blank where it has none, stores the row unchanged. |
| Update.EmptyUpdateCells | src/services/google-sheets.ts:104-111 | With distinct headers, merging no fields over a row's record gives back the row's cells, blank past its end. |
| Update.RewriteUnchangedRow | src/services/google-sheets.ts:116-121 | A write that stores its row as it was leaves the spreadsheet as it was. |
| Update.EmptyUpdateChangesNothing | src/services/google-sheets.ts:73-121 | With distinct headers and every row ending in a filled cell, an update with no fields on a data row leaves the spreadsheet exactly as it was. |
| Update.RewriteLocatedRecord | src/services/google-sheets.ts:94-121 | Writing the merge of no fields over the record the `ID` column locates in a data row leaves such a spreadsheet as it was. |
| Update.UpdateWritesOneRow | src/services/google-sheets.ts:116-121 | A successful update replaces exactly one existing row of the hypotheses sheet. Every other row and every other sheet is unchanged. |
| Update.PlanAddress | src/services/google-sheets.ts:101-116 | The request names the discovered sheet and an existing row. |
| Update.RewriteKeepsDiscovery | src/services/google-sheets.ts:116-121 | A write below the header row leaves discovery and the header read unchanged. |
| Update.RewriteReportedRows | src/services/google-sheets.ts:116-121 | After a write to a reported data row, discovery and the headers are unchanged, and a read reports the old rows with the stored row over that one, cut again at the last non-empty row; a non-empty stored row is never cut. |
| Update.RewriteRows | src/services/google-sheets.ts:116-121 | After a write below the header row, a read of the hypotheses sheet reports the old rows with the written row stored over the located one, cut again at the last non-empty row; when the stored row is not empty, exactly those rows. |
| Update.StoredRowIdempotent | src/services/google-sheets.ts:116-121 | Writing the same cells over a stored row stores it unchanged. |
| Update.WriteRowIdempotent | src/services/google-sheets.ts:116-121 | Performing the same write request twice leaves the spreadsheet as one write does. |
| Update.LocatedHeaderRow | src/services/google-sheets.ts:94-101 | The ID column can locate the header row only for an `id` whose trim is `ID`. |
| Update.LookupFindsLocatedRow | src/services/google-sheets.ts:94-103 | With distinct headers, the lookup returns the record decoded from the data row that the ID column located. |
| Update.FirstRecordIsLocatedRow | src/services/google-sheets.ts:94-103 | With distinct headers, the first record with the `ID` is the one decoded from the first data row holding it in the `ID` column. |
| Update.RemergeKeepsCells | src/services/google-sheets.ts:104-111 | Merging the update again over the record decoded from the stored row reproduces the written cells, repeated header names included. A field the store no longer reports had been written blank. |
| Update.KeptIdCell | src/services/google-sheets.ts:104-111 | An update without an `ID` key writes the record's own ID under an `ID` column. |
| Update.KeptIdField | src/services/google-sheets.ts:104-111 | An update without an `ID` key keeps the written record's ID, from the last `ID` column, repeated `ID` columns included. |
| Update.StoredRowKeepsId | src/services/google-sheets.ts:116-121 | A non-empty ID is never a blank cell, so the record decoded from the stored row keeps the ID. |
| Update.RewriteLocatesSameRow | src/services/google-sheets.ts:89-99 | Rewriting the located row with its ID cell kept leaves the first match of the ID in the `ID` column where it was. |
| Update.RowAfterRewrite | src/services/google-sheets.ts:89-121 | After that rewrite, discovery and the headers are unchanged, and the ID column locates the same row. |
| Update.RecordsAfterRewrite | src/services/google-sheets.ts:38-44 | Replacing data row `p` replaces exactly record `p - 1` of the decoded records by the new row's record. |
| Update.LoadAfterRewrite | src/services/google-sheets.ts:21-52 | After that rewrite, the loaded records are the old ones with that row's record replaced by the record of the stored row. |
| Update.WrittenRecordFound | src/services/google-sheets.ts:64-71 | When one record holding the ID replaces another, the lookup returns that record or the record it found before. |
| Update.LookupAfterRewrite | src/services/google-sheets.ts:64-71 | After the rewrite, the lookup returns the record it found before or the record of the stored row. |
| Update.TargetAfterRewrite | src/services/google-sheets.ts:75-103 | After the rewrite, the stages up to the merge find the same row again, with the record found before or the stored row's record. |
| Update.RebuildSameWrite | src/services/google-sheets.ts:101-114 | Building the request again from the record of the stored row gives the same request. |
| Update.UpdatePlanRepeats | src/services/google-sheets.ts:73-121 | After a successful update of a data row that leaves `ID` alone, a second run plans the same request. |
| Update.UpdateIdempotent | src/services/google-sheets.ts:73-121 | Applying the same update twice gives the same spreadsheet as applying it once, for every update of a data row that leaves `ID` alone. |
| Service.GoogleSheetsService.LocateUpdate | src/services/google-sheets.ts:75-103 | These steps return exactly `FindTarget` of the spreadsheet, together with the title and headers they read. The ID column is read through its letter. |
| Service.GoogleSheetsService.BuildRequest | src/services/google-sheets.ts:101-114 | The merge, the transform, the serialisation and the range text build exactly `BuildWrite`. |
| Service.GoogleSheetsService.UpdateHypothesis | src/services/google-sheets.ts:73-128 | It reports an error exactly when the plan fails. On failure it reports the plan's error and leaves the spreadsheet unchanged. On success the spreadsheet becomes the old one with the planned row written. |
| UpdateTool.PickStatus | src/tools/update-hypotheses.ts:22-26 | The status is `VALIDATED` if and only if the score is ≥ 80 and `NOT_VALIDATED` if and only if it is < 50. Otherwise no status is set, and `NEEDS_MORE_DATA` is never picked. |
| UpdateTool.StatusMonotone | src/tools/update-hypotheses.ts:22-26 | A higher score never gives a lower status. |
| UpdateTool.QuoteAt | src/tools/update-hypotheses.ts:18-19 | A quote is the listed quote at that position, or empty when there is none. |
| UpdateTool.BuildUpdate | src/tools/update-hypotheses.ts:15-20 | `confidence` is the reasoning and `confidencePercent` the score. `quote1` and `quote2` are the first two quotes, or empty. |
| UpdateTool.BuildUpdateUsesTwoQuotes | src/tools/update-hypotheses.ts:15-20 | The record depends only on the first two quotes. |
| UpdateTool.StatusText | src/tools/update-hypotheses.ts:33 | A set status is reported by its name. |
| UpdateTool.UnchangedStatusBand | src/tools/update-hypotheses.ts:22-33 | The reply's status reads `unchanged` exactly for scores from 50 up to, but not including, 80. |
| UpdateTool.UpdateHypotheses | src/tools/update-hypotheses.ts:7-42 | The reply is an error exactly when the store's write raised one. |
| UpdateTool.SuccessReply | src/tools/update-hypotheses.ts:30-35 | A successful reply names the hypothesis, the score and the picked status, or `unchanged`. |
| UpdateTool.RecommendationIgnored | src/tools/update-hypotheses.ts:7-42 | The status recommendation never changes the reply. |

## Left out

- **The spreadsheet service** (credentials, the client, and `spreadsheets.get`, `values.get`, `values.update`) is replaced by the sequence of sheets. Each remote read is a function of it, and the write is `Update.WriteRow`.
- **How the store treats written values.** The store's `USER_ENTERED` reinterpretation of written text (formulas, dates, percentages) is its own behaviour, so the model stores cells as written. The one exception is that writing `''` clears a cell: see `Update.StoredRow`.
- **Store form of the input.** The spreadsheet given to the model may hold rows that end in blank cells, which a read of the store never reports. `Update.InStoreForm` names the form reads report, and `Update.WriteKeepsStoreForm` shows that writes keep it.
- **Trailing empty rows.** The grid may end in empty rows: a write below the last row leaves the empty rows in between, and a write that blanks the last row leaves it empty. A read never reports them (`Grid.ReportedRows`), so the grid is compared after a write as a whole, empty rows included.
- **Range texts.** The store's parsing of A1 ranges is not modelled: a read addresses its sheet by title and its column by index. Titles that need quoting in a range are therefore not modelled either.
- **Column letters.** The ID column is read through the column whose letter `columnIndexToLetter` gives. `ColumnLetters.LetterToIndexOfColumnName` proves that this letter denotes the column found.
- **Duplicate sheet titles.** The store gives sheets distinct titles. Discovery reads each sheet's own header row, while later reads go to the first sheet with the title.
- **Logging and asynchrony.** Logging, and the asynchronous sequencing of the calls, are left out. So is concurrency: two updates racing on the same sheet is a property of the remote store.
- **Error handling.** The exception text is kept as the `Error` value and its `Message`. `loadHypotheses` wraps its failure as a read failure. `updateHypothesis` rethrows unchanged.
- **JavaScript values.** The model covers only `null`/`undefined` supplied as update values:
  - other JavaScript values (booleans, objects, arrays, `NaN`) are left out, since cells are text or numbers;
  - a decoded field whose cell is missing is absent from the record, where the code stores `undefined`, and every later use treats the two alike;
  - special property names such as `__proto__` are ordinary keys here.
- **Text.NumberText**: numbers are exact reals. For integers and short decimals the text is JavaScript's `String(x)`. The exponent forms and the shortest round-trip digits of floating point are not modelled.
- **Update.UpdateIdempotent**: stated only for a located data row and an update without an `ID` key. The code does not guarantee the other cases:
  - an `ID` update moves the row's key;
  - an `id` equal to `ID` can locate the header row.
- **The rule that an `ID` is never altered** is not asserted, because the code does not enforce it: an `ID` key in the update overwrites the cell.
- **Service.GoogleSheetsService.UpdateHypothesis**: the ID column is located with the corrected search `RowLocation.LocateRow`. The flattened search as written is kept as `RowLocation.LocateRowAsWritten` (see Findings).
- **UpdateTool.UpdateHypotheses**: the row store's write is a parameter holding the error message it raised, if any. The update keys the tool builds (`confidence`, `quote1`, …) name no sheet header, so the merge would drop them. The tool's call into the store is therefore not connected to `Service`.
- **Other tools and the server.** The other tools, the server, the notification service and configuration loading are not part of this model.

## Findings

| source | as written | input that shows it | evidently intended | confidence | as-written member | corrected member |
|---|---|---|---|---|---|---|
| src/services/google-sheets.ts:94-101 | The ID-column read is flattened with `flat()`. The store returns an empty entry for a row whose ID cell is missing or blank, so `flat()` drops it and every later index shifts up by one. The row number computed from the shifted index then addresses the wrong row. | Sheet rows `[["ID","Name"], [], ["7","x"]]`, `id = "7"`: the search as written gives index 1, the blank row, while `"7"` is in row index 2. | The index of the matching entry in a column read kept aligned with the sheet's rows. | medium, not executed | RowLocation.AsWrittenMissesRowBelowBlank | RowLocation.LocateRow |
