/** Which sheet of the spreadsheet holds the hypotheses: the first titled sheet whose header row names the required columns. */
module Discovery {
  import opened Results
  import opened Text
  import opened Grid

  /** The column titles a hypotheses sheet must have. */
  const RequiredHeaders: seq<string> := ["Problem Title", "Hypothesis", "Questions to Ask in Meeting"]

  /** The header probe reads the range `A1:Z1`, so it sees at most the first 26 cells of the header row. */
  const ProbeWidth: nat := 26

  /** The cells of the header row that the `A1:Z1` read returns. */
  function ProbedHeaders(row: seq<Cell>): (r: seq<Cell>)
    ensures |r| <= ProbeWidth && |r| <= |row| && r == row[..|r|]
    ensures |r| == if |row| < ProbeWidth then |row| else ProbeWidth
  {
    if |row| <= ProbeWidth then row else row[..ProbeWidth]
  }

  /** Header cells with every text cell trimmed; numbers are kept as they are. */
  function CleanHeaders(headers: seq<Cell>): (r: seq<Cell>)
    ensures |r| == |headers|
  {
    seq(|headers|, i requires 0 <= i < |headers| => if headers[i].Str? then Str(Trim(headers[i].text)) else headers[i])
  }

  /** Every required title occurs among the cleaned headers (compared strictly, so a number never matches). */
  predicate HasRequiredHeaders(cleaned: seq<Cell>) {
    forall n :: 0 <= n < |RequiredHeaders| ==> Str(RequiredHeaders[n]) in cleaned
  }

  /** The test the discovery loop applies to one sheet. */
  predicate IsHypothesesSheet(sheet: Sheet) {
    && sheet.title.Some? && sheet.title.value != ""
    && |sheet.rows| > 0
    && HasRequiredHeaders(CleanHeaders(ProbedHeaders(sheet.rows[0])))
  }

  /** `name` is the trimmed text of one of the first 26 cells of `row`. */
  predicate AmongProbedCells(row: seq<Cell>, name: string) {
    exists i :: 0 <= i < |row| && i < ProbeWidth && row[i].Str? && Trim(row[i].text) == name
  }

  lemma CleanedHeadersContain(row: seq<Cell>, name: string)
    ensures Str(name) in CleanHeaders(ProbedHeaders(row)) <==> AmongProbedCells(row, name)
  {
    var probed := ProbedHeaders(row);
    var cleaned := CleanHeaders(probed);
    if Str(name) in cleaned {
      var i :| 0 <= i < |cleaned| && cleaned[i] == Str(name);
      assert probed[i] == row[i];
    }
    if AmongProbedCells(row, name) {
      var i :| 0 <= i < |row| && i < ProbeWidth && row[i].Str? && Trim(row[i].text) == name;
      assert i < |probed| && probed[i] == row[i];
      assert cleaned[i] == Str(name);
    }
  }

  /** A sheet qualifies exactly when it has a non-empty title and a header row, and each required title is
      the trimmed text of one of the first 26 header cells. */
  lemma IsHypothesesSheetMeans(sheet: Sheet)
    ensures IsHypothesesSheet(sheet) <==>
      && sheet.title.Some? && sheet.title.value != "" && |sheet.rows| > 0
      && forall n :: 0 <= n < |RequiredHeaders| ==> AmongProbedCells(sheet.rows[0], RequiredHeaders[n])
  {
    if sheet.title.Some? && sheet.title.value != "" && |sheet.rows| > 0 {
      forall n | 0 <= n < |RequiredHeaders|
        ensures Str(RequiredHeaders[n]) in CleanHeaders(ProbedHeaders(sheet.rows[0]))
                <==> AmongProbedCells(sheet.rows[0], RequiredHeaders[n])
      {
        CleanedHeadersContain(sheet.rows[0], RequiredHeaders[n]);
      }
    }
  }

  /** The first qualifying sheet at or after `from`. */
  function FirstHypothesesSheet(sheets: seq<Sheet>, from: nat): (r: Option<nat>)
    requires from <= |sheets|
    ensures r.Some? ==> from <= r.value < |sheets| && sheets[r.value].title.Some?
    decreases |sheets| - from
  {
    if from == |sheets| then None
    else if IsHypothesesSheet(sheets[from]) then Some(from)
    else FirstHypothesesSheet(sheets, from + 1)
  }

  /** The search returns the first qualifying sheet at or after `from`, and nothing only when none qualifies. */
  lemma {:induction false} FirstHypothesesSheetSpec(sheets: seq<Sheet>, from: nat)
    requires from <= |sheets|
    ensures var r := FirstHypothesesSheet(sheets, from);
      && (r.Some? ==> IsHypothesesSheet(sheets[r.value]))
      && (r.Some? ==> forall j :: from <= j < r.value ==> !IsHypothesesSheet(sheets[j]))
      && (r.None? ==> forall j :: from <= j < |sheets| ==> !IsHypothesesSheet(sheets[j]))
    decreases |sheets| - from
  {
    if from < |sheets| && !IsHypothesesSheet(sheets[from]) {
      FirstHypothesesSheetSpec(sheets, from + 1);
    }
  }

  /** `findHypothesesSheetTitle`: the title of the first qualifying sheet, in document order. */
  function FindTitle(sheets: seq<Sheet>): (r: Result<string, Error>)
    ensures r.Failure? ==> r.error == NoSheets || r.error == NoMatchingSheet
  {
    if |sheets| == 0 then Failure(NoSheets)
    else match FirstHypothesesSheet(sheets, 0)
      case None => Failure(NoMatchingSheet)
      case Some(k) => Success(sheets[k].title.value)
  }

  /** Discovery fails with "no sheets" exactly on an empty spreadsheet and with "no matching sheet" exactly
      when sheets exist and none qualifies; otherwise it names the first qualifying sheet. */
  lemma FindTitleSpec(sheets: seq<Sheet>)
    ensures FindTitle(sheets) == Failure(NoSheets) <==> |sheets| == 0
    ensures FindTitle(sheets) == Failure(NoMatchingSheet) <==>
      |sheets| > 0 && forall k :: 0 <= k < |sheets| ==> !IsHypothesesSheet(sheets[k])
    ensures FindTitle(sheets).Success? ==>
      exists k :: 0 <= k < |sheets| && IsHypothesesSheet(sheets[k]) && sheets[k].title == Some(FindTitle(sheets).value)
                  && forall j :: 0 <= j < k ==> !IsHypothesesSheet(sheets[j])
  {
    if |sheets| > 0 {
      FirstHypothesesSheetSpec(sheets, 0);
      if FindTitle(sheets).Success? {
        var k := FirstHypothesesSheet(sheets, 0).value;
        assert IsHypothesesSheet(sheets[k]) && sheets[k].title == Some(FindTitle(sheets).value);
      }
    }
  }

  /** When exactly one sheet qualifies, discovery finds it wherever it stands in the document. */
  lemma UniqueHypothesesSheet(sheets: seq<Sheet>, k: nat)
    requires k < |sheets| && IsHypothesesSheet(sheets[k])
    requires forall j :: 0 <= j < |sheets| && j != k ==> !IsHypothesesSheet(sheets[j])
    ensures FindTitle(sheets) == Success(sheets[k].title.value)
  {
    FirstHypothesesSheetSpec(sheets, 0);
  }

  /** Discovery looks only at the titles and the header rows. */
  lemma {:induction false} FindTitleReadsHeaderRows(a: seq<Sheet>, b: seq<Sheet>)
    requires |a| == |b|
    requires forall k :: 0 <= k < |a| ==> a[k].title == b[k].title
    requires forall k :: 0 <= k < |a| ==> (|a[k].rows| > 0 <==> |b[k].rows| > 0)
    requires forall k :: 0 <= k < |a| && |a[k].rows| > 0 && |b[k].rows| > 0 ==> a[k].rows[0] == b[k].rows[0]
    ensures FindTitle(a) == FindTitle(b)
  {
    assert forall k :: 0 <= k < |a| ==> (IsHypothesesSheet(a[k]) <==> IsHypothesesSheet(b[k]));
    if |a| > 0 {
      SameFirstSheet(a, b, 0);
    }
  }

  lemma {:induction false} SameFirstSheet(a: seq<Sheet>, b: seq<Sheet>, from: nat)
    requires |a| == |b| && from <= |a|
    requires forall k :: 0 <= k < |a| ==> a[k].title == b[k].title
    requires forall k :: 0 <= k < |a| ==> (IsHypothesesSheet(a[k]) <==> IsHypothesesSheet(b[k]))
    ensures FirstHypothesesSheet(a, from) == FirstHypothesesSheet(b, from)
    decreases |a| - from
  {
    if from < |a| && !IsHypothesesSheet(a[from]) {
      SameFirstSheet(a, b, from + 1);
    }
  }
}
