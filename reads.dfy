/** The read-only operations of the row store over the whole spreadsheet: load, header read, lookup by ID. */
module Reads {
  import opened Results
  import opened Grid
  import opened Discovery
  import opened Decode

  /** `loadHypotheses`: the records of the hypotheses sheet. Any failure on the way comes back wrapped as a read failure. */
  function LoadRecords(sheets: seq<Sheet>): (r: Result<seq<Record>, Error>)
    ensures r.Failure? <==> FindTitle(sheets).Failure?
    ensures r.Failure? ==> r.error == ReadFailed(FindTitle(sheets).error)
    ensures r.Success? ==> r.value == Records(ReportedRows(sheets[TitleIndex(sheets, FindTitle(sheets).value).value].rows))
  {
    match FindTitle(sheets)
    case Failure(e) => Failure(ReadFailed(e))
    case Success(title) =>
      FoundTitleExists(sheets);
      match ReadSheet(sheets, title)
      case Failure(e) => Failure(ReadFailed(e))
      case Success(rows) => Success(Records(rows))
  }

  /** Discovery only ever names a sheet that exists, so reading it back cannot fail. */
  lemma FoundTitleExists(sheets: seq<Sheet>)
    requires FindTitle(sheets).Success?
    ensures TitleIndex(sheets, FindTitle(sheets).value).Some?
  {
    FindTitleSpec(sheets);
    var k :| 0 <= k < |sheets| && sheets[k].title == Some(FindTitle(sheets).value);
  }

  /** `getHeaders`: the trimmed texts of row 1 of the hypotheses sheet (none when the sheet is empty). */
  function Headers(sheets: seq<Sheet>): (r: Result<seq<string>, Error>)
    ensures r.Failure? <==> FindTitle(sheets).Failure?
    ensures r.Failure? ==> r.error == FindTitle(sheets).error
    ensures r.Success? ==> r.value == HeaderNames(ReportedRows(sheets[TitleIndex(sheets, FindTitle(sheets).value).value].rows))
  {
    match FindTitle(sheets)
    case Failure(e) => Failure(e)
    case Success(title) =>
      FoundTitleExists(sheets);
      match ReadSheet(sheets, title)
      case Failure(e) => Failure(e)
      case Success(rows) => Success(HeaderNames(rows))
  }

  /** The record's `ID` field is exactly the text `id`: no trimming, case-sensitive, never a number. */
  predicate HasId(record: Record, id: string) {
    "ID" in record && record["ID"] == Str(id)
  }

  /** `hypotheses.find(h => h.ID === id)`, as the position of the first record whose ID is `id`. */
  function FirstWithId(records: seq<Record>, id: string): (r: Option<nat>)
    ensures r.Some? ==> r.value < |records| && HasId(records[r.value], id)
    ensures r.Some? ==> forall j :: 0 <= j < r.value ==> !HasId(records[j], id)
    ensures r.None? ==> forall j :: 0 <= j < |records| ==> !HasId(records[j], id)
  {
    if |records| == 0 then None
    else if HasId(records[0], id) then Some(0)
    else match FirstWithId(records[1..], id)
      case None => None
      case Some(k) => Some(k + 1)
  }

  /** A record with the ID and none before it is the first match. */
  lemma FirstWithIdIs(records: seq<Record>, id: string, j: nat)
    requires j < |records| && HasId(records[j], id)
    requires forall m :: 0 <= m < j ==> !HasId(records[m], id)
    ensures FirstWithId(records, id) == Some(j)
  {
    var r := FirstWithId(records, id);
    assert r.Some?;
    assert r.value == j;
  }

  /** Replacing record `p` by a record with the ID leaves the first match before `p` where it was, and
      otherwise moves it to `p`. */
  lemma FirstWithIdAfterReplace(records: seq<Record>, id: string, p: nat, record: Record) returns (s: nat)
    requires p < |records| && HasId(record, id)
    ensures FirstWithId(records[p := record], id) == Some(s)
    ensures s == p || (s < p && FirstWithId(records, id) == Some(s))
  {
    var replaced := records[p := record];
    match FirstWithId(records, id)
    case Some(j) =>
      s := if j < p then j else p;
      FirstWithIdIs(replaced, id, s);
    case None =>
      s := p;
      FirstWithIdIs(replaced, id, p);
  }

  /** `getHypothesisRow`: the first decoded record whose ID is `id`; fails when there is none. */
  function HypothesisRow(sheets: seq<Sheet>, id: string): (r: Result<Record, Error>)
    ensures r.Success? ==> LoadRecords(sheets).Success?
    ensures r.Failure? ==> r.error == if LoadRecords(sheets).Failure? then LoadRecords(sheets).error else HypothesisNotFound(id)
  {
    match LoadRecords(sheets)
    case Failure(e) => Failure(e)
    case Success(records) =>
      match FirstWithId(records, id)
      case None => Failure(HypothesisNotFound(id))
      case Some(j) => Success(records[j])
  }

  /** A successful lookup returns the first loaded record whose ID is `id`; it fails with "not found"
      exactly when the records load and none has that ID. */
  lemma LookupIsFirstMatch(sheets: seq<Sheet>, id: string)
    ensures HypothesisRow(sheets, id).Success? ==>
      && LoadRecords(sheets).Success?
      && HasId(HypothesisRow(sheets, id).value, id)
      && exists j :: 0 <= j < |LoadRecords(sheets).value| && LoadRecords(sheets).value[j] == HypothesisRow(sheets, id).value
                  && forall m :: 0 <= m < j ==> !HasId(LoadRecords(sheets).value[m], id)
    ensures LoadRecords(sheets).Success? ==>
      (HypothesisRow(sheets, id).Failure? <==> forall j :: 0 <= j < |LoadRecords(sheets).value| ==> !HasId(LoadRecords(sheets).value[j], id))
  {
    if HypothesisRow(sheets, id).Success? {
      var j := FirstWithId(LoadRecords(sheets).value, id).value;
    }
  }

  /** A successful lookup is the first loaded record with the ID. */
  lemma LoadedLookup(sheets: seq<Sheet>, id: string, records: seq<Record>)
    requires LoadRecords(sheets) == Success(records)
    ensures HypothesisRow(sheets, id).Success? <==> FirstWithId(records, id).Some?
    ensures HypothesisRow(sheets, id).Success? ==> HypothesisRow(sheets, id).value == records[FirstWithId(records, id).value]
  {
  }

  /** The lookup returns the first loaded record with the ID. */
  lemma FirstWithIdIsLookup(sheets: seq<Sheet>, id: string, records: seq<Record>, j: nat, record: Record)
    requires LoadRecords(sheets) == Success(records) && FirstWithId(records, id) == Some(j) && records[j] == record
    ensures HypothesisRow(sheets, id) == Success(record)
  {
  }

  /** The worked example: on the ID/Name table, ID "2" is Bob's row and ID "9" matches nothing. */
  lemma LookupExample()
    ensures FirstWithId([map["ID" := Str("1"), "Name" := Str("Alice")], map["ID" := Str("2"), "Name" := Str("Bob")]], "2") == Some(1)
    ensures FirstWithId([map["ID" := Str("1"), "Name" := Str("Alice")], map["ID" := Str("2"), "Name" := Str("Bob")]], "9") == None
  {
  }
}
