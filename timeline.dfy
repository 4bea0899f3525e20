/**
 * The timeline fields of main.py `extract_timeline_info`: three dates searched for in the free
 * text, each defaulting to "Not found", and the opening date of the technical bids, read from
 * the row of a table that names that event.
 */
module Timeline {
  import opened Wrappers
  import opened Text
  import opened Tables

  const NotFound: string := "Not found"

  const StartKey: string := "start_date"
  const EndKey: string := "end_date"
  const PhysicalEndKey: string := "physical_submission_end_date"
  const OpeningKey: string := "technical_bid_opening"

  /** The text that marks the row holding the opening date of the technical bids. */
  const Marker: string := "Opening of Technical e-Bid"

  /**
   * `re.match(r"\d{2}.\d{2}.\d{4}", s)` succeeds: `s` begins with two digits, any character
   * but a newline, two digits, any character but a newline and four digits.
   */
  predicate StartsWithDate(s: string) {
    && |s| >= 10
    && IsDigit(s[0]) && IsDigit(s[1]) && s[2] != '\n'
    && IsDigit(s[3]) && IsDigit(s[4]) && s[5] != '\n'
    && IsDigit(s[6]) && IsDigit(s[7]) && IsDigit(s[8]) && IsDigit(s[9])
  }

  /** A cell the inner loop stops at. An empty cell is matched as `str(None)`, "None": never. */
  predicate IsDateCell(c: Cell) {
    c.Some? && StartsWithDate(c.value)
  }

  predicate HasDateCell(row: Row) {
    exists j :: 0 <= j < |row| && IsDateCell(row[j])
  }

  /**
   * `Marker in str(row)`. The list's text form quotes each string cell, writes an empty cell
   * as an unquoted `None`, and separates cells with commas. The marker holds neither quotes nor
   * commas nor characters that the quoting escapes, and `None` cannot contain it, so it occurs
   * in that text exactly when it occurs inside one string cell.
   */
  predicate HasMarker(row: Row) {
    exists k :: 0 <= k < |row| && row[k].Some? && Contains(row[k].value, Marker)
  }

  // ---------------------------------------------------------------------------------------
  // What the table scan stores

  /** The value the inner loop stores for a marker row: its first date cell, stripped. */
  function FirstDate(row: Row): Option<string> {
    if row == [] then None
    else if IsDateCell(row[0]) then Some(Strip(row[0].value))
    else FirstDate(row[1..])
  }

  /** The first date cell of a row decides its value... */
  lemma {:induction false} FirstDateIsFirst(row: Row, k: nat)
    requires k < |row| && IsDateCell(row[k])
    requires forall j :: 0 <= j < k ==> !IsDateCell(row[j])
    ensures FirstDate(row) == Some(Strip(row[k].value))
  {
    if k > 0 {
      assert !IsDateCell(row[0]);
      assert row[1..][k - 1] == row[k];
      assert forall j :: 0 <= j < k - 1 ==> row[1..][j] == row[j + 1];
      FirstDateIsFirst(row[1..], k - 1);
    }
  }

  /** ...and a row without one has none. */
  lemma {:induction false} FirstDateNone(row: Row)
    requires forall j :: 0 <= j < |row| ==> !IsDateCell(row[j])
    ensures FirstDate(row) == None
  {
    if row != [] {
      assert !IsDateCell(row[0]);
      assert forall j :: 0 <= j < |row| - 1 ==> row[1..][j] == row[j + 1];
      FirstDateNone(row[1..]);
    }
  }

  /** A row yields a value exactly when it has a date cell, and the value is a stripped date cell. */
  lemma {:induction false} FirstDateFound(row: Row)
    ensures FirstDate(row).Some? <==> HasDateCell(row)
    ensures FirstDate(row).Some? ==>
              exists j :: 0 <= j < |row| && IsDateCell(row[j]) && FirstDate(row).value == Strip(row[j].value)
  {
    if row != [] && !IsDateCell(row[0]) {
      FirstDateFound(row[1..]);
      assert forall j :: 0 <= j < |row| - 1 ==> row[1..][j] == row[j + 1];
      if HasDateCell(row) {
        var j :| 0 <= j < |row| && IsDateCell(row[j]);
        assert row[1..][j - 1] == row[j];
      }
    } else if row != [] {
      assert IsDateCell(row[0]);
    }
  }

  /** The contribution of one row to the scan: its first date cell if it carries the marker. */
  function BidOpening(row: Row): Option<string> {
    if HasMarker(row) then FirstDate(row) else None
  }

  /** The technical bid opening the scan ends with: that of the last row contributing one. */
  function LastBidOpening(rows: seq<Row>): Option<string> {
    LastMatch(rows, BidOpening)
  }

  /**
   * The dictionary `extract_timeline_info` returns when no exception is raised, given the
   * results of the three free-text searches.
   */
  ghost predicate TimelineInfo(rows: seq<Row>, startDate: Option<string>, endDate: Option<string>,
                               physicalEnd: Option<string>, info: map<string, string>)
  {
    && info.Keys <= {StartKey, EndKey, PhysicalEndKey, OpeningKey}
    && StartKey in info && info[StartKey] == startDate.GetOr(NotFound)
    && EndKey in info && info[EndKey] == endDate.GetOr(NotFound)
    && PhysicalEndKey in info && info[PhysicalEndKey] == physicalEnd.GetOr(NotFound)
    && Reports(info, OpeningKey, LastBidOpening(rows))
  }

  // ---------------------------------------------------------------------------------------
  // The extractor

  /**
   * main.py `extract_timeline_info`, lines 114-132. The three regular-expression searches of
   * the free text are inputs: each is the captured date, or `None` when the pattern does not
   * occur.
   */
  method ExtractTimelineInfo(tables: seq<Table>, startDate: Option<string>, endDate: Option<string>,
                             physicalEnd: Option<string>) returns (info: map<string, string>)
    ensures TimelineInfo(AllRows(tables), startDate, endDate, physicalEnd, info)
  {
    info := map[];
    info := info[StartKey := startDate.GetOr(NotFound)];
    info := info[EndKey := endDate.GetOr(NotFound)];
    info := info[PhysicalEndKey := physicalEnd.GetOr(NotFound)];
    ghost var seen: seq<Row> := [];
    for i := 0 to |tables|
      invariant seen == AllRows(tables[..i])
      invariant TimelineInfo(seen, startDate, endDate, physicalEnd, info)
    {
      var table := tables[i];
      for j := 0 to |table|
        invariant seen == AllRows(tables[..i]) + table[..j]
        invariant TimelineInfo(seen, startDate, endDate, physicalEnd, info)
      {
        info := VisitRow(table[j], info);
        LastMatchStep(seen, table[j], BidOpening);
        assert table[..j + 1] == table[..j] + [table[j]];
        seen := seen + [table[j]];
      }
      assert table[..|table|] == table;
      AllRowsStep(tables, i);
    }
    assert tables[..|tables|] == tables;
  }

  /**
   * The body of the row loop (lines 128-132): a row carrying the marker stores its first date
   * cell, stripped, and the inner loop stops there; any other row changes nothing.
   */
  method VisitRow(row: Row, info: map<string, string>) returns (next: map<string, string>)
    ensures next == if BidOpening(row).Some? then info[OpeningKey := BidOpening(row).value] else info
  {
    next := info;
    if HasMarker(row) {
      ghost var found := false;
      for k := 0 to |row|
        invariant !found && next == info
        invariant forall j :: 0 <= j < k ==> !IsDateCell(row[j])
      {
        var cell := row[k];
        if cell.Some? && StartsWithDate(cell.value) {
          next := next[OpeningKey := Strip(cell.value)];
          FirstDateIsFirst(row, k);
          found := true;
          break;
        }
      }
      if !found {
        FirstDateNone(row);
      }
    }
  }

  // ---------------------------------------------------------------------------------------
  // Properties of the result

  /** A stripped cell that starts with a date still starts with that date, and is trimmed. */
  lemma StripKeepsDate(s: string)
    requires StartsWithDate(s)
    ensures StartsWithDate(Strip(s)) && Strip(s)[..10] == s[..10]
  {
    assert !IsSpace(s[0]) && !IsSpace(s[9]);
    StripFromStart(s);
    assert TrailingStart(s) >= 10;
  }

  /**
   * The stored opening date comes from the last row that carries the marker and has a date
   * cell; the entry exists exactly when some row does.
   */
  lemma OpeningFromLastMarkerRow(rows: seq<Row>, startDate: Option<string>, endDate: Option<string>,
                                 physicalEnd: Option<string>, info: map<string, string>)
    requires TimelineInfo(rows, startDate, endDate, physicalEnd, info)
    ensures OpeningKey in info <==> exists k :: 0 <= k < |rows| && HasMarker(rows[k]) && HasDateCell(rows[k])
    ensures OpeningKey in info ==>
              exists k :: 0 <= k < |rows| && HasMarker(rows[k]) && FirstDate(rows[k]) == Some(info[OpeningKey])
                          && forall j :: k < j < |rows| ==> !(HasMarker(rows[j]) && HasDateCell(rows[j]))
  {
    LastMatchIsLast(rows, BidOpening);
    forall k | 0 <= k < |rows|
      ensures BidOpening(rows[k]).Some? <==> HasMarker(rows[k]) && HasDateCell(rows[k])
    {
      FirstDateFound(rows[k]);
    }
  }

  /**
   * The stored opening date is a stripped cell that starts with a date; in particular it is
   * never the "Not found" placeholder, which only the exception path writes.
   */
  lemma OpeningIsTrimmedDate(rows: seq<Row>, startDate: Option<string>, endDate: Option<string>,
                             physicalEnd: Option<string>, info: map<string, string>)
    requires TimelineInfo(rows, startDate, endDate, physicalEnd, info) && OpeningKey in info
    ensures StartsWithDate(info[OpeningKey]) && Trimmed(info[OpeningKey]) && info[OpeningKey] != NotFound
  {
    LastMatchIsLast(rows, BidOpening);
    var k :| 0 <= k < |rows| && BidOpening(rows[k]) == LastBidOpening(rows);
    FirstDateFound(rows[k]);
    var j :| 0 <= j < |rows[k]| && IsDateCell(rows[k][j]) && info[OpeningKey] == Strip(rows[k][j].value);
    StripKeepsDate(rows[k][j].value);
  }

  /**
   * A marker row: the label cell is not a date and an empty cell is passed over, so the first
   * date cell wins over any later one.
   */
  lemma MarkerRowTakesFirstDate(date: string, later: string)
    requires StartsWithDate(date)
    ensures BidOpening([Some(Marker), None, Some(date), Some(later)]) == Some(Strip(date))
  {
    var row: Row := [Some(Marker), None, Some(date), Some(later)];
    assert Contains(row[0].value, Marker);
    FirstDateIsFirst(row, 2);
  }
}
