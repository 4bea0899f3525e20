/**
 * main.py `extract_financial_info_from_table`: scan every row of every table; a row with at
 * least five cells whose fourth and fifth cells are non-empty, and which is not the header row,
 * contributes the amount found in its fourth cell as the tender fee and the amount found in its
 * fifth cell as the EMD (earnest money deposit). Later rows overwrite earlier ones.
 */
module Financial {
  import opened Wrappers
  import opened Text
  import opened Tables

  // ---------------------------------------------------------------------------------------
  // The amount pattern

  /** The character class `[0-9,]`. */
  predicate IsAmountChar(c: char) {
    IsDigit(c) || c == ','
  }

  predicate AllAmountChars(s: string) {
    forall i :: 0 <= i < |s| ==> IsAmountChar(s[i])
  }

  /** `.` followed by two digits at position `p` of `s`: the `(?:\.\d{2})` part. */
  predicate CentsAt(s: string, p: nat) {
    p + 3 <= |s| && s[p] == '.' && IsDigit(s[p + 1]) && IsDigit(s[p + 2])
  }

  /** `a` matches `[0-9,]+(?:\.\d{2})?` in full. */
  predicate IsAmount(a: string) {
    || (|a| > 0 && AllAmountChars(a))
    || (|a| > 3 && AllAmountChars(a[..|a| - 3]) && CentsAt(a, |a| - 3))
  }

  /** `a` is the longest prefix of `u` that matches the amount pattern. */
  predicate LongestAmountPrefix(u: string, a: string) {
    && a <= u
    && IsAmount(a)
    && forall k {:trigger IsAmount(u[..k])} :: |a| < k <= |u| ==> !IsAmount(u[..k])
  }

  /** `p` is the first position of `s` where the amount pattern can start. */
  predicate FirstAmountStart(s: string, p: nat) {
    p < |s| && IsAmountChar(s[p]) && forall i :: 0 <= i < p ==> !IsAmountChar(s[i])
  }

  /** `n` is the length of the run of `[0-9,]` characters at the start of `u`. */
  predicate IsRun(u: string, n: nat) {
    n <= |u| && AllAmountChars(u[..n]) && (n == |u| || !IsAmountChar(u[n]))
  }

  /** Length of the run of `[0-9,]` characters at the start of `s`. */
  function RunLength(s: string): (n: nat)
    ensures IsRun(s, n)
  {
    if s != [] && IsAmountChar(s[0]) then
      var m := RunLength(s[1..]);
      assert s[..1 + m] == [s[0]] + s[1..][..m];
      1 + m
    else 0
  }

  /** Position of the first `[0-9,]` character of `s`, or `|s|` when there is none. */
  function FirstAmountChar(s: string): (p: nat)
    ensures p <= |s|
    ensures forall i :: 0 <= i < p ==> !IsAmountChar(s[i])
    ensures p < |s| ==> IsAmountChar(s[p])
  {
    if s == [] || IsAmountChar(s[0]) then 0 else 1 + FirstAmountChar(s[1..])
  }

  /** The greedy match at the start of `u`: the whole `[0-9,]` run, plus cents when they follow. */
  function AmountAt(u: string): (a: string)
    requires u != [] && IsAmountChar(u[0])
    ensures LongestAmountPrefix(u, a)
  {
    var n := RunLength(u);
    var a := if CentsAt(u, n) then u[..n + 3] else u[..n];
    assert AllAmountChars(a[..n]) by {
      assert a[..n] == u[..n];
    }
    forall k | |a| < k <= |u| ensures !IsAmount(u[..k]) {
      NotLongerAmount(u, n, |a|, k);
    }
    a
  }

  /** A prefix made of `[0-9,]` alone ends within the leading run. */
  lemma PlainAmountPrefix(u: string, n: nat, k: nat)
    requires IsRun(u, n) && k <= |u|
    ensures AllAmountChars(u[..k]) ==> k <= n
  {
    if n < k {
      assert u[..k][n] == u[n];
    }
  }

  /** A prefix ending in cents has its dot right after the leading run. */
  lemma CentsAmountPrefix(u: string, n: nat, k: nat)
    requires IsRun(u, n) && 3 < k <= |u|
    ensures AllAmountChars(u[..k][..k - 3]) && CentsAt(u[..k], k - 3) ==> k - 3 == n && CentsAt(u, n)
  {
    var v := u[..k];
    assert v[k - 3] == u[k - 3] && v[k - 2] == u[k - 2] && v[k - 1] == u[k - 1];
    if n < k - 3 {
      assert v[..k - 3][n] == u[n];
    } else if k - 3 < n {
      assert u[..n][k - 3] == u[k - 3];
    }
  }

  /** No prefix of `u` longer than the greedy match is an amount. */
  lemma NotLongerAmount(u: string, n: nat, len: nat, k: nat)
    requires IsRun(u, n) && n <= len && (CentsAt(u, n) ==> len == n + 3)
    requires len < k <= |u|
    ensures !IsAmount(u[..k])
  {
    PlainAmountPrefix(u, n, k);
    if k > 3 {
      CentsAmountPrefix(u, n, k);
    }
  }

  /**
   * `re.search(pattern, s).group(1)` for both amount patterns of main.py: their parts after
   * group 1 can always match the empty string, so the search succeeds at the first position
   * where `[0-9,]` matches and group 1 is the greedy, hence longest, amount there.
   */
  function FindAmount(s: string): (r: Option<string>)
    ensures r.None? <==> forall i :: 0 <= i < |s| ==> !IsAmountChar(s[i])
    ensures r.Some? ==> exists p: nat :: FirstAmountStart(s, p) && LongestAmountPrefix(s[p..], r.value)
  {
    var p := FirstAmountChar(s);
    if p == |s| then None
    else
      var r := Some(AmountAt(s[p..]));
      assert FirstAmountStart(s, p);
      r
  }

  /** An amount contains only digits, commas and a dot: no whitespace, never "Not found". */
  lemma AmountHasNoSpaces(a: string)
    requires IsAmount(a)
    ensures NoSpaces(a)
    ensures a != "Not found"
  {
    assert !IsSpace(a[0]);
    if |a| > 3 && AllAmountChars(a[..|a| - 3]) && CentsAt(a, |a| - 3) {
      forall i | 0 <= i < |a| ensures !IsSpace(a[i]) {
        if i < |a| - 3 {
          assert a[..|a| - 3][i] == a[i];
        }
      }
    }
  }

  /** `clean_text` leaves an extracted amount unchanged. */
  lemma CleanAmount(a: string)
    requires IsAmount(a)
    ensures CleanText(a) == a
  {
    AmountHasNoSpaces(a);
    CleanTextFixesNoSpaces(a);
  }

  /** An amount on its own is found in full: the search and the pattern agree. */
  lemma FindAmountOfAmount(a: string)
    requires IsAmount(a)
    ensures FindAmount(a) == Some(a)
  {
    assert FirstAmountChar(a) == 0;
    assert a[0..] == a;
    var b := AmountAt(a);
    assert a[..|a|] == a;
    assert |b| == |a|;
    assert b == a[..|b|];
  }

  // ---------------------------------------------------------------------------------------
  // The row scan

  /** The two columns the scan reads. */
  datatype Column = TenderFee | Emd {
    /** Position of the column's cell in a row. */
    function Index(): nat {
      if this == TenderFee then 3 else 4
    }

    /** Key under which the column's amount is reported. */
    function Key(): string {
      if this == TenderFee then "tender_fee" else "emd"
    }
  }

  /** The header row: "Tender Fee" occurs in the fourth cell and "EMD" in the fifth. */
  predicate IsHeader(row: Row)
    requires |row| >= 5 && row[3].Some? && row[4].Some?
  {
    Contains(row[3].value, "Tender Fee") && Contains(row[4].value, "EMD")
  }

  /** A row the scan searches: five or more cells, cells 3 and 4 non-empty, not the header. */
  predicate Searched(row: Row) {
    |row| >= 5 && Truthy(row[3]) && Truthy(row[4]) && !IsHeader(row)
  }

  /** The value a row contributes to `col`, if any: the cleaned amount found in its cell. */
  function Candidate(row: Row, col: Column): (r: Option<string>)
    ensures r.Some? ==> Searched(row) && IsAmount(r.value)
  {
    if !Searched(row) then None
    else
      match FindAmount(row[col.Index()].value)
      case None => None
      case Some(a) => CleanAmount(a); Some(CleanText(a))
  }

  /** What the scan reports for `col` after visiting `rows`: the last row with a candidate wins. */
  function LastCandidate(rows: seq<Row>, col: Column): Option<string> {
    LastMatch(rows, CandidateIn(col))
  }

  /** `Candidate` for a fixed column, as the function the generic scan applies to each row. */
  function CandidateIn(col: Column): Row -> Option<string> {
    row => Candidate(row, col)
  }

  /** One more row: it wins when it has a candidate, otherwise nothing changes. */
  lemma LastCandidateStep(rows: seq<Row>, row: Row, col: Column)
    ensures LastCandidate(rows + [row], col)
         == if Candidate(row, col).Some? then Candidate(row, col) else LastCandidate(rows, col)
  {
    LastMatchStep(rows, row, CandidateIn(col));
  }

  /** A row that is not searched can be removed from anywhere without changing the result. */
  lemma UnsearchedRowIgnored(before: seq<Row>, row: Row, after: seq<Row>, col: Column)
    requires !Searched(row)
    ensures LastCandidate(before + [row] + after, col) == LastCandidate(before + after, col)
  {
    LastMatchIgnores(before, row, after, CandidateIn(col));
  }

  /** The dictionary main.py returns, described by the rows the scan visits. */
  ghost predicate FinancialInfo(rows: seq<Row>, info: map<string, string>) {
    && Reports(info, TenderFee.Key(), LastCandidate(rows, TenderFee))
    && Reports(info, Emd.Key(), LastCandidate(rows, Emd))
    && info.Keys <= {TenderFee.Key(), Emd.Key()}
  }

  /** main.py `extract_financial_info_from_table`: the two nested loops of lines 159-172. */
  method ExtractFinancialInfo(tables: seq<Table>) returns (info: map<string, string>)
    ensures FinancialInfo(AllRows(tables), info)
  {
    info := map[];
    ghost var seen: seq<Row> := [];
    for i := 0 to |tables|
      invariant seen == AllRows(tables[..i])
      invariant FinancialInfo(seen, info)
    {
      var table := tables[i];
      for j := 0 to |table|
        invariant seen == AllRows(tables[..i]) + table[..j]
        invariant FinancialInfo(seen, info)
      {
        info := VisitRow(table[j], info, seen);
        assert table[..j + 1] == table[..j] + [table[j]];
        seen := seen + [table[j]];
      }
      assert table[..|table|] == table;
      AllRowsStep(tables, i);
    }
    assert tables[..|tables|] == tables;
  }

  /**
   * The body of the row loop (lines 161-172): a searched row overwrites each entry for which
   * its cell yields an amount; any other row, the header row included, changes nothing.
   */
  method VisitRow(row: Row, info: map<string, string>, ghost seen: seq<Row>) returns (next: map<string, string>)
    requires FinancialInfo(seen, info)
    ensures FinancialInfo(seen + [row], next)
  {
    LastCandidateStep(seen, row, TenderFee);
    LastCandidateStep(seen, row, Emd);
    next := info;
    if |row| >= 5 {
      var tenderFee := row[3];
      var emd := row[4];
      if Truthy(tenderFee) && Truthy(emd) {
        if Contains(tenderFee.value, "Tender Fee") && Contains(emd.value, "EMD") {
          return;
        }
        var feeMatch := FindAmount(tenderFee.value);
        if feeMatch.Some? {
          next := next[TenderFee.Key() := CleanText(feeMatch.value)];
        }
        var emdMatch := FindAmount(emd.value);
        if emdMatch.Some? {
          next := next[Emd.Key() := CleanText(emdMatch.value)];
        }
      }
    }
  }

  /** Every reported value is an amount: digits and commas, maybe cents, never "Not found". */
  lemma ReportedValuesAreAmounts(rows: seq<Row>, info: map<string, string>, key: string)
    requires FinancialInfo(rows, info) && key in info
    ensures IsAmount(info[key]) && NoSpaces(info[key]) && info[key] != "Not found"
  {
    var col := if key == TenderFee.Key() then TenderFee else Emd;
    LastMatchIsLast(rows, CandidateIn(col));
    assert info[key] == LastCandidate(rows, col).value;
    var k :| 0 <= k < |rows| && CandidateIn(col)(rows[k]) == LastCandidate(rows, col);
    assert Candidate(rows[k], col).Some?;
    AmountHasNoSpaces(info[key]);
  }

  /**
   * With no amount found in any row (no row searched, or no digit or comma in the cells of the
   * rows that are), the dictionary is empty: "Not found" is never filled in.
   */
  lemma NothingFoundIsEmpty(rows: seq<Row>, info: map<string, string>)
    requires FinancialInfo(rows, info)
    requires forall k :: 0 <= k < |rows| ==> Candidate(rows[k], TenderFee).None? && Candidate(rows[k], Emd).None?
    ensures info == map[]
  {
    LastMatchIsLast(rows, CandidateIn(TenderFee));
    LastMatchIsLast(rows, CandidateIn(Emd));
    assert info.Keys == {};
  }

  /** The cell holds a character where the amount pattern can start: a digit or a comma. */
  predicate HasAmountChar(s: string) {
    exists i :: 0 <= i < |s| && IsAmountChar(s[i])
  }

  /** A row has a candidate for a column exactly when it is searched and that cell holds a digit or comma. */
  lemma CandidateIff(row: Row, col: Column)
    ensures Candidate(row, col).Some? <==> Searched(row) && HasAmountChar(row[col.Index()].value)
  {
  }

  /**
   * The fee and EMD promise in terms of the table cells: a key is reported exactly when some
   * searched row holds a digit or comma in that key's cell, and its value is the amount found
   * in the last such row.
   */
  lemma ReportedFromLastAmountRow(rows: seq<Row>, info: map<string, string>, col: Column)
    requires FinancialInfo(rows, info)
    ensures col.Key() in info <==>
              exists k :: 0 <= k < |rows| && Searched(rows[k]) && HasAmountChar(rows[k][col.Index()].value)
    ensures col.Key() in info ==>
              exists k :: 0 <= k < |rows| && Searched(rows[k])
                          && FindAmount(rows[k][col.Index()].value) == Some(info[col.Key()])
                          && forall j :: k < j < |rows| ==>
                               !(Searched(rows[j]) && HasAmountChar(rows[j][col.Index()].value))
  {
    LastMatchIsLast(rows, CandidateIn(col));
    forall k | 0 <= k < |rows|
      ensures CandidateIn(col)(rows[k]).Some? <==> Searched(rows[k]) && HasAmountChar(rows[k][col.Index()].value)
    {
      CandidateIff(rows[k], col);
    }
    if col.Key() in info {
      var k :| 0 <= k < |rows| && CandidateIn(col)(rows[k]) == LastCandidate(rows, col)
                && forall j :: k < j < |rows| ==> CandidateIn(col)(rows[j]).None?;
      var a := FindAmount(rows[k][col.Index()].value).value;
      CleanAmount(a);
    }
  }

  // ---------------------------------------------------------------------------------------
  // Worked rows

  /**
   * The header test is a substring test: a row whose fee cell mentions "Tender Fee" and whose
   * EMD cell mentions "EMD" is skipped even when both also carry amounts.
   */
  lemma LabelledAmountsSkipped()
    ensures var row: Row := [Some(""), Some(""), Some(""), Some("Tender Fee: 5,000.00"), Some("EMD 1,200.50")];
            Candidate(row, TenderFee) == None && Candidate(row, Emd) == None
  {
    var row: Row := [Some(""), Some(""), Some(""), Some("Tender Fee: 5,000.00"), Some("EMD 1,200.50")];
    assert "Tender Fee" <= row[3].value;
    assert "EMD" <= row[4].value[0..];
  }

  /** A searched row whose fee cell holds an amount and whose EMD cell holds none. */
  lemma FeeOnlyRow(fee: string, blank: string)
    requires IsAmount(fee) && blank != "" && FindAmount(blank) == None && !Contains(blank, "EMD")
    ensures var row: Row := [None, None, None, Some(fee), Some(blank)];
            Candidate(row, TenderFee) == Some(fee) && Candidate(row, Emd) == None
  {
    var row: Row := [None, None, None, Some(fee), Some(blank)];
    FindAmountOfAmount(fee);
    CleanAmount(fee);
    assert Truthy(row[3]) && Truthy(row[4]) && !IsHeader(row);
    assert FindAmount(row[TenderFee.Index()].value) == Some(fee);
  }

  /** A searched row whose EMD cell holds an amount and whose fee cell holds none. */
  lemma EmdOnlyRow(blank: string, emd: string)
    requires IsAmount(emd) && blank != "" && FindAmount(blank) == None && !Contains(blank, "Tender Fee")
    ensures var row: Row := [None, None, None, Some(blank), Some(emd)];
            Candidate(row, TenderFee) == None && Candidate(row, Emd) == Some(emd)
  {
    var row: Row := [None, None, None, Some(blank), Some(emd)];
    FindAmountOfAmount(emd);
    CleanAmount(emd);
    assert Truthy(row[3]) && Truthy(row[4]) && !IsHeader(row);
    assert FindAmount(row[Emd.Index()].value) == Some(emd);
  }

  /**
   * The two values are tracked separately: when each of two rows has an amount in only one of
   * its cells, the tender fee comes from one row and the EMD from the other.
   */
  lemma FeeAndEmdFromDifferentRows(fee: string, emd: string, blank: string)
    requires IsAmount(fee) && IsAmount(emd)
    requires blank != "" && FindAmount(blank) == None
    requires !Contains(blank, "Tender Fee") && !Contains(blank, "EMD")
    ensures var rows: seq<Row> := [[None, None, None, Some(fee), Some(blank)],
                                   [None, None, None, Some(blank), Some(emd)]];
            LastCandidate(rows, TenderFee) == Some(fee) && LastCandidate(rows, Emd) == Some(emd)
  {
    var first: Row := [None, None, None, Some(fee), Some(blank)];
    var second: Row := [None, None, None, Some(blank), Some(emd)];
    FeeOnlyRow(fee, blank);
    EmdOnlyRow(blank, emd);
    LastOfTwoRows(first, second, TenderFee);
    LastOfTwoRows(first, second, Emd);
  }

  lemma LastOfTwoRows(first: Row, second: Row, col: Column)
    ensures LastCandidate([first, second], col)
         == if Candidate(second, col).Some? then Candidate(second, col) else Candidate(first, col)
  {
    assert [first, second] == [] + [first] + [second];
    LastCandidateStep([], first, col);
    LastCandidateStep([first], second, col);
    assert [] + [first] == [first];
  }
}
