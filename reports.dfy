/**
 * Report assembly: `date_fix`, the extract parser (`load_report_rows`),
 * the per-account batch merge of `run_campaign_performance_report` with the
 * download as a per-account outcome, and `save_clean_report_only`.
 */
module Reports {
  import opened Wrappers
  import opened Text
  import opened Files
  import opened Dates

  // ---------------------------------------------------------------------
  // date_fix
  // ---------------------------------------------------------------------

  /** `date_fix(ymd)`: drop every `-`, then the slices [0:4], [4:6], [6:8]. */
  function DateFix(ymd: string): (r: (string, string, string))
    ensures |r.0| <= 4 && |r.1| <= 2 && |r.2| <= 2
    ensures r.0 + r.1 + r.2 == Slice(RemoveAll(ymd, "-"), 0, 8)
    ensures var n := |RemoveAll(ymd, "-")|;
            && |r.0| == (if n < 4 then n else 4)
            && |r.1| == (if n < 4 then 0 else if n < 6 then n - 4 else 2)
            && |r.2| == (if n < 6 then 0 else if n < 8 then n - 6 else 2)
  {
    var t := RemoveAll(ymd, "-");
    SliceJoin(t, 0, 4, 6);
    SliceJoin(t, 0, 6, 8);
    (Slice(t, 0, 4), Slice(t, 4, 6), Slice(t, 6, 8))
  }

  predicate NoDash(s: string) {
    forall k :: 0 <= k < |s| ==> s[k] != '-'
  }

  lemma RemoveDashesAbsent(s: string)
    requires NoDash(s)
    ensures RemoveAll(s, "-") == s
  {
    NotContainsChar(s, '-');
    RemoveAllAbsent(s, "-");
  }

  /** "YYYY-MM-DD" and "YYYYMMDD" split into the same (year, month, day) triple. */
  lemma DateFixBothForms(y: string, m: string, d: string)
    requires |y| == 4 && |m| == 2 && |d| == 2
    requires NoDash(y) && NoDash(m) && NoDash(d)
    ensures DateFix(y + "-" + m + "-" + d) == (y, m, d)
    ensures DateFix(y + m + d) == (y, m, d)
  {
    RemoveDashesAbsent(y);
    RemoveDashesAbsent(m);
    RemoveDashesAbsent(d);
    assert RemoveAll("-", "-") == "";
    RemoveAllConcat(y + "-" + m + "-", d, '-');
    RemoveAllConcat(y + "-" + m, "-", '-');
    RemoveAllConcat(y + "-", m, '-');
    RemoveAllConcat(y, "-", '-');
    RemoveAllConcat(y + m, d, '-');
    RemoveAllConcat(y, m, '-');
    var t := y + m + d;
    assert RemoveAll(y + "-" + m + "-" + d, "-") == t;
    assert RemoveAll(y + m + d, "-") == t;
    assert Slice(t, 0, 4) == y && Slice(t, 4, 6) == m && Slice(t, 6, 8) == d;
  }

  /**
   * `date_fix` relies on fixed-width fields: with a one-digit month, which
   * `strptime` accepts, the day's first digit moves into the month
   * ("2024-1-15" is read as 5 November).
   */
  lemma DateFixShortMonth(y: string, m: string, d: string)
    requires |y| == 4 && |m| == 1 && |d| == 2
    requires NoDash(y) && NoDash(m) && NoDash(d)
    ensures DateFix(y + "-" + m + "-" + d) == (y, m + d[..1], d[1..])
  {
    RemoveDashesAbsent(y);
    RemoveDashesAbsent(m);
    RemoveDashesAbsent(d);
    assert RemoveAll("-", "-") == "";
    RemoveAllConcat(y + "-" + m + "-", d, '-');
    RemoveAllConcat(y + "-" + m, "-", '-');
    RemoveAllConcat(y + "-", m, '-');
    RemoveAllConcat(y, "-", '-');
    var t := y + m + d;
    assert RemoveAll(y + "-" + m + "-" + d, "-") == t;
    assert Slice(t, 0, 4) == y && Slice(t, 4, 6) == m + d[..1] && Slice(t, 6, 8) == d[1..];
  }

  lemma DateFixShortMonthExample()
    ensures DateFix("2024-1-15") == ("2024", "11", "5")
  {
    var y, m, d := "2024", "1", "15";
    assert NoDash(y) && NoDash(m) && NoDash(d);
    assert "2024-1-15" == y + "-" + m + "-" + d;
    assert m + d[..1] == "11" && d[1..] == "5";
    DateFixShortMonth(y, m, d);
  }

  /** A fixed-width date string that validation accepts splits into its date's zero-padded fields. */
  lemma DateFixOfValidated(dateStr: Option<string>, defaultToday: bool, today: Date)
    requires ValidDate(today) && ValidateDateInput(dateStr, defaultToday, today).Some?
    ensures var s := ValidateDateInput(dateStr, defaultToday, today).value;
            var d := ParseFirst(SupportedDateFormats, s).value;
            DateFix(s) == (Digits(d.year, 4), Digits(d.month, 2), Digits(d.day, 2))
  {
    var s := ValidateDateInput(dateStr, defaultToday, today).value;
    ParseSupportedFormats(s);
    var d := ParseFirst(SupportedDateFormats, s).value;
    var y, m, dd := Digits(d.year, 4), Digits(d.month, 2), Digits(d.day, 2);
    DateFixBothForms(y, m, dd);
  }

  // ---------------------------------------------------------------------
  // Extract parser
  // ---------------------------------------------------------------------

  /** "Ôªø": the UTF-8 byte-order mark read as Mac Roman text. */
  const Bom: string := "\U{D4}\U{AA}\U{F8}"

  /** The leading token of the header row. */
  const HeaderSentinel: string := "TimePeriod"

  /** The copyright footer marker. */
  const FooterSentinel: string := "Microsoft Corporation"

  /** `c.replace("Ôªø", "").strip()`. */
  function CleanCell(cell: string): string {
    Strip(RemoveAll(cell, Bom))
  }

  /** A cleaned cell has no whitespace at either end. */
  lemma CleanCellTrimmed(cell: string)
    ensures Trimmed(CleanCell(cell))
  {
    StripTrims(RemoveAll(cell, Bom));
  }

  function CleanRow(row: seq<string>): (r: seq<string>)
    ensures |r| == |row| && forall k :: 0 <= k < |r| ==> r[k] == CleanCell(row[k])
  {
    seq(|row|, k requires 0 <= k < |row| => CleanCell(row[k]))
  }

  function CleanRows(rows: Csv): (r: Csv)
    ensures |r| == |rows| && forall k :: 0 <= k < |r| ==> r[k] == CleanRow(rows[k])
  {
    seq(|rows|, k requires 0 <= k < |rows| => CleanRow(rows[k]))
  }

  /** `row and row[0].startswith("TimePeriod")`. */
  predicate IsHeaderRow(row: seq<string>) {
    |row| > 0 && StartsWith(row[0], HeaderSentinel)
  }

  /** `"Microsoft Corporation" in " ".join(row)`. */
  predicate IsFooterRow(row: seq<string>) {
    Contains(JoinSpace(row), FooterSentinel)
  }

  /** The footer text inside any one cell marks the whole row as the footer. */
  lemma FooterInAnyCell(row: seq<string>, k: nat, i: nat)
    requires k < |row| && i + |FooterSentinel| <= |row[k]|
    requires row[k][i..i + |FooterSentinel|] == FooterSentinel
    ensures IsFooterRow(row)
  {
    var off := JoinSpaceCellAt(row, k);
    var j := JoinSpace(row);
    var n := |FooterSentinel|;
    SliceOfSlice(j, off, off + |row[k]|, i, i + n);
    ContainsAt(j, FooterSentinel, off + i);
  }

  /** The `next(...)` search: the index of the first header row, if any. */
  function FindHeader(rows: Csv): (r: Option<nat>)
    ensures r.Some? ==> r.value < |rows|
    decreases |rows|
  {
    if rows == [] then None
    else if IsHeaderRow(rows[0]) then Some(0)
    else match FindHeader(rows[1..])
      case None => None
      case Some(i) => Some(i + 1)
  }

  /** The search finds a header row with none before it, and finds nothing only when there is no header row. */
  lemma {:induction false} FindHeaderMeaning(rows: Csv)
    ensures var r := FindHeader(rows);
            && (r.Some? ==> IsHeaderRow(rows[r.value]))
            && (r.Some? ==> forall j :: 0 <= j < r.value ==> !IsHeaderRow(rows[j]))
            && (r.None? <==> forall j :: 0 <= j < |rows| ==> !IsHeaderRow(rows[j]))
    decreases |rows|
  {
    if rows != [] && !IsHeaderRow(rows[0]) {
      FindHeaderMeaning(rows[1..]);
      assert forall j :: 0 < j < |rows| ==> rows[j] == rows[1..][j - 1];
    }
  }

  /** The first header row's index is what the search returns. */
  lemma FindHeaderIs(rows: Csv, i: nat)
    requires i < |rows| && IsHeaderRow(rows[i])
    requires forall j :: 0 <= j < i ==> !IsHeaderRow(rows[j])
    ensures FindHeader(rows) == Some(i)
  {
    FindHeaderMeaning(rows);
  }

  /**
   * The rows kept by `for r in rows: if footer: break; data.append(r)`: the
   * longest prefix without a footer row.
   */
  function UntilFooter(rows: Csv): (r: Csv)
    ensures r <= rows
    decreases |rows|
  {
    if rows == [] || IsFooterRow(rows[0]) then []
    else [rows[0]] + UntilFooter(rows[1..])
  }

  /** The kept rows hold no footer, and only a footer row stops the collection early. */
  lemma {:induction false} UntilFooterMeaning(rows: Csv)
    ensures var r := UntilFooter(rows);
            && (forall k :: 0 <= k < |r| ==> !IsFooterRow(r[k]))
            && (|r| < |rows| ==> IsFooterRow(rows[|r|]))
    decreases |rows|
  {
    if rows != [] && !IsFooterRow(rows[0]) {
      UntilFooterMeaning(rows[1..]);
      var r := UntilFooter(rows);
      assert forall k :: 0 < k < |r| ==> r[k] == UntilFooter(rows[1..])[k - 1];
      assert |r| < |rows| ==> rows[|r|] == rows[1..][|r| - 1];
    }
  }

  /** The three properties of `UntilFooter` determine it. */
  lemma {:induction false} UntilFooterUnique(rows: Csv, p: Csv)
    requires p <= rows
    requires forall k :: 0 <= k < |p| ==> !IsFooterRow(p[k])
    requires |p| < |rows| ==> IsFooterRow(rows[|p|])
    ensures p == UntilFooter(rows)
    decreases |rows|
  {
    if rows != [] && !IsFooterRow(rows[0]) {
      assert p != [];
      var t := p[1..];
      assert t <= rows[1..];
      assert forall k :: 0 <= k < |t| ==> t[k] == p[k + 1];
      UntilFooterUnique(rows[1..], t);
      assert p == [rows[0]] + t;
    }
  }

  /** `load_report_rows` on the rows `csv.reader` produced. */
  function LoadReport(rows: Csv): (seq<string>, Csv) {
    var cleaned := CleanRows(rows);
    match FindHeader(cleaned)
    case None => ([], [])
    case Some(i) => (cleaned[i], UntilFooter(cleaned[i + 1..]))
  }

  /** The header search loop shared by the parser and the merge. */
  method FindHeaderIndex(rows: Csv) returns (idx: Option<nat>)
    ensures idx == FindHeader(rows)
  {
    var i := 0;
    while i < |rows| && !IsHeaderRow(rows[i])
      invariant 0 <= i <= |rows|
      invariant forall j :: 0 <= j < i ==> !IsHeaderRow(rows[j])
    {
      i := i + 1;
    }
    if i < |rows| {
      FindHeaderIs(rows, i);
      idx := Some(i);
    } else {
      FindHeaderMeaning(rows);
      idx := None;
    }
  }

  /** The footer-terminated collection loop shared by the parser and the merge. */
  method CollectDataRows(rows: Csv, start: nat) returns (data: Csv)
    requires start <= |rows|
    ensures data == UntilFooter(rows[start..])
  {
    data := [];
    var k := start;
    while k < |rows|
      invariant start <= k <= |rows|
      invariant data == rows[start..k]
      invariant forall j :: 0 <= j < |data| ==> !IsFooterRow(data[j])
    {
      if IsFooterRow(rows[k]) {
        break;
      }
      data := data + [rows[k]];
      k := k + 1;
    }
    assert k < |rows| ==> rows[start..][|data|] == rows[k];
    UntilFooterUnique(rows[start..], data);
  }

  /** `load_report_rows(csv_path)`, given the rows read from the file. */
  method LoadReportRows(rows: Csv) returns (header: seq<string>, data: Csv)
    ensures (header, data) == LoadReport(rows)
    ensures header == [] ==> data == []
    ensures forall k :: 0 <= k < |header| ==> Trimmed(header[k])
  {
    var cleaned: Csv := [];
    for i := 0 to |rows|
      invariant |cleaned| == i
      invariant forall k :: 0 <= k < i ==> cleaned[k] == CleanRow(rows[k])
    {
      cleaned := cleaned + [CleanRow(rows[i])];
    }
    assert cleaned == CleanRows(rows);
    var headerIdx := FindHeaderIndex(cleaned);
    if headerIdx.None? {
      return [], [];
    }
    FindHeaderMeaning(cleaned);
    header := cleaned[headerIdx.value];
    data := CollectDataRows(cleaned, headerIdx.value + 1);
    CleanRowTrimmed(rows[headerIdx.value]);
  }

  /** Where the header search stops fixes both halves of the result. */
  lemma LoadReportAt(rows: Csv, i: nat)
    requires FindHeader(CleanRows(rows)) == Some(i)
    ensures LoadReport(rows) == (CleanRows(rows)[i], UntilFooter(CleanRows(rows)[i + 1..]))
  {
  }

  /** The header is the first row whose cleaned first cell starts with "TimePeriod"; what precedes it is dropped. */
  lemma LoadReportFirstHeader(rows: Csv, i: nat)
    requires i < |rows| && IsHeaderRow(CleanRow(rows[i]))
    requires forall j :: 0 <= j < i ==> !IsHeaderRow(CleanRow(rows[j]))
    ensures LoadReport(rows) == (CleanRow(rows[i]), UntilFooter(CleanRows(rows)[i + 1..]))
  {
    var cleaned := CleanRows(rows);
    assert FindHeader(cleaned) == Some(i) by {
      FindHeaderIs(cleaned, i);
    }
    LoadReportAt(rows, i);
  }

  /** Without a header row the result is `([], [])`, and only then is the header empty. */
  lemma LoadReportNoHeader(rows: Csv)
    ensures LoadReport(rows) == ([], []) <==> forall i :: 0 <= i < |rows| ==> !IsHeaderRow(CleanRow(rows[i]))
    ensures LoadReport(rows).0 == [] ==> LoadReport(rows).1 == []
  {
    var cleaned := CleanRows(rows);
    FindHeaderMeaning(cleaned);
    if FindHeader(cleaned).Some? {
      var i := FindHeader(cleaned).value;
      assert IsHeaderRow(cleaned[i]);
      assert LoadReport(rows).0 == cleaned[i] != [];
    } else {
      forall i | 0 <= i < |rows| ensures !IsHeaderRow(CleanRow(rows[i])) {
        assert cleaned[i] == CleanRow(rows[i]);
      }
    }
  }

  lemma LoadReportHasHeader(rows: Csv)
    requires LoadReport(rows).0 != []
    ensures FindHeader(CleanRows(rows)).Some?
  {
  }

  /** The footer-free prefix after position `i` of the cleaned rows consists of the input rows after `i`, each cleaned. */
  lemma CleanedTail(rows: Csv, i: nat)
    requires i < |rows|
    ensures var data := UntilFooter(CleanRows(rows)[i + 1..]);
            && i + 1 + |data| <= |rows|
            && forall r :: 0 <= r < |data| ==> data[r] == CleanRow(rows[i + 1 + r])
  {
    var tail := CleanRows(rows)[i + 1..];
    var data := UntilFooter(tail);
    forall r | 0 <= r < |data| ensures data[r] == CleanRow(rows[i + 1 + r]) {
      assert data[r] == tail[r];
    }
  }

  /** The data rows are input rows after the header, in order, each cleaned. */
  lemma LoadReportDataAreCleanedRows(rows: Csv)
    requires LoadReport(rows).0 != []
    ensures var i := FindHeader(CleanRows(rows)).value;
            var data := LoadReport(rows).1;
            && LoadReport(rows).0 == CleanRow(rows[i])
            && i + 1 + |data| <= |rows|
            && forall r :: 0 <= r < |data| ==> data[r] == CleanRow(rows[i + 1 + r])
  {
    var cleaned := CleanRows(rows);
    LoadReportHasHeader(rows);
    var i := FindHeader(cleaned).value;
    LoadReportAt(rows, i);
    assert LoadReport(rows).0 == cleaned[i] == CleanRow(rows[i]);
    CleanedTail(rows, i);
  }

  /** Every cell of a cleaned row has no whitespace at either end. */
  lemma CleanRowTrimmed(row: seq<string>)
    ensures forall k :: 0 <= k < |CleanRow(row)| ==> Trimmed(CleanRow(row)[k])
  {
    forall k | 0 <= k < |row| ensures Trimmed(CleanRow(row)[k]) {
      CleanCellTrimmed(row[k]);
    }
  }

  /** The header candidate at `i` and the rows collected after it have trimmed cells. */
  lemma CleanedCellsTrimmed(rows: Csv, i: nat)
    requires i < |rows|
    ensures forall k :: 0 <= k < |CleanRows(rows)[i]| ==> Trimmed(CleanRows(rows)[i][k])
    ensures var data := UntilFooter(CleanRows(rows)[i + 1..]);
            forall r, k :: 0 <= r < |data| && 0 <= k < |data[r]| ==> Trimmed(data[r][k])
  {
    CleanedTail(rows, i);
    CleanRowTrimmed(rows[i]);
    var data := UntilFooter(CleanRows(rows)[i + 1..]);
    forall r | 0 <= r < |data| ensures forall k :: 0 <= k < |data[r]| ==> Trimmed(data[r][k]) {
      CleanRowTrimmed(rows[i + 1 + r]);
    }
  }

  /** Every cell of the result has no whitespace at either end. */
  lemma LoadReportCellsTrimmed(rows: Csv)
    ensures forall k :: 0 <= k < |LoadReport(rows).0| ==> Trimmed(LoadReport(rows).0[k])
    ensures forall r, k :: 0 <= r < |LoadReport(rows).1| && 0 <= k < |LoadReport(rows).1[r]| ==>
              Trimmed(LoadReport(rows).1[r][k])
  {
    if LoadReport(rows).0 != [] {
      LoadReportHasHeader(rows);
      var i := FindHeader(CleanRows(rows)).value;
      LoadReportAt(rows, i);
      CleanedCellsTrimmed(rows, i);
    } else {
      LoadReportNoHeader(rows);
    }
  }

  /** A cell that is trimmed and holds no artefact is its own cleaning. */
  lemma CleanCellFixed(x: string)
    requires Trimmed(x) && !Contains(x, Bom)
    ensures CleanCell(x) == x
  {
    RemoveAllAbsent(x, Bom);
    StripOfTrimmed(x);
  }

  /** Every cell's cleaning is free of the artefact. */
  predicate ArtefactFreeAfterCleaning(rows: Csv) {
    forall i, k :: 0 <= i < |rows| && 0 <= k < |rows[i]| ==> !Contains(CleanCell(rows[i][k]), Bom)
  }

  /** A row that cleaning leaves as it is. */
  predicate RowIsClean(row: seq<string>) {
    CleanRow(row) == row
  }

  lemma CleanRowsOfClean(rows: Csv)
    requires forall i :: 0 <= i < |rows| ==> RowIsClean(rows[i])
    ensures CleanRows(rows) == rows
  {
  }

  /** A cleaned row whose cells came out artefact-free is clean. */
  lemma CleanedRowIsClean(row: seq<string>)
    requires forall k :: 0 <= k < |row| ==> !Contains(CleanCell(row[k]), Bom)
    ensures RowIsClean(CleanRow(row))
  {
    var c := CleanRow(row);
    forall k | 0 <= k < |c| ensures CleanRow(c)[k] == c[k] {
      CleanCellTrimmed(row[k]);
      CleanCellFixed(c[k]);
    }
  }

  /** Cleaning any row a second time changes nothing. */
  predicate CleaningSettles(rows: Csv) {
    forall j :: 0 <= j < |rows| ==> RowIsClean(CleanRow(rows[j]))
  }

  lemma ArtefactFreeSettles(rows: Csv)
    requires ArtefactFreeAfterCleaning(rows)
    ensures CleaningSettles(rows)
  {
    forall j | 0 <= j < |rows| ensures RowIsClean(CleanRow(rows[j])) {
      CleanedRowIsClean(rows[j]);
    }
  }

  /** The header and the data rows the parser returns are all clean rows. */
  lemma LoadReportRowsAreClean(rows: Csv)
    requires CleaningSettles(rows)
    requires LoadReport(rows).0 != []
    ensures RowIsClean(LoadReport(rows).0)
    ensures forall r :: 0 <= r < |LoadReport(rows).1| ==> RowIsClean(LoadReport(rows).1[r])
  {
    LoadReportDataAreCleanedRows(rows);
  }

  lemma CleanRowsOfCleanPrepend(header: seq<string>, data: Csv)
    requires RowIsClean(header)
    requires forall r :: 0 <= r < |data| ==> RowIsClean(data[r])
    ensures CleanRows([header] + data) == [header] + data
  {
    var out := [header] + data;
    assert forall r :: 1 <= r < |out| ==> out[r] == data[r - 1];
    CleanRowsOfClean(out);
  }

  /** A header followed by footer-free rows, all clean, parses back to itself. */
  lemma LoadReportOfClean(header: seq<string>, data: Csv)
    requires IsHeaderRow(header) && RowIsClean(header)
    requires forall r :: 0 <= r < |data| ==> RowIsClean(data[r]) && !IsFooterRow(data[r])
    ensures LoadReport([header] + data) == (header, data)
  {
    var out := [header] + data;
    CleanRowsOfCleanPrepend(header, data);
    FindHeaderIs(out, 0);
    assert out[1..] == data;
    UntilFooterUnique(data, data);
  }

  /** The header found is a header row, and no data row is a footer row. */
  lemma LoadReportShape(rows: Csv)
    requires LoadReport(rows).0 != []
    ensures IsHeaderRow(LoadReport(rows).0)
    ensures forall r :: 0 <= r < |LoadReport(rows).1| ==> !IsFooterRow(LoadReport(rows).1[r])
  {
    var cleaned := CleanRows(rows);
    LoadReportHasHeader(rows);
    var i := FindHeader(cleaned).value;
    LoadReportAt(rows, i);
    FindHeaderMeaning(cleaned);
    UntilFooterMeaning(cleaned[i + 1..]);
  }

  /**
   * Parsing the parser's own output, written back as header then rows,
   * returns that output, provided cleaning left no artefact behind.
   */
  lemma LoadReportIdempotent(rows: Csv)
    requires ArtefactFreeAfterCleaning(rows)
    requires LoadReport(rows).0 != []
    ensures LoadReport([LoadReport(rows).0] + LoadReport(rows).1) == LoadReport(rows)
  {
    ArtefactFreeSettles(rows);
    LoadReportRowsAreClean(rows);
    LoadReportShape(rows);
    LoadReportOfClean(LoadReport(rows).0, LoadReport(rows).1);
  }

  /** `replace` makes one left-to-right pass, so removing the inner artefact joins the outer one. */
  lemma NestedArtefactRemoval()
    ensures RemoveAll("\U{D4}" + Bom + "\U{AA}\U{F8}", Bom) == Bom
  {
    var s := "\U{D4}" + Bom + "\U{AA}\U{F8}";
    var t := s[1..];
    assert t[..3] == Bom && t[3..] == "\U{AA}\U{F8}";
    assert RemoveAll(t, Bom) == "\U{AA}\U{F8}";
    assert s[..3][1] == '\U{D4}' != Bom[1];
    assert RemoveAll(s, Bom) == [s[0]] + RemoveAll(t, Bom);
  }

  /** One pass of `replace` can leave an artefact behind, so cleaning is not idempotent in general. */
  lemma NestedArtefactSurvivesCleaning()
    ensures CleanCell("\U{D4}" + Bom + "\U{AA}\U{F8}") == Bom
    ensures CleanCell(Bom) == ""
  {
    NestedArtefactRemoval();
    assert Trimmed(Bom);
    StripOfTrimmed(Bom);
    assert Bom[..3] == Bom && Bom[3..] == "";
    assert RemoveAll(Bom, Bom) == "";
  }

  /** The bare header row is clean and is a header row. */
  lemma SentinelHeaderRow()
    ensures CleanRow([HeaderSentinel]) == [HeaderSentinel] && IsHeaderRow([HeaderSentinel])
  {
    assert Trimmed(HeaderSentinel);
    NotContainsHead(HeaderSentinel, Bom);
    CleanCellFixed(HeaderSentinel);
    assert StartsWith(HeaderSentinel, HeaderSentinel);
  }

  /** A header followed by one single-cell row that cleans to `c`, with `c` too short to hold the footer. */
  lemma LoadReportOneCell(cell: string)
    requires |CleanCell(cell)| < |FooterSentinel|
    ensures LoadReport([[HeaderSentinel], [cell]]) == ([HeaderSentinel], [[CleanCell(cell)]])
  {
    var c := CleanCell(cell);
    var rows := [[HeaderSentinel], [cell]];
    SentinelHeaderRow();
    LoadReportFirstHeader(rows, 0);
    var cleaned := CleanRows(rows);
    assert |cleaned| == 2 && cleaned[1] == CleanRow([cell]);
    assert CleanRow([cell]) == [c];
    assert cleaned[1..] == [[c]];
    assert JoinSpace([c]) == c;
    NotContainsLonger(c, FooterSentinel);
    assert UntilFooter([[c]]) == [[c]] by {
      assert !IsFooterRow([c]);
      assert UntilFooter([[c]][1..]) == [];
    }
  }

  /**
   * So the parser is not idempotent either: a header followed by a row whose
   * one cell holds the nested artefact parses to a row holding the artefact,
   * and parsing that output again empties the cell.
   */
  lemma LoadReportNotIdempotent()
    ensures var first := LoadReport([[HeaderSentinel], ["\U{D4}" + Bom + "\U{AA}\U{F8}"]]);
            && first == ([HeaderSentinel], [[Bom]])
            && LoadReport([first.0] + first.1) == ([HeaderSentinel], [[""]])
            && LoadReport([first.0] + first.1) != first
  {
    NestedArtefactSurvivesCleaning();
    LoadReportOneCell("\U{D4}" + Bom + "\U{AA}\U{F8}");
    LoadReportOneCell(Bom);
    assert [[HeaderSentinel]] + [[Bom]] == [[HeaderSentinel], [Bom]];
  }

  // ---------------------------------------------------------------------
  // Batch merge
  // ---------------------------------------------------------------------

  /** An account as the account-listing service supplies it. */
  datatype Account = Account(accountId: int, accountName: string)

  /**
   * What `svc_mgr.download_file` left behind for one account: an exception,
   * no file (missing or zero-size), or the rows `csv.reader` reads from it.
   */
  datatype FetchOutcome = FetchError | NoFile | Downloaded(rows: Csv)

  /** The branch the merge took for one account, as its log line reports it. */
  datatype AccountResult =
    | DownloadFailed
    | NoFileCreated
    | EmptyFile
    | InvalidHeader
    | Added(header: seq<string>, data: Csv)

  function ProcessAccount(outcome: FetchOutcome): AccountResult {
    match outcome
    case FetchError => DownloadFailed
    case NoFile => NoFileCreated
    case Downloaded(rows) =>
      if rows == [] then EmptyFile
      else match FindHeader(rows)
        case None => InvalidHeader
        case Some(i) => Added(rows[i], UntilFooter(rows[i + 1..]))
  }

  /** The per-account results, one for each outcome, in account order. */
  function Results(outcomes: seq<FetchOutcome>): (r: seq<AccountResult>)
    ensures |r| == |outcomes| && forall k :: 0 <= k < |r| ==> r[k] == ProcessAccount(outcomes[k])
  {
    seq(|outcomes|, k requires 0 <= k < |outcomes| => ProcessAccount(outcomes[k]))
  }

  /** `f"temp_{acct_id}.csv"`. */
  function TempName(accountId: int): string {
    "temp_" + IntToString(accountId) + ".csv"
  }

  /** Temporary files of different accounts never collide. */
  lemma TempNameInjective(a: int, b: int)
    requires TempName(a) == TempName(b)
    ensures a == b
  {
    var x, y := IntToString(a), IntToString(b);
    assert TempName(a)[5..|TempName(a)| - 4] == x;
    assert TempName(b)[5..|TempName(b)| - 4] == y;
    IntToStringInjective(a, b);
  }

  /** The merge's state: `header_written`, the rows written so far, the temp files unlinked, the log. */
  datatype MergeState = MergeState(headerWritten: bool, output: Csv, unlinked: set<Path>, log: seq<AccountResult>)

  /** One iteration of the account loop, given what the account's download yielded. */
  function Step(st: MergeState, outDir: string, account: Account, res: AccountResult): MergeState {
    match res
    case Added(header, data) =>
      MergeState(true, st.output + (if st.headerWritten then [] else [header]) + data,
                 st.unlinked + {Path(outDir, TempName(account.accountId))}, st.log + [res])
    case _ => st.(log := st.log + [res])
  }

  /** The loop over `account_list`, in order, given each account's result. */
  function MergeAll(outDir: string, accounts: seq<Account>, results: seq<AccountResult>): MergeState
    requires |accounts| == |results|
    decreases |accounts|
  {
    if accounts == [] then MergeState(false, [], {}, [])
    else
      var n := |accounts| - 1;
      Step(MergeAll(outDir, accounts[..n], results[..n]), outDir, accounts[n], results[n])
  }

  /** The headers of the recognised accounts, in account order. */
  function Headers(results: seq<AccountResult>): seq<seq<string>>
    decreases |results|
  {
    if results == [] then []
    else
      var n := |results| - 1;
      Headers(results[..n]) + (if results[n].Added? then [results[n].header] else [])
  }

  /** The data rows of the recognised accounts, concatenated in account order. */
  function DataRows(results: seq<AccountResult>): Csv
    decreases |results|
  {
    if results == [] then []
    else
      var n := |results| - 1;
      DataRows(results[..n]) + (if results[n].Added? then results[n].data else [])
  }

  /** What the merged file holds: the first header, once, then all data rows; nothing if no account was recognised. */
  function MergedOutput(results: seq<AccountResult>): Csv {
    (if Headers(results) == [] then [] else [Headers(results)[0]]) + DataRows(results)
  }

  /** The temp files of the accounts that got past header detection. */
  function TempFilesRemoved(outDir: string, accounts: seq<Account>, results: seq<AccountResult>): set<Path>
    requires |accounts| == |results|
  {
    set k | 0 <= k < |accounts| && results[k].Added? :: Path(outDir, TempName(accounts[k].accountId))
  }

  lemma {:induction false} HeadersAppend(a: seq<AccountResult>, b: seq<AccountResult>)
    ensures Headers(a + b) == Headers(a) + Headers(b)
    decreases |b|
  {
    if b == [] {
      assert a + b == a;
    } else {
      var n := |b| - 1;
      assert (a + b)[..|a + b| - 1] == a + b[..n];
      assert (a + b)[|a + b| - 1] == b[n];
      HeadersAppend(a, b[..n]);
    }
  }

  lemma {:induction false} DataRowsAppend(a: seq<AccountResult>, b: seq<AccountResult>)
    ensures DataRows(a + b) == DataRows(a) + DataRows(b)
    decreases |b|
  {
    if b == [] {
      assert a + b == a;
    } else {
      var n := |b| - 1;
      assert (a + b)[..|a + b| - 1] == a + b[..n];
      assert (a + b)[|a + b| - 1] == b[n];
      DataRowsAppend(a, b[..n]);
    }
  }

  /** No header means no recognised account, and then no data rows either. */
  lemma {:induction false} HeadersEmpty(results: seq<AccountResult>)
    ensures Headers(results) == [] <==> forall k :: 0 <= k < |results| ==> !results[k].Added?
    ensures Headers(results) == [] ==> DataRows(results) == []
    decreases |results|
  {
    if results != [] {
      var n := |results| - 1;
      HeadersEmpty(results[..n]);
      assert forall k :: 0 <= k < n ==> results[..n][k] == results[k];
    }
  }

  /** Appending one result extends the headers and the data rows by that result's own. */
  lemma HeadersDataRowsSnoc(pre: seq<AccountResult>, r: AccountResult)
    ensures Headers(pre + [r]) == Headers(pre) + (if r.Added? then [r.header] else [])
    ensures DataRows(pre + [r]) == DataRows(pre) + (if r.Added? then r.data else [])
  {
    var s := pre + [r];
    assert s[..|s| - 1] == pre && s[|s| - 1] == r;
  }

  /** Appending one result: a recognised account adds its header if none was written yet, then its data. */
  lemma MergedOutputAppend(pre: seq<AccountResult>, r: AccountResult)
    ensures Headers(pre + [r]) != [] <==> Headers(pre) != [] || r.Added?
    ensures !r.Added? ==> MergedOutput(pre + [r]) == MergedOutput(pre)
    ensures r.Added? ==> MergedOutput(pre + [r]) == MergedOutput(pre) + (if Headers(pre) == [] then [r.header] else []) + r.data
  {
    var s := pre + [r];
    HeadersDataRowsSnoc(pre, r);
    HeadersEmpty(pre);
    if r.Added? {
      if Headers(pre) == [] {
        assert MergedOutput(s) == [r.header] + r.data;
      } else {
        assert Headers(s)[0] == Headers(pre)[0];
        assert MergedOutput(s) == [Headers(pre)[0]] + DataRows(pre) + r.data;
      }
    }
  }

  /** Every temp file removed after one more account was removed before it, or is that account's. */
  lemma TempFilesRemovedShrink(outDir: string, accounts: seq<Account>, results: seq<AccountResult>)
    requires |accounts| == |results| > 0
    ensures var n := |accounts| - 1;
            TempFilesRemoved(outDir, accounts, results)
            <= TempFilesRemoved(outDir, accounts[..n], results[..n])
               + (if results[n].Added? then {Path(outDir, TempName(accounts[n].accountId))} else {})
  {
    var n := |accounts| - 1;
    var a, pre := accounts[..n], results[..n];
    forall p | p in TempFilesRemoved(outDir, accounts, results)
      ensures p in TempFilesRemoved(outDir, a, pre) || (results[n].Added? && p == Path(outDir, TempName(accounts[n].accountId)))
    {
      var k :| 0 <= k < |accounts| && results[k].Added? && p == Path(outDir, TempName(accounts[k].accountId));
      if k < n {
        assert a[k] == accounts[k] && pre[k] == results[k];
        assert p in TempFilesRemoved(outDir, a, pre);
      } else {
        assert k == n;
      }
    }
  }

  /** The temp files removed before one more account are still removed after it. */
  lemma TempFilesRemovedGrow(outDir: string, accounts: seq<Account>, results: seq<AccountResult>)
    requires |accounts| == |results| > 0
    ensures var n := |accounts| - 1;
            TempFilesRemoved(outDir, accounts[..n], results[..n]) <= TempFilesRemoved(outDir, accounts, results)
  {
    var n := |accounts| - 1;
    var a, pre := accounts[..n], results[..n];
    forall p | p in TempFilesRemoved(outDir, a, pre)
      ensures p in TempFilesRemoved(outDir, accounts, results)
    {
      var k :| 0 <= k < |a| && pre[k].Added? && p == Path(outDir, TempName(a[k].accountId));
      assert accounts[k] == a[k] && results[k] == pre[k];
    }
  }

  /** Appending one account: its temp file is added to the removed set exactly when it was recognised. */
  lemma TempFilesRemovedAppend(outDir: string, accounts: seq<Account>, results: seq<AccountResult>)
    requires |accounts| == |results| > 0
    ensures var n := |accounts| - 1;
            TempFilesRemoved(outDir, accounts, results)
            == TempFilesRemoved(outDir, accounts[..n], results[..n])
               + (if results[n].Added? then {Path(outDir, TempName(accounts[n].accountId))} else {})
  {
    var n := |accounts| - 1;
    TempFilesRemovedShrink(outDir, accounts, results);
    TempFilesRemovedGrow(outDir, accounts, results);
    if results[n].Added? {
      assert Path(outDir, TempName(accounts[n].accountId)) in TempFilesRemoved(outDir, accounts, results);
    }
  }

  /**
   * The merge in closed form: the log holds each account's result; the
   * output is `MergedOutput` of the log; the unlinked temp files are those
   * of the recognised accounts.
   */
  lemma {:induction false} MergeClosedForm(outDir: string, accounts: seq<Account>, results: seq<AccountResult>)
    requires |accounts| == |results|
    ensures MergeAll(outDir, accounts, results).log == results
    ensures MergeAll(outDir, accounts, results).headerWritten <==> Headers(results) != []
    ensures MergeAll(outDir, accounts, results).output == MergedOutput(results)
    ensures MergeAll(outDir, accounts, results).unlinked == TempFilesRemoved(outDir, accounts, results)
    decreases |accounts|
  {
    if accounts != [] {
      var n := |accounts| - 1;
      var pre := results[..n];
      MergeClosedForm(outDir, accounts[..n], pre);
      var prev := MergeAll(outDir, accounts[..n], pre);
      assert results == pre + [results[n]];
      MergedOutputAppend(pre, results[n]);
      TempFilesRemovedAppend(outDir, accounts, results);
      if results[n].Added? {
        assert MergeAll(outDir, accounts, results).output
               == prev.output + (if prev.headerWritten then [] else [results[n].header]) + results[n].data;
      }
    }
  }

  /** The loop body for one account; each `continue` of the source is an early return. */
  method MergeAccount(outDir: string, account: Account, outcome: FetchOutcome, st: MergeState)
    returns (next: MergeState)
    ensures next == Step(st, outDir, account, ProcessAccount(outcome))
  {
    var tmpPath := Path(outDir, TempName(account.accountId));
    if outcome.FetchError? {
      return st.(log := st.log + [DownloadFailed]);
    }
    if outcome.NoFile? {
      return st.(log := st.log + [NoFileCreated]);
    }
    var rows := outcome.rows;
    if rows == [] {
      return st.(log := st.log + [EmptyFile]);
    }
    var headerIdx := FindHeaderIndex(rows);
    if headerIdx.None? {
      return st.(log := st.log + [InvalidHeader]);
    }
    var header := rows[headerIdx.value];
    var dataRows := CollectDataRows(rows, headerIdx.value + 1);
    var res := Added(header, dataRows);
    assert ProcessAccount(outcome) == res;
    var headerWritten, merged := st.headerWritten, st.output;
    if !headerWritten {
      merged := merged + [header];
      headerWritten := true;
    }
    assert merged == st.output + (if st.headerWritten then [] else [header]);
    merged := merged + dataRows;
    next := MergeState(headerWritten, merged, st.unlinked + {tmpPath}, st.log + [res]);
  }

  /** `run_campaign_performance_report`, with one download outcome per account. */
  method RunCampaignPerformanceReport(outDir: string, fileName: string, accounts: seq<Account>,
                                      outcomes: seq<FetchOutcome>)
    returns (outPath: Path, merged: Csv, unlinked: set<Path>, log: seq<AccountResult>)
    requires |accounts| == |outcomes|
    ensures outPath == Path(outDir, fileName)
    ensures log == Results(outcomes)
    ensures merged == MergedOutput(log)
    ensures unlinked == TempFilesRemoved(outDir, accounts, log)
  {
    outPath := Path(outDir, fileName);
    var st := MergeState(false, [], {}, []);
    ghost var results := Results(outcomes);
    for i := 0 to |accounts|
      invariant st == MergeAll(outDir, accounts[..i], results[..i])
    {
      assert accounts[..i + 1][..i] == accounts[..i] && results[..i + 1][..i] == results[..i];
      st := MergeAccount(outDir, accounts[i], outcomes[i], st);
    }
    assert accounts[..|accounts|] == accounts && results[..|results|] == results;
    MergeClosedForm(outDir, accounts, results);
    merged, unlinked, log := st.output, st.unlinked, st.log;
  }

  /** An account that is skipped changes nothing in the merged output, wherever it stands. */
  lemma SkippedAccountContributesNothing(a: seq<AccountResult>, r: AccountResult, b: seq<AccountResult>)
    requires !r.Added?
    ensures MergedOutput(a + [r] + b) == MergedOutput(a + b)
  {
    HeadersDataRowsSnoc(a, r);
    HeadersAppend(a + [r], b);
    HeadersAppend(a, b);
    DataRowsAppend(a + [r], b);
    DataRowsAppend(a, b);
    assert Headers(a + [r] + b) == Headers(a + b);
    assert DataRows(a + [r] + b) == DataRows(a + b);
  }

  /** The merged header is the header of the first recognised account, written once. */
  lemma FirstRecognisedHeader(results: seq<AccountResult>, j: nat)
    requires j < |results| && results[j].Added?
    requires forall k :: 0 <= k < j ==> !results[k].Added?
    ensures MergedOutput(results) == [results[j].header] + DataRows(results)
  {
    var pre, rest := results[..j], results[j..];
    assert results == pre + rest;
    HeadersAppend(pre, rest);
    HeadersEmpty(pre);
    assert rest == [results[j]] + rest[1..];
    HeadersAppend([results[j]], rest[1..]);
    assert [results[j]][..0] == [];
  }

  /** A recognised account followed by a failed one: the failure adds nothing. */
  lemma MergedOutputThenFailure(ra: AccountResult)
    requires ra.Added?
    ensures Headers([ra, DownloadFailed]) != []
    ensures MergedOutput([ra, DownloadFailed]) == [ra.header] + ra.data
  {
    var s0: seq<AccountResult> := [];
    MergedOutputAppend(s0, ra);
    assert s0 + [ra] == [ra];
    MergedOutputAppend([ra], DownloadFailed);
    assert [ra] + [DownloadFailed] == [ra, DownloadFailed];
  }

  /** Results A (recognised), B (failed), C (recognised) merge into A's header, A's data, then C's data. */
  lemma MergedOutputWithFailure(ra: AccountResult, rc: AccountResult)
    requires ra.Added? && rc.Added?
    ensures MergedOutput([ra, DownloadFailed, rc]) == [ra.header] + ra.data + rc.data
  {
    MergedOutputThenFailure(ra);
    MergedOutputAppend([ra, DownloadFailed], rc);
    assert [ra, DownloadFailed] + [rc] == [ra, DownloadFailed, rc];
  }

  /** Accounts A (3 rows), B (download fails), C (2 rows): one header and 5 data rows, B logged as skipped. */
  lemma PartialFailureContained(outDir: string, accts: seq<Account>, oa: FetchOutcome, oc: FetchOutcome)
    requires |accts| == 3
    requires ProcessAccount(oa).Added? && |ProcessAccount(oa).data| == 3
    requires ProcessAccount(oc).Added? && |ProcessAccount(oc).data| == 2
    ensures var st := MergeAll(outDir, accts, Results([oa, FetchError, oc]));
            && |st.output| == 6
            && st.output == [ProcessAccount(oa).header] + ProcessAccount(oa).data + ProcessAccount(oc).data
            && |st.log| == 3 && st.log[1] == DownloadFailed
  {
    var os := [oa, FetchError, oc];
    MergeClosedForm(outDir, accts, Results(os));
    var ra, rc := ProcessAccount(oa), ProcessAccount(oc);
    assert Results(os) == [ra, DownloadFailed, rc];
    MergedOutputWithFailure(ra, rc);
  }

  // ---------------------------------------------------------------------
  // save_clean_report_only
  // ---------------------------------------------------------------------

  /** `save_clean_report_only`: write `<stem>_CLEAN.csv`, and only then unlink the raw file. */
  method SaveCleanReportOnly(store: FileStore, rawPath: Path, headers: seq<string>, rows: Csv)
    returns (cleanPath: Path)
    requires store.Valid() && rawPath.name != ""
    modifies store
    ensures store.Valid() && store.origin == old(store.origin)
    ensures cleanPath == CleanPath(rawPath)
    ensures store.journal == old(store.journal) + [WriteFile(cleanPath, [headers] + rows), FsOp.Unlink(rawPath)]
    ensures store.files == old(store.files)[cleanPath := [headers] + rows] - {rawPath}
    ensures cleanPath in store.files && store.files[cleanPath] == [headers] + rows && rawPath !in store.files
  {
    cleanPath := CleanPath(rawPath);
    CleanPathDiffers(rawPath);
    store.WriteCsv(cleanPath, headers, rows);
    store.Unlink(rawPath);
  }
}
