/**
 * Shared helpers of the CLI: file-name sanitising and the name `save_csv`
 * chooses, micro-unit conversion, and the choice of how a report is shown.
 * Console prompts are parameters: each is the text `input()` returned.
 * The module replaces `input` so that an answer reading "exit" in any
 * case ends the program; `ExitRequested` is that test.
 */
module Common {
  import opened Wrappers
  import opened Text
  import opened Files

  /** `_custom_input`: the raw answer, lower-cased, is "exit". */
  predicate ExitRequested(answer: string) {
    Lower(answer) == "exit"
  }

  // ---------------------------------------------------------------------
  // Micro-unit amounts
  // ---------------------------------------------------------------------

  /** A decimal number `units × 10^-places`. */
  datatype Decimal = Decimal(units: int, places: nat)

  function Abs(x: int): nat {
    if x < 0 then -x else x
  }

  /** `a / 10^6` rounded to the nearest integer, halves away from zero (`ROUND_HALF_UP`). */
  function RoundHalfUpMillion(a: int): (n: int)
    ensures 2 * Abs(n * 1000000 - a) <= 1000000
    ensures 2 * Abs(n * 1000000 - a) == 1000000 ==> Abs(n) * 1000000 > Abs(a)
  {
    var q := Abs(a) / 1000000;
    var rem := Abs(a) % 1000000;
    var m := if 2 * rem >= 1000000 then q + 1 else q;
    if a < 0 then -m else m
  }

  /** The rounding target is unique: the nearest integer, the one farther from zero on a tie. */
  lemma RoundHalfUpUnique(a: int, n: int)
    requires 2 * Abs(n * 1000000 - a) <= 1000000
    requires 2 * Abs(n * 1000000 - a) == 1000000 ==> Abs(n) * 1000000 > Abs(a)
    ensures n == RoundHalfUpMillion(a)
  {
  }

  /**
   * `micros_to_decimal(micros, quantize)`. `micros` is `None` for both `None`
   * and `""`; `quantize` is the number of decimal places of a non-zero quantum
   * (`Decimal("0.01")` is 2), `None` when no quantum is given.
   * Unquantized, the value is exactly `micros / 10^6`; quantized, it is the
   * nearest multiple of the quantum, ties away from zero.
   */
  function MicrosToDecimal(micros: Option<int>, quantize: Option<nat>): (r: Decimal)
    ensures var m := if micros.Some? then micros.value else 0;
            quantize.None? ==> r.units * 1000000 == m * Pow10(r.places)
    ensures var m := if micros.Some? then micros.value else 0;
            quantize.Some? ==>
              && r.places == quantize.value
              && 2 * Abs(r.units * 1000000 - m * Pow10(r.places)) <= 1000000
              && (2 * Abs(r.units * 1000000 - m * Pow10(r.places)) == 1000000 ==>
                    Abs(r.units) * 1000000 > Abs(m * Pow10(r.places)))
  {
    var value := if micros.None? then Decimal(0, 0) else Decimal(micros.value, 6);
    assert Pow10(6) == 1000000;
    match quantize
    case None => value
    case Some(k) =>
      var m := if micros.Some? then micros.value else 0;
      Decimal(RoundHalfUpMillion(m * Pow10(k)), k)
  }

  // ---------------------------------------------------------------------
  // File names
  // ---------------------------------------------------------------------

  /** The characters `re.sub(r'[<>:"/\\|?*]', "", name)` removes. */
  predicate ForbiddenInFileName(c: char) {
    c == '<' || c == '>' || c == ':' || c == '"' || c == '/' || c == '\\' || c == '|' || c == '?' || c == '*'
  }

  /** `sanitize_filename`. */
  function SanitizeFilename(name: string): string {
    if name == "" then ""
    else (if ForbiddenInFileName(name[0]) then "" else [name[0]]) + SanitizeFilename(name[1..])
  }

  /** The result holds no forbidden character, is no longer than the input, and leaves a safe name as it is. */
  lemma {:induction false} SanitizeFilenameSafe(name: string)
    ensures var r := SanitizeFilename(name);
            && (forall k :: 0 <= k < |r| ==> !ForbiddenInFileName(r[k]))
            && |r| <= |name|
            && ((forall k :: 0 <= k < |name| ==> !ForbiddenInFileName(name[k])) ==> r == name)
    decreases |name|
  {
    if name != "" {
      var tail := name[1..];
      SanitizeFilenameSafe(tail);
      var head := if ForbiddenInFileName(name[0]) then "" else [name[0]];
      var r := SanitizeFilename(name);
      assert r == head + SanitizeFilename(tail);
      assert forall k :: 0 <= k < |r| ==> r[k] == if k < |head| then head[k] else SanitizeFilename(tail)[k - |head|];
      if forall k :: 0 <= k < |name| ==> !ForbiddenInFileName(name[k]) {
        assert forall k :: 0 <= k < |tail| ==> tail[k] == name[k + 1];
        assert name == [name[0]] + tail;
      }
    }
  }

  /** Sanitizing works character by character, so the kept characters keep their order. */
  lemma {:induction false} SanitizeConcat(a: string, b: string)
    ensures SanitizeFilename(a + b) == SanitizeFilename(a) + SanitizeFilename(b)
    decreases |a|
  {
    if a == "" {
      assert a + b == b;
    } else {
      var head := if ForbiddenInFileName(a[0]) then "" else [a[0]];
      assert (a + b)[0] == a[0] && (a + b)[1..] == a[1..] + b;
      assert SanitizeFilename(a + b) == head + SanitizeFilename(a[1..] + b);
      SanitizeConcat(a[1..], b);
      assert SanitizeFilename(a) == head + SanitizeFilename(a[1..]);
    }
  }

  lemma SanitizeIdempotent(name: string)
    ensures SanitizeFilename(SanitizeFilename(name)) == SanitizeFilename(name)
  {
    SanitizeFilenameSafe(name);
    SanitizeFilenameSafe(SanitizeFilename(name));
  }

  /** `f"{prefix}_{timestamp}.csv"`, the timestamp being `datetime.now()` as `%Y-%m-%d_%H-%M-%S`. */
  function DefaultFileName(prefix: string, timestamp: string): string {
    prefix + "_" + timestamp + ".csv"
  }

  /** The answer to the file-name prompt with every `.csv` removed, then sanitized. */
  function EnteredBaseName(entered: string): string {
    SanitizeFilename(RemoveAll(Strip(entered), ".csv"))
  }

  lemma AppendCsvKeepsSafe(base: string)
    ensures (forall k :: 0 <= k < |base| ==> !ForbiddenInFileName(base[k])) ==>
            forall k :: 0 <= k < |base + ".csv"| ==> !ForbiddenInFileName((base + ".csv")[k])
  {
    if forall k :: 0 <= k < |base| ==> !ForbiddenInFileName(base[k]) {
      forall k | 0 <= k < |base + ".csv"|
        ensures !ForbiddenInFileName((base + ".csv")[k])
      {
        if k >= |base| {
          assert (base + ".csv")[k] == ".csv"[k - |base|];
        }
      }
    }
  }

  /**
   * The file name `save_csv` writes to, from the answer `entered` to its
   * prompt: blank (after cleaning) means the default; `.csv` is appended
   * only when missing.
   */
  function SaveCsvFileName(entered: string, prefix: string, timestamp: string): (r: string)
    ensures EndsWith(r, ".csv")
    ensures EnteredBaseName(entered) == "" ==> r == DefaultFileName(prefix, timestamp)
    ensures EnteredBaseName(entered) != "" ==>
              r == EnteredBaseName(entered) || r == EnteredBaseName(entered) + ".csv"
    ensures EnteredBaseName(entered) != "" ==>
              (r == EnteredBaseName(entered) <==> EndsWith(EnteredBaseName(entered), ".csv"))
    ensures EnteredBaseName(entered) != "" ==> forall k :: 0 <= k < |r| ==> !ForbiddenInFileName(r[k])
  {
    var sanitized := EnteredBaseName(entered);
    var base := if sanitized == "" then DefaultFileName(prefix, timestamp) else sanitized;
    EndsWithAppended(prefix + "_" + timestamp, ".csv");
    assert DefaultFileName(prefix, timestamp) == prefix + "_" + timestamp + ".csv";
    EndsWithAppended(base, ".csv");
    SanitizeFilenameSafe(RemoveAll(Strip(entered), ".csv"));
    AppendCsvKeepsSafe(sanitized);
    if EndsWith(base, ".csv") then base else base + ".csv"
  }

  /** `save_csv`'s default prefix. */
  const DefaultReportPrefix: string := "msar_report"

  /**
   * `save_csv(table_data, headers, prefix)`: writes header then rows under
   * the home directory; `None` and nothing written when the answer to the
   * file-name prompt is "exit".
   */
  method SaveCsv(store: FileStore, home: string, tableData: Csv, headers: seq<string>,
                 prefix: string, timestamp: string, entered: string) returns (path: Option<Path>)
    requires store.Valid()
    modifies store
    ensures store.Valid() && store.origin == old(store.origin)
    ensures path.None? <==> ExitRequested(entered)
    ensures path.None? ==> store.journal == old(store.journal) && store.files == old(store.files)
    ensures path.Some? ==> path.value == Path(home, SaveCsvFileName(entered, prefix, timestamp))
    ensures path.Some? ==> store.journal == old(store.journal) + [WriteFile(path.value, [headers] + tableData)]
    ensures path.Some? ==> store.files == old(store.files)[path.value := [headers] + tableData]
  {
    if ExitRequested(entered) {
      return None;
    }
    var p := Path(home, SaveCsvFileName(entered, prefix, timestamp));
    store.WriteCsv(p, headers, tableData);
    path := Some(p);
  }

  // ---------------------------------------------------------------------
  // How to present a report
  // ---------------------------------------------------------------------

  /** What `data_handling_options` goes on to do. */
  datatype ViewAction =
    | NoData          // "No data to display."
    | SaveToCsv       // save_csv
    | ShowInPager     // display_table through the pager
    | PrintTable      // display_table printed directly
    | InvalidOption   // "Invalid option." and sys.exit(1)
    | Exited          // "exit" typed at the prompt

  /** The preselected view if it is non-empty, otherwise the prompt's answer stripped and lower-cased. */
  function ReportView(preselected: Option<string>, answer: string): string {
    if !Prompts(preselected) then preselected.value else Lower(Strip(answer))
  }

  /** Whether `data_handling_options` asks the prompt: no non-empty preselection. */
  predicate Prompts(preselected: Option<string>) {
    preselected.None? || preselected.value == ""
  }

  /** `data_handling_options(table_data, headers, preselected_output=...)`. */
  function DataHandlingOptions(tableData: Csv, headers: seq<string>, preselected: Option<string>,
                               answer: string): (r: ViewAction)
    ensures r == NoData <==> tableData == [] || headers == []
    ensures r == Exited <==> r != NoData && Prompts(preselected) && ExitRequested(answer)
    ensures r != NoData && r != Exited ==>
              var v := ReportView(preselected, answer);
              && (r == SaveToCsv <==> v == "1" || v == "csv")
              && (r == ShowInPager <==> v == "2" || v == "table")
              && (r == PrintTable <==> v == "auto")
  {
    if tableData == [] || headers == [] then NoData
    else if Prompts(preselected) && ExitRequested(answer) then Exited
    else
      var v := ReportView(preselected, answer);
      if v == "1" || v == "csv" then SaveToCsv
      else if v == "2" || v == "table" then ShowInPager
      else if v == "auto" then PrintTable
      else InvalidOption
  }

}
