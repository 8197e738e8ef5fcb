/**
 * The command-line layer: which accounts run (`select_accounts` and the
 * account filter of `main`), and what `handle_report_outputs` keeps on
 * disk for each `--clean` mode before handing the rows to the viewer.
 */
module Cli {
  import opened Wrappers
  import opened Text
  import opened Files
  import opened Common
  import opened Reports

  // ---------------------------------------------------------------------
  // select_accounts
  // ---------------------------------------------------------------------

  /** `[a["account_id"] for a in accounts]`. */
  function AllIds(accounts: seq<Account>): (r: seq<int>)
    ensures |r| == |accounts| && forall k :: 0 <= k < |r| ==> r[k] == accounts[k].accountId
  {
    seq(|accounts|, k requires 0 <= k < |accounts| => accounts[k].accountId)
  }

  /** `[a["account_id"] for a in accounts if a["account_id"] == acc_id]`: one copy of `id` per matching account. */
  function MatchingIds(accounts: seq<Account>, id: int): (r: seq<int>)
    ensures |r| <= |accounts|
    ensures forall k :: 0 <= k < |r| ==> r[k] == id
    ensures r == [] <==> forall k :: 0 <= k < |accounts| ==> accounts[k].accountId != id
    decreases |accounts|
  {
    if accounts == [] then []
    else (if accounts[0].accountId == id then [id] else []) + MatchingIds(accounts[1..], id)
  }

  /** One copy of `id` for each listed account that has it, however many there are. */
  lemma {:induction false} MatchingIdsCount(accounts: seq<Account>, id: int)
    ensures |MatchingIds(accounts, id)| == multiset(AllIds(accounts))[id]
    decreases |accounts|
  {
    if accounts != [] {
      MatchingIdsCount(accounts[1..], id);
      assert AllIds(accounts) == [accounts[0].accountId] + AllIds(accounts[1..]);
    }
  }

  /** The `--account` value as compared: stripped, then lower-cased. */
  function Token(s: string): string {
    Lower(Strip(s))
  }

  /**
   * The `--account` branch of `select_accounts`: `None` when the flag is
   * absent or empty (the prompt is used instead); "all", an unparsable
   * value or an id no account has selects every account.
   */
  function CliSelection(accounts: seq<Account>, cliArg: Option<string>): (r: Option<seq<int>>)
    ensures r.None? <==> cliArg.None? || cliArg.value == ""
    ensures r.Some? && Token(cliArg.value) == "all" ==> r.value == AllIds(accounts)
    ensures r.Some? && ParseInt(Token(cliArg.value)).None? ==> r.value == AllIds(accounts)
    ensures r.Some? && ParseInt(Token(cliArg.value)).Some? ==>
              var id := ParseInt(Token(cliArg.value)).value;
              if exists k :: 0 <= k < |accounts| && accounts[k].accountId == id
              then && r.value == MatchingIds(accounts, id)
                   && r.value != []
                   && (forall k :: 0 <= k < |r.value| ==> r.value[k] == id)
              else r.value == AllIds(accounts)
  {
    if cliArg.None? || cliArg.value == "" then None
    else
      var arg := Token(cliArg.value);
      if arg == "all" then Some(AllIds(accounts))
      else match ParseInt(arg)
        case None => Some(AllIds(accounts))
        case Some(id) =>
          var m := MatchingIds(accounts, id);
          if m != [] then Some(m) else Some(AllIds(accounts))
  }

  /** One answer to the interactive prompt: "all"/"a", or a 1-based position in the listed accounts. */
  function AnswerSelection(accounts: seq<Account>, answer: string): Option<seq<int>> {
    var selection := Token(answer);
    if selection == "all" || selection == "a" then Some(AllIds(accounts))
    else match ParseInt(selection)
      case Some(idx) =>
        if 1 <= idx <= |accounts| then Some([accounts[idx - 1].accountId]) else None
      case None => None
  }

  /** "all" or "a" picks every account; a number picks the account at that 1-based position; anything else is refused. */
  lemma AnswerSelectionMeaning(accounts: seq<Account>, answer: string)
    ensures Token(answer) == "all" || Token(answer) == "a" ==> AnswerSelection(accounts, answer) == Some(AllIds(accounts))
    ensures var r := AnswerSelection(accounts, answer);
            r.Some? && Token(answer) != "all" && Token(answer) != "a" ==>
              var n := ParseInt(Token(answer));
              n.Some? && 1 <= n.value <= |accounts| && r.value == [accounts[n.value - 1].accountId]
    ensures AnswerSelection(accounts, answer).None? <==>
              Token(answer) != "all" && Token(answer) != "a" &&
              (ParseInt(Token(answer)).None? || !(1 <= ParseInt(Token(answer)).value <= |accounts|))
  {
  }

  /** An answer after which the prompt is asked again ("Invalid selection."). */
  predicate Rejected(accounts: seq<Account>, answer: string) {
    !ExitRequested(answer) && AnswerSelection(accounts, answer).None?
  }

  /** How the account prompt ended: a selection, "exit", or no further answer supplied. */
  datatype SelectionOutcome = Chosen(ids: seq<int>) | ExitTyped | NoMoreAnswers

  /** The position of the first answer the prompt loop accepts, `|answers|` when it rejects them all. */
  method FirstAccepted(accounts: seq<Account>, answers: seq<string>) returns (i: nat)
    ensures i <= |answers|
    ensures forall j :: 0 <= j < i ==> Rejected(accounts, answers[j])
    ensures i < |answers| ==> !Rejected(accounts, answers[i])
  {
    i := 0;
    while i < |answers|
      invariant 0 <= i <= |answers|
      invariant forall j :: 0 <= j < i ==> Rejected(accounts, answers[j])
    {
      if !Rejected(accounts, answers[i]) {
        return;
      }
      i := i + 1;
    }
  }

  /** The `while True` prompt loop of `select_accounts`; `used` counts the answers read. */
  method SelectInteractive(accounts: seq<Account>, answers: seq<string>) returns (outcome: SelectionOutcome, used: nat)
    ensures used <= |answers|
    ensures forall j :: 0 <= j < used - 1 ==> Rejected(accounts, answers[j])
    ensures outcome.NoMoreAnswers? <==> used == |answers| && forall j :: 0 <= j < |answers| ==> Rejected(accounts, answers[j])
    ensures outcome.ExitTyped? ==> 0 < used && ExitRequested(answers[used - 1])
    ensures outcome.Chosen? ==>
              && 0 < used && !ExitRequested(answers[used - 1])
              && AnswerSelection(accounts, answers[used - 1]) == Some(outcome.ids)
  {
    var i := FirstAccepted(accounts, answers);
    if i == |answers| {
      return NoMoreAnswers, i;
    }
    // The reply that ended the loop: "exit" (seen by `input` itself) or a valid selection.
    if ExitRequested(answers[i]) {
      outcome := ExitTyped;
    } else {
      outcome := Chosen(AnswerSelection(accounts, answers[i]).value);
    }
    used := i + 1;
  }

  /** `select_accounts(accounts, cli_arg)`: the flag when given, otherwise the prompt. */
  method SelectAccounts(accounts: seq<Account>, cliArg: Option<string>, answers: seq<string>)
    returns (outcome: SelectionOutcome, used: nat)
    ensures CliSelection(accounts, cliArg).Some? ==> outcome == Chosen(CliSelection(accounts, cliArg).value) && used == 0
    ensures CliSelection(accounts, cliArg).None? ==>
              && used <= |answers|
              && (forall j :: 0 <= j < used - 1 ==> Rejected(accounts, answers[j]))
              && (outcome.NoMoreAnswers? <==>
                    used == |answers| && forall j :: 0 <= j < |answers| ==> Rejected(accounts, answers[j]))
              && (outcome.ExitTyped? ==> 0 < used && ExitRequested(answers[used - 1]))
              && (outcome.Chosen? ==>
                    0 < used && !ExitRequested(answers[used - 1])
                    && AnswerSelection(accounts, answers[used - 1]) == Some(outcome.ids))
  {
    var fromFlag := CliSelection(accounts, cliArg);
    if fromFlag.Some? {
      return Chosen(fromFlag.value), 0;
    }
    outcome, used := SelectInteractive(accounts, answers);
  }

  // ---------------------------------------------------------------------
  // The account filter of main
  // ---------------------------------------------------------------------

  /** `[a for a in accounts if a["account_id"] in account_ids]`. */
  function SelectedAccountObjs(accounts: seq<Account>, ids: seq<int>): (r: seq<Account>)
    ensures |r| <= |accounts|
    decreases |accounts|
  {
    if accounts == [] then []
    else (if accounts[0].accountId in ids then [accounts[0]] else []) + SelectedAccountObjs(accounts[1..], ids)
  }

  /** An account survives the filter exactly when it is listed and its id is selected. */
  lemma {:induction false} SelectedMembership(accounts: seq<Account>, ids: seq<int>)
    ensures forall a :: a in SelectedAccountObjs(accounts, ids) <==> a in accounts && a.accountId in ids
    decreases |accounts|
  {
    if accounts != [] {
      SelectedMembership(accounts[1..], ids);
      assert accounts == [accounts[0]] + accounts[1..];
    }
  }

  /** The filter keeps the listing's order: filtering a concatenation concatenates the filtered parts. */
  lemma {:induction false} SelectedConcat(a: seq<Account>, b: seq<Account>, ids: seq<int>)
    ensures SelectedAccountObjs(a + b, ids) == SelectedAccountObjs(a, ids) + SelectedAccountObjs(b, ids)
    decreases |a|
  {
    if a == [] {
      assert a + b == b;
    } else {
      var head := if a[0].accountId in ids then [a[0]] else [];
      assert (a + b)[0] == a[0] && (a + b)[1..] == a[1..] + b;
      assert SelectedAccountObjs(a + b, ids) == head + SelectedAccountObjs(a[1..] + b, ids);
      SelectedConcat(a[1..], b, ids);
      assert SelectedAccountObjs(a, ids) == head + SelectedAccountObjs(a[1..], ids);
    }
  }

  /** When every listed id is selected, the filter returns the listing unchanged. */
  lemma {:induction false} SelectedAllKept(accounts: seq<Account>, ids: seq<int>)
    requires forall k :: 0 <= k < |accounts| ==> accounts[k].accountId in ids
    ensures SelectedAccountObjs(accounts, ids) == accounts
    decreases |accounts|
  {
    if accounts != [] {
      assert forall k :: 0 <= k < |accounts[1..]| ==> accounts[1..][k] == accounts[k + 1];
      SelectedAllKept(accounts[1..], ids);
    }
  }

  /** Selecting "all" runs the report for every listed account, in listing order. */
  lemma SelectAllRunsEveryAccount(accounts: seq<Account>)
    ensures SelectedAccountObjs(accounts, AllIds(accounts)) == accounts
  {
    var ids := AllIds(accounts);
    assert forall k :: 0 <= k < |accounts| ==> accounts[k].accountId == ids[k];
    SelectedAllKept(accounts, ids);
  }

  /** Choosing the account at a 1-based position runs exactly the accounts that share its id. */
  lemma PositionSelectsThatAccount(accounts: seq<Account>, answer: string)
    requires AnswerSelection(accounts, answer).Some?
    requires Token(answer) != "all" && Token(answer) != "a"
    ensures var idx := ParseInt(Token(answer)).value;
            var chosen := SelectedAccountObjs(accounts, AnswerSelection(accounts, answer).value);
            && accounts[idx - 1] in chosen
            && forall a :: a in chosen <==> a in accounts && a.accountId == accounts[idx - 1].accountId
  {
    AnswerSelectionMeaning(accounts, answer);
    SelectedMembership(accounts, AnswerSelection(accounts, answer).value);
  }

  // ---------------------------------------------------------------------
  // handle_report_outputs
  // ---------------------------------------------------------------------

  /** `clean_mode or "exclude"`. */
  function Mode(cleanMode: Option<string>): (mode: string)
    ensures cleanMode.None? || cleanMode.value == "" ==> mode == "exclude"
    ensures cleanMode.Some? && cleanMode.value != "" ==> mode == cleanMode.value
  {
    if cleanMode.None? || cleanMode.value == "" then "exclude" else cleanMode.value
  }

  /** `raw_saved = mode in ("both", "exclude")`. */
  predicate KeepsRaw(mode: string) {
    mode == "both" || mode == "exclude"
  }

  /** `clean_saved = mode in ("both", "only")`. */
  predicate WritesClean(mode: string) {
    mode == "both" || mode == "only"
  }

  /** The file operations `handle_report_outputs` performs: the clean copy first, then the unlink. */
  function OutputOps(raw: Path, headers: seq<string>, rows: Csv, mode: string): seq<FsOp>
    requires raw.name != ""
  {
    (if WritesClean(mode) then [WriteFile(CleanPath(raw), [headers] + rows)] else [])
    + (if KeepsRaw(mode) then [] else [FsOp.Unlink(raw)])
  }

  /** `preselected_output="auto" if auto_view else None`. */
  function Preselection(autoView: bool): Option<string> {
    if autoView then Some("auto") else None
  }

  /** What the viewer's `save_csv` adds: one file under the home directory, unless "exit" was typed. */
  function ViewerOps(action: ViewAction, headers: seq<string>, rows: Csv, home: string,
                     timestamp: string, entered: string): seq<FsOp>
  {
    if action == SaveToCsv && !ExitRequested(entered)
    then [WriteFile(Path(home, SaveCsvFileName(entered, DefaultReportPrefix, timestamp)), [headers] + rows)]
    else []
  }

  /** What `handle_report_outputs` reports: the files kept, the notice printed, the view chosen. */
  datatype OutputSummary = OutputSummary(
    cleanPath: Path,
    rawSaved: bool,
    cleanSaved: bool,
    cleanExcludedNotice: bool,
    action: ViewAction)

  /** The first half of `handle_report_outputs`: write the clean copy, then unlink the raw export. */
  method ApplyCleanMode(store: FileStore, raw: Path, headers: seq<string>, rows: Csv, mode: string)
    requires store.Valid() && raw.name != ""
    modifies store
    ensures store.Valid() && store.origin == old(store.origin)
    ensures store.journal == old(store.journal) + OutputOps(raw, headers, rows, mode)
  {
    var cleanPath := CleanPath(raw);
    var rawSaved := KeepsRaw(mode);
    var cleanSaved := WritesClean(mode);
    if cleanSaved {
      store.WriteCsv(cleanPath, headers, rows);
    }
    if !rawSaved {
      store.Unlink(raw);
    }
  }

  /** The closing `data_handling_options(rows, headers, ...)` call, with `save_csv` when a copy is asked for. */
  method ViewReport(store: FileStore, headers: seq<string>, rows: Csv, autoView: bool, answer: string,
                    home: string, timestamp: string, entered: string) returns (action: ViewAction)
    requires store.Valid()
    modifies store
    ensures store.Valid() && store.origin == old(store.origin)
    ensures action == DataHandlingOptions(rows, headers, Preselection(autoView), answer)
    ensures store.journal == old(store.journal) + ViewerOps(action, headers, rows, home, timestamp, entered)
  {
    action := DataHandlingOptions(rows, headers, Preselection(autoView), answer);
    if action == SaveToCsv {
      var _ := SaveCsv(store, home, rows, headers, DefaultReportPrefix, timestamp, entered);
    }
  }

  /**
   * `handle_report_outputs(raw_path, headers, rows, clean_mode, auto_view)`;
   * `answer` is the reply to the view prompt and `home`, `timestamp`,
   * `entered` feed `save_csv` when the viewer saves a copy.
   */
  method HandleReportOutputs(store: FileStore, raw: Path, headers: seq<string>, rows: Csv,
                             cleanMode: Option<string>, autoView: bool, answer: string,
                             home: string, timestamp: string, entered: string)
    returns (summary: OutputSummary)
    requires store.Valid() && raw.name != ""
    modifies store
    ensures store.Valid() && store.origin == old(store.origin)
    ensures summary.cleanPath == CleanPath(raw)
    ensures summary.rawSaved == KeepsRaw(Mode(cleanMode))
    ensures summary.cleanSaved == WritesClean(Mode(cleanMode))
    ensures summary.cleanExcludedNotice <==> Mode(cleanMode) == "exclude" && cleanMode.Some?
    ensures summary.action == DataHandlingOptions(rows, headers, Preselection(autoView), answer)
    ensures var ops := OutputOps(raw, headers, rows, Mode(cleanMode))
                       + ViewerOps(summary.action, headers, rows, home, timestamp, entered);
            && store.journal == old(store.journal) + ops
            && store.files == ApplyOps(old(store.files), ops)
  {
    var mode := Mode(cleanMode);
    var explicitMode := cleanMode.Some?;
    var rawSaved := KeepsRaw(mode);
    var cleanSaved := WritesClean(mode);
    ApplyCleanMode(store, raw, headers, rows, mode);
    var notice := !cleanSaved && mode == "exclude" && explicitMode;
    var action := ViewReport(store, headers, rows, autoView, answer, home, timestamp, entered);
    summary := OutputSummary(CleanPath(raw), rawSaved, cleanSaved, notice, action);

    var ops := OutputOps(raw, headers, rows, mode) + ViewerOps(action, headers, rows, home, timestamp, entered);
    assert store.journal == old(store.journal) + ops;
    ApplyOpsConcat(store.origin, old(store.journal), ops);
  }

  /**
   * The files after `handle_report_outputs`: the raw export stays exactly
   * when the mode keeps it, the clean copy holds header then rows exactly
   * when the mode writes it, and no other file is touched.
   */
  lemma OutputRetention(files: map<Path, Csv>, raw: Path, headers: seq<string>, rows: Csv, mode: string)
    requires raw.name != ""
    ensures var after := ApplyOps(files, OutputOps(raw, headers, rows, mode));
            && (raw in after <==> raw in files && KeepsRaw(mode))
            && (raw in after ==> after[raw] == files[raw])
    ensures var after := ApplyOps(files, OutputOps(raw, headers, rows, mode));
            var clean := CleanPath(raw);
            && (WritesClean(mode) ==> clean in after && after[clean] == [headers] + rows)
            && (!WritesClean(mode) ==> (clean in after <==> clean in files))
            && (!WritesClean(mode) && clean in files ==> after[clean] == files[clean])
    ensures var after := ApplyOps(files, OutputOps(raw, headers, rows, mode));
            forall p :: p != raw && p != CleanPath(raw) ==>
              (p in after <==> p in files) && (p in files ==> after[p] == files[p])
  {
    var clean := CleanPath(raw);
    CleanPathDiffers(raw);
    var w := if WritesClean(mode) then [WriteFile(clean, [headers] + rows)] else [];
    var u := if KeepsRaw(mode) then [] else [FsOp.Unlink(raw)];
    ApplyOpsConcat(files, w, u);
    var mid := ApplyOps(files, w);
    assert WritesClean(mode) ==> mid == files[clean := [headers] + rows] by {
      if WritesClean(mode) {
        assert ApplyOps(files, w) == ApplyOp(ApplyOps(files, []), w[0]) by {
          assert w[..0] == [];
        }
      }
    }
    assert !KeepsRaw(mode) ==> ApplyOps(mid, u) == mid - {raw} by {
      if !KeepsRaw(mode) {
        assert u[..0] == [];
      }
    }
  }

  /** `--clean both` keeps the raw export and adds the clean copy. */
  lemma BothKeepsTwoFiles(files: map<Path, Csv>, raw: Path, headers: seq<string>, rows: Csv)
    requires raw.name != "" && raw in files
    ensures var after := ApplyOps(files, OutputOps(raw, headers, rows, Mode(Some("both"))));
            && raw in after && after[raw] == files[raw]
            && CleanPath(raw) in after && after[CleanPath(raw)] == [headers] + rows
  {
    OutputRetention(files, raw, headers, rows, "both");
  }

  /** `--clean exclude`, or no mode at all, keeps only the raw export and writes nothing. */
  lemma ExcludeKeepsOnlyRaw(files: map<Path, Csv>, raw: Path, headers: seq<string>, rows: Csv, cleanMode: Option<string>)
    requires raw.name != "" && raw in files
    requires cleanMode == None || cleanMode == Some("") || cleanMode == Some("exclude")
    ensures ApplyOps(files, OutputOps(raw, headers, rows, Mode(cleanMode))) == files
  {
    assert OutputOps(raw, headers, rows, Mode(cleanMode)) == [];
  }

  /** `--clean only` leaves the clean copy and no raw export: the same operations as `save_clean_report_only`. */
  lemma OnlyMatchesSaveCleanReportOnly(files: map<Path, Csv>, raw: Path, headers: seq<string>, rows: Csv)
    requires raw.name != ""
    ensures OutputOps(raw, headers, rows, "only") == [WriteFile(CleanPath(raw), [headers] + rows), FsOp.Unlink(raw)]
    ensures var after := ApplyOps(files, OutputOps(raw, headers, rows, "only"));
            && raw !in after
            && CleanPath(raw) in after && after[CleanPath(raw)] == [headers] + rows
  {
    OutputRetention(files, raw, headers, rows, "only");
  }

  /** For each accepted `--clean` choice the report survives: the raw export or the clean copy remains. */
  lemma AcceptedModeKeepsReport(files: map<Path, Csv>, raw: Path, headers: seq<string>, rows: Csv, mode: string)
    requires raw.name != "" && raw in files
    requires mode == "both" || mode == "exclude" || mode == "only"
    ensures var after := ApplyOps(files, OutputOps(raw, headers, rows, mode));
            (raw in after && after[raw] == files[raw]) ||
            (CleanPath(raw) in after && after[CleanPath(raw)] == [headers] + rows)
  {
    OutputRetention(files, raw, headers, rows, mode);
  }

  /**
   * A mode outside the three choices deletes the raw export and writes no
   * clean copy; only the argument parser's `choices` keeps it from `main`.
   */
  lemma UnknownModeKeepsNothing(files: map<Path, Csv>, raw: Path, headers: seq<string>, rows: Csv, mode: string)
    requires raw.name != "" && raw in files && CleanPath(raw) !in files
    requires mode != "both" && mode != "exclude" && mode != "only" && mode != ""
    ensures var after := ApplyOps(files, OutputOps(raw, headers, rows, mode));
            raw !in after && CleanPath(raw) !in after
  {
    OutputRetention(files, raw, headers, rows, mode);
  }

  /** With `--auto` and data to show, the viewer prints the table without prompting. */
  lemma AutoViewPrints(rows: Csv, headers: seq<string>, answer: string)
    requires rows != [] && headers != []
    ensures DataHandlingOptions(rows, headers, Preselection(true), answer) == PrintTable
  {
  }
}
