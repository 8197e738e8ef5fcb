# msar report assembly, modelled in Dafny

This project models the core of `msar`, a command-line tool that pulls
campaign performance reports from Microsoft Advertising. It covers:

- **The batch merge** (`run_campaign_performance_report`). For each selected
  account, the tool downloads a CSV extract. It skips the account in four
  cases: the download raises, no file (or an empty file) appears, the file
  holds no rows, or no row is a `TimePeriod` header. Otherwise it keeps the rows
  between the header and the `Microsoft Corporation` footer and appends them
  to one merged CSV. The header is written once, before the first data rows,
  and the temporary file (`temp_<id>.csv`) is unlinked.
- **The extract parser** (`load_report_rows`). It strips the mis-decoded
  byte-order mark `Ôªø` and surrounding whitespace from every cell, finds the
  header row, and collects data rows up to the footer.
- **The output stage** (`handle_report_outputs`, `save_clean_report_only`).
  The `--clean` mode decides whether `<stem>_CLEAN.csv` is written and whether
  the raw export is unlinked. The rows are then handed to the viewer
  (`data_handling_options`), which may save a copy under the home directory
  via `save_csv`.
- **Account selection** (`select_accounts`, and the filter in `main`). This is
  either the `--account` flag or the interactive prompt loop. An answer of
  "exit" at any prompt ends the program.
- **Helpers**: `date_fix`, `sanitize_filename`, the file name `save_csv`
  chooses, `micros_to_decimal`, the two supported date formats with
  `parse_supported_date`/`validate_date_input`, and `get_last30days`.

Modules follow the source files:

- `Text` holds Python string semantics.
- `Files` holds paths, `pathlib` naming and a `FileStore` class. `FileStore`
  keeps the files and a journal of the writes and unlinks made to them.
- `Dates` and `Common` model `msar/common.py`.
- `Reports` models `msar/reports.py`.
- `Cli` models `msar/main.py`.

Operations that update files are methods on a `FileStore`. The loops among
them are proved against specification functions, and the properties are
lemmas about those functions. The merge loop, for example, is proved equal to
a left fold (`MergeAll`), and `MergeClosedForm` describes that fold directly.

Each source function is defined once, by the function named below. The
rows of the table that follows state what is proved about it.

- `Text`: `Strip` is `str.strip` (`msar/reports.py:211`, `msar/common.py:62`),
  `RemoveAll` is `str.replace(p, "")` (`msar/reports.py:26`, `211`),
  `ParseInt` is `int()` on a string (`msar/main.py:29`, `45`), and
  `JoinSpace` is `" ".join` (`msar/reports.py:224`).
- `Files`: `Stem` is `PurePath.stem` and `CleanPath` is the `with_name` call
  (`msar/reports.py:232`). `ApplyOps` replays a journal of writes and unlinks.
- `Dates`: `ParseWith` is one `strptime` attempt, `ParseFirst` is the loop of
  `parse_supported_date` (`msar/common.py:112-119`), and `MinusDays` is
  `date - timedelta(days=n)` (`msar/common.py:138`).
- `Common`: `SanitizeFilename` is `sanitize_filename` (`msar/common.py:55-56`),
  `EnteredBaseName` is the cleaned prompt answer of `save_csv`
  (`msar/common.py:62-63`), and `ExitRequested` is the test of `_custom_input`
  (`msar/common.py:20-25`).
- `Reports`: `DateFix` is `date_fix`.
  - `CleanCell`, `FindHeader`, `UntilFooter` and `LoadReport` are the steps
    and result of `load_report_rows` (`msar/reports.py:207-228`).
  - `ProcessAccount` is one account's branch of the merge loop
    (`msar/reports.py:151-186`), and `Step` applies it to the loop's state.
  - `MergeAll` folds `Step` over the accounts (`msar/reports.py:124-198`).
- `Cli`: `CliSelection` and `AnswerSelection` are the two branches of
  `select_accounts` (`msar/main.py:23-37`, `41-49`).
  - `SelectedAccountObjs` is the filter at `msar/main.py:147`.
  - `Mode`, `KeepsRaw`, `WritesClean` and `OutputOps` are the mode handling
    of `handle_report_outputs` (`msar/main.py:67-83`).

External effects are parameters:

- `date.today()` is a `today: Date`.
- `datetime.now()` is a `timestamp` string.
- `Path.home()` is a `home` directory.
- Each `input()` reply is a string; the prompt loop takes a sequence of replies.
- Each `svc_mgr.download_file` call is a `FetchOutcome`: it raised, left no
  file, or left a file whose rows `csv.reader` read (`Downloaded(rows)`).

Files are CSV rows (`seq<seq<string>>`). The model never turns them into
bytes.

Points of the code's behaviour worth knowing:

- Blank rows, and rows with a different number of fields from the header,
  are kept as data rows. Only the byte-order-mark artefact and surrounding
  whitespace are removed from cells; no other mis-decoded character is repaired.
- The header is the first row whose cleaned first cell *starts with*
  `TimePeriod` (`str.startswith`), wherever it stands among the rows.
- Parsing the parser's own output is not idempotent in general, because
  `str.replace` can create a new artefact (`NestedArtefactSurvivesCleaning`).
  `LoadReportNotIdempotent` shows this for a whole report.
  It is idempotent when cleaning leaves no artefact behind
  (`LoadReportIdempotent`).
- `--clean` defaults to `only` at `msar/main.py:105`. The docstring of
  `handle_report_outputs` calls `exclude` the default.

## Model

| member | source | states |
|---|---|---|
| Text.LStripMeaning | msar/reports.py:211 | `lstrip` keeps a suffix, drops only whitespace, and stops at the first non-space character |
| Text.RStripMeaning | msar/reports.py:211 | `rstrip` keeps a prefix, drops only whitespace, and stops at the last non-space character |
| Text.StripTrims | msar/reports.py:211 | a stripped string has no whitespace at either end and is no longer than the input |
| Text.StripOfTrimmed | msar/reports.py:211 | stripping a string with no surrounding whitespace changes nothing |
| Text.StripIdempotent | msar/common.py:62 | stripping twice equals stripping once |
| Text.EndsWithAppended | msar/common.py:64 | a name with `.csv` appended ends with `.csv` |
| Text.RemoveAllAbsent | msar/reports.py:211 | `replace(p, "")` leaves a string without `p` unchanged |
| Text.RemoveAllConcat | msar/reports.py:26 | removing a one-character pattern distributes over concatenation |
| Text.NotContainsLonger | msar/reports.py:224 | a pattern longer than the string does not occur in it |
| Text.NotContainsHead | msar/reports.py:211 | a pattern whose first character is absent does not occur |
| Text.JoinSpaceCellAt | msar/reports.py:224 | every cell occurs whole inside `" ".join(row)` |
| Text.SliceJoin | msar/reports.py:27 | the slices `[i:j]` and `[j:k]` join into `[i:k]`, with Python's clamping |
| Text.NatToStringValue | msar/reports.py:132 | the digits `str(n)` prints read back as `n` |
| Text.NatToString | msar/reports.py:132 | `str(n)` of a natural is a non-empty run of digits with no leading zero |
| Text.DigitsAreGroups | msar/main.py:29 | a plain run of digits is a valid `int()` literal whose digits are itself |
| Text.ParseIntOfString | msar/main.py:29 | `int(str(n)) == n` for every integer |
| Text.IntToStringInjective | msar/reports.py:132 | distinct integers print differently |
| Files.RFind | msar/reports.py:232 | the result is -1 or an index holding the character, with no occurrence after it |
| Files.CleanPath | msar/reports.py:232 | `with_name(stem + "_CLEAN.csv")` stays in the same directory and ends with `_CLEAN.csv` |
| Files.CleanPathDiffers | msar/main.py:69 | the clean file never has the raw file's path |
| Files.CleanPathOfCsv | msar/reports.py:232 | `<base>.csv` becomes `<base>_CLEAN.csv` in the same directory |
| Files.ApplyOpsConcat | msar/main.py:73-83 | applying two batches of file operations equals applying their concatenation |
| Files.FileStore.WriteCsv | msar/reports.py:234-237 | the file holds the header then the rows, the journal records the write, and no other file changes |
| Files.FileStore.Unlink | msar/reports.py:239 | the path is removed, and a missing file is not an error |
| Dates.Digits | msar/common.py:124 | zero-padded printing has exactly `width` digits |
| Dates.DigitsOfValue | msar/common.py:112-116 | a fixed-width digit field read and printed back is itself |
| Dates.ValueOfDigits | msar/common.py:112-116 | a value that fits, printed and read back, is itself |
| Dates.DashedFields | msar/common.py:112 | a `YYYY-MM-DD` string of digits is the zero-padded printing of its three fields |
| Dates.CompactFields | msar/common.py:112 | a `YYYYMMDD` string of digits is the zero-padded printing of its three fields |
| Dates.ParseWith | msar/common.py:116 | `strptime` accepts only strings that are the formatting of a valid date |
| Dates.ParseFormatRoundTrip | msar/common.py:112-116 | every valid date formatted in a supported format parses back to that date |
| Dates.ParseSupportedDate | msar/common.py:113-119 | the dashed format is tried first, then the compact one; the result is the first that parses, else the `Unsupported date format` error |
| Dates.ParseSupportedOfFormat | msar/common.py:113-119 | a date printed in either format is accepted as that date |
| Dates.ParseSupportedFormats | msar/common.py:113-119 | every accepted string is one of the two printings of its date |
| Dates.ValidateDateInput | msar/common.py:121-134 | empty input yields today's dashed date or `None`; other input is returned unchanged exactly when it parses; every returned string parses |
| Dates.DaysBeforeDecember | msar/common.py:138 | eleven months plus December's 31 days make up the year |
| Dates.LastOfPreviousMonth | msar/common.py:138 | the last day of the previous month is valid and one day number before the first of a month |
| Dates.LastOfPreviousYear | msar/common.py:138 | 31 December of the previous year is valid and one day number before 1 January |
| Dates.DayOfYearBound | msar/common.py:138 | the days of a year up to a valid date fit in that year |
| Dates.DayNumberOrder | msar/common.py:138 | a date earlier in the calendar has a smaller day number |
| Dates.DayNumberInjective | msar/common.py:138 | two valid dates with the same day number are the same date |
| Dates.PrevDay | msar/common.py:138 | the day before is a valid date, missing only for 0001-01-01 |
| Dates.PrevDayCount | msar/common.py:138 | the day before is one day number earlier |
| Dates.MinusDays | msar/common.py:138 | `d - timedelta(days=n)` is a valid date when it does not overflow |
| Dates.MinusDaysStep | msar/common.py:138 | going back `n` days is going back one day, then `n - 1` |
| Dates.MinusDaysCount | msar/common.py:138 | subtracting `n` days overflows exactly when fewer than `n` days precede `d`, and otherwise moves the day number back by `n` |
| Dates.MinusDaysCompose | msar/common.py:138 | going back `a + b` days is going back `a` days, then `b` |
| Dates.GetLast30Days | msar/common.py:136-138 | the range runs from `today - timedelta(30)` to `today - timedelta(1)`, whose day numbers are 30 and 1 below today's, and is tagged `"Date range"`/`"date"`; it fails exactly when today is before 0001-01-31 |
| Dates.Last30DaysUnique | msar/common.py:136-138 | the range is the one made of the only valid dates 30 and 1 days before today |
| Dates.Last30DaysSpan | msar/common.py:136-138 | the start lies exactly 29 days before the end |
| Common.RoundHalfUpMillion | msar/common.py:49 | the result is the nearest integer to `a / 10^6`, a tie going away from zero |
| Common.RoundHalfUpUnique | msar/common.py:49 | only one integer meets that rounding condition |
| Common.MicrosToDecimal | msar/common.py:40-49 | unquantized, the value is exactly `micros / 10^6`, with `None` and `""` as 0; quantized, it is the nearest multiple of the quantum, ties away from zero |
| Common.SanitizeFilenameSafe | msar/common.py:55-56 | the result has none of `<>:"/\|?*`, is no longer than the input, and a name that is already safe is left unchanged |
| Common.SanitizeConcat | msar/common.py:55-56 | sanitizing works character by character and keeps the order of the remaining characters |
| Common.SanitizeIdempotent | msar/common.py:55-56 | sanitizing twice equals sanitizing once |
| Common.AppendCsvKeepsSafe | msar/common.py:64 | appending `.csv` to a safe name keeps it safe |
| Common.SaveCsvFileName | msar/common.py:59-64 | the name ends with `.csv`; a blank cleaned answer gives `<prefix>_<timestamp>.csv`; otherwise the name is the sanitized answer, left as it is exactly when it already ends with `.csv` and given `.csv` otherwise, and has no forbidden character |
| Common.SaveCsv | msar/common.py:58-71 | typing "exit" writes nothing; otherwise the header and rows are written under the home directory at that name |
| Common.DataHandlingOptions | msar/common.py:83-106 | no rows or no headers means "No data"; "exit" is caught only when the prompt is asked; otherwise `1`/`csv` saves, `2`/`table` pages, `auto` prints, and anything else is invalid |
| Reports.DateFix | msar/reports.py:22-27 | with the dashes removed, the fields take the first 4, the next 2 and the next 2 characters, each as many as remain: together they form the first eight characters, and each has the length Python's clamped slice gives |
| Reports.RemoveDashesAbsent | msar/reports.py:26 | a string without dashes is unchanged |
| Reports.DateFixBothForms | msar/reports.py:22-27 | `YYYY-MM-DD` and `YYYYMMDD` split into the same triple |
| Reports.DateFixOfValidated | msar/reports.py:120-121 | every fixed-width date string that validation accepts splits into its date's zero-padded year, month and day |
| Reports.DateFixShortMonth | msar/reports.py:22-27 | with a one-digit month, the day's first digit moves into the month field and the day keeps only its second digit |
| Reports.DateFixShortMonthExample | msar/reports.py:22-27 | `2024-1-15` splits into `2024`, `11`, `5`: 5 November instead of 15 January |
| Reports.CleanCellTrimmed | msar/reports.py:211 | a cleaned cell has no whitespace at either end |
| Reports.FindHeader | msar/reports.py:213-216 | a found index is within the rows |
| Reports.FindHeaderMeaning | msar/reports.py:213-216 | the search returns a header row with no header row before it, and returns nothing exactly when there is no header row |
| Reports.FindHeaderIs | msar/reports.py:172-175 | the first header row's index is what the search returns |
| Reports.FooterInAnyCell | msar/reports.py:224 | a row with `Microsoft Corporation` inside any one cell is a footer row |
| Reports.UntilFooter | msar/reports.py:223-226 | the collected rows are a prefix of the input |
| Reports.UntilFooterMeaning | msar/reports.py:223-226 | the collected rows hold no footer, and only a footer row stops the collection early |
| Reports.UntilFooterUnique | msar/reports.py:223-226 | those properties determine the collected rows |
| Reports.FindHeaderIndex | msar/reports.py:172-175 | the search loop returns what `FindHeader` specifies |
| Reports.CollectDataRows | msar/reports.py:181-186 | the collection loop returns the longest footer-free prefix after the header |
| Reports.LoadReportRows | msar/reports.py:207-228 | the parser returns `LoadReport` of its input: an empty header comes with no data, and the header cells are trimmed |
| Reports.LoadReportAt | msar/reports.py:217-228 | the header position fixes the header and the data rows |
| Reports.LoadReportFirstHeader | msar/reports.py:213-220 | the header is the first row whose cleaned first cell starts with `TimePeriod`; everything before it is dropped |
| Reports.LoadReportNoHeader | msar/reports.py:217-218 | the result is `([], [])` exactly when no cleaned row is a header, and an empty header comes with no data |
| Reports.LoadReportHasHeader | msar/reports.py:213-218 | a non-empty header means the search found a header row |
| Reports.CleanedTail | msar/reports.py:223-226 | the rows collected after position `i` are the input rows after `i`, cleaned and in order |
| Reports.LoadReportDataAreCleanedRows | msar/reports.py:207-228 | the header and each data row are the cleaned input rows, in order, right after the header position |
| Reports.CleanRowTrimmed | msar/reports.py:211 | every cell of a cleaned row is trimmed |
| Reports.CleanedCellsTrimmed | msar/reports.py:211-226 | the header candidate and the data rows after it have trimmed cells |
| Reports.LoadReportCellsTrimmed | msar/reports.py:207-228 | every cell the parser returns is trimmed |
| Reports.CleanCellFixed | msar/reports.py:211 | a trimmed cell without the artefact is its own cleaning |
| Reports.CleanRowsOfClean | msar/reports.py:210-211 | cleaning clean rows changes nothing |
| Reports.CleanedRowIsClean | msar/reports.py:211 | a cleaned row whose cells came out artefact-free is clean |
| Reports.ArtefactFreeSettles | msar/reports.py:211 | when cleaning leaves no artefact, cleaning each row a second time changes nothing |
| Reports.LoadReportRowsAreClean | msar/reports.py:207-228 | then the header and data rows returned are clean rows |
| Reports.CleanRowsOfCleanPrepend | msar/reports.py:210-211 | a clean header followed by clean rows is unchanged by cleaning |
| Reports.LoadReportOfClean | msar/reports.py:207-228 | a header followed by clean, footer-free rows parses back to itself |
| Reports.LoadReportShape | msar/reports.py:213-226 | the header found is a header row, and no data row is a footer row |
| Reports.LoadReportIdempotent | msar/reports.py:207-228 | re-parsing the parser's output, written back, returns that output when cleaning left no artefact |
| Reports.NestedArtefactRemoval | msar/reports.py:211 | one `replace` pass turns `Ô` + artefact + `ªø` into a new artefact |
| Reports.NestedArtefactSurvivesCleaning | msar/reports.py:211 | so cleaning is not idempotent in general: a cell can clean to the artefact, which then cleans to the empty string |
| Reports.LoadReportOneCell | msar/reports.py:207-228 | a header followed by one single-cell row, too short to hold the footer, parses to the header and that cell cleaned |
| Reports.LoadReportNotIdempotent | msar/reports.py:207-228 | a header and a cell holding the nested artefact parse to a cell holding the artefact; parsing that output again gives an empty cell, so the second parse differs from the first |
| Reports.TempNameInjective | msar/reports.py:132 | two accounts' `temp_<id>.csv` names differ when their ids differ |
| Reports.HeadersAppend | msar/reports.py:188-190 | the recognised headers of a concatenation are the concatenated headers |
| Reports.DataRowsAppend | msar/reports.py:192-193 | the data rows of a concatenation are the concatenated data rows |
| Reports.HeadersEmpty | msar/reports.py:188-193 | with no header there was no recognised account, and so no data |
| Reports.HeadersDataRowsSnoc | msar/reports.py:188-193 | one more result adds its own header and data rows, and only when it was recognised |
| Reports.MergedOutputAppend | msar/reports.py:188-193 | a recognised account adds its header if none was written yet, then its data; any other result adds nothing |
| Reports.TempFilesRemovedShrink | msar/reports.py:198 | every temp file removed after one more account was removed before it, or belongs to that account |
| Reports.TempFilesRemovedGrow | msar/reports.py:198 | the temp files removed earlier stay removed |
| Reports.TempFilesRemovedAppend | msar/reports.py:198 | one more account adds its temp file to the removed set exactly when it was recognised |
| Reports.MergeClosedForm | msar/reports.py:124-198 | after the loop: the log holds each account's result; the header was written exactly when an account was recognised; the output is the first header followed by all data rows; the unlinked temp files are those of the recognised accounts |
| Reports.MergeAccount | msar/reports.py:151-198 | one loop iteration does what `Step` specifies for that account's download result, each `continue` leaving the state unchanged apart from the log |
| Reports.RunCampaignPerformanceReport | msar/reports.py:91-200 | the merged file at `out_dir/file_name` holds the closed-form output, with the per-account log and the unlinked temp files |
| Reports.SkippedAccountContributesNothing | msar/reports.py:151-178 | a skipped account leaves the merged output as if it were absent, wherever it stands |
| Reports.FirstRecognisedHeader | msar/reports.py:188-190 | the merged header is the header of the first recognised account, written once |
| Reports.MergedOutputThenFailure | msar/reports.py:151-159 | a failed account after a recognised one adds nothing |
| Reports.MergedOutputWithFailure | msar/reports.py:151-193 | results A (recognised), B (failed), C (recognised) merge into A's header, A's data, then C's data |
| Reports.PartialFailureContained | msar/reports.py:129-198 | accounts with 3, failed and 2 data rows merge into one header plus 5 rows, with the failure logged in second place |
| Reports.SaveCleanReportOnly | msar/reports.py:231-242 | writes `<stem>_CLEAN.csv` with the header then the rows, then unlinks the raw file; the clean file holds the report and the raw file is gone |
| Cli.MatchingIds | msar/main.py:30 | every element is the id, the result is no longer than the listing, and it is empty exactly when no account has the id |
| Cli.MatchingIdsCount | msar/main.py:30 | the result holds one copy of the id for each listed account with that id |
| Cli.CliSelection | msar/main.py:23-37 | an absent or empty flag defers to the prompt; `all`, an unparsable value or an unknown id selects every account; a known id selects exactly the matching ids, one per matching account (`MatchingIds`) |
| Cli.AnswerSelectionMeaning | msar/main.py:41-49 | `all`/`a` selects every account; a number in range selects the account at that 1-based position; anything else is refused |
| Cli.FirstAccepted | msar/main.py:40-50 | the answers before the one returned are all refused, and the one returned is accepted |
| Cli.SelectInteractive | msar/main.py:40-50 | the loop re-prompts after each refused answer and ends at the first answer that is "exit" or a valid selection, returning that selection |
| Cli.SelectAccounts | msar/main.py:21-50 | the flag decides without reading an answer when it is given; otherwise the prompt loop decides |
| Cli.SelectedMembership | msar/main.py:147 | an account is kept exactly when it is listed and its id is selected |
| Cli.SelectedAccountObjs | msar/main.py:147 | the filter returns no more accounts than are listed |
| Cli.SelectedConcat | msar/main.py:147 | the filter keeps listing order |
| Cli.SelectedAllKept | msar/main.py:147 | when every listed id is selected, the listing is returned unchanged |
| Cli.SelectAllRunsEveryAccount | msar/main.py:147 | "all" runs the report for every listed account, in order |
| Cli.PositionSelectsThatAccount | msar/main.py:41-50 | choosing a position runs that account and exactly the accounts sharing its id |
| Cli.ApplyCleanMode | msar/main.py:69-83 | the clean copy is written first, then the raw file is unlinked, each as the mode dictates |
| Cli.ViewReport | msar/main.py:90-95 | the viewer's choice is `data_handling_options` with `auto` preselected under `--auto`, and `save_csv` is its only file change |
| Cli.HandleReportOutputs | msar/main.py:53-95 | the raw-kept and clean-written flags follow the mode; the "excluded" notice appears only for an explicit `exclude`; the files end as the clean-mode operations then the viewer's operations leave them |
| Cli.OutputRetention | msar/main.py:67-83 | the raw export remains exactly when the mode keeps it; the clean copy holds the header then the rows exactly when the mode writes it; no other file changes |
| Cli.BothKeepsTwoFiles | msar/main.py:70-79 | `both` keeps the raw export and adds the clean copy |
| Cli.ExcludeKeepsOnlyRaw | msar/main.py:67-83 | `exclude`, or no mode, leaves the files unchanged |
| Cli.OnlyMatchesSaveCleanReportOnly | msar/main.py:73-83 | `only` performs exactly the writes and unlinks of `save_clean_report_only` |
| Cli.AcceptedModeKeepsReport | msar/main.py:104 | each accepted `--clean` choice keeps the report in the raw export or the clean copy |
| Cli.UnknownModeKeepsNothing | msar/main.py:67-83 | a mode outside the choices unlinks the raw export and writes no clean copy |
| Cli.AutoViewPrints | msar/main.py:90-95 | with `--auto` and data, the table is printed without a prompt |

## Left out

- CSV tokenising and quoting by `csv.reader`/`csv.writer` are not modelled. Files hold rows of fields, and writing then reading a file gives back the rows.
- Authentication, account listing, the report request (`_build_report_request`) and `ServiceClient` setup are not modelled. The `auth.py` and `accounts.py` files are not part of this model.
- `download_file` is reduced to its outcome for one account: an exception, no file, or the rows of the file it left. Polling and retries inside the SDK are not modelled.
- Reports.RunCampaignPerformanceReport: reading the temporary file (`msar/reports.py:165-166`) can raise `UnicodeDecodeError` or `csv.Error`. The loop does not catch these, so the whole run aborts with the merged file partly written. `FetchOutcome` has no such case, and the merge lemmas, `SkippedAccountContributesNothing` and `PartialFailureContained` among them, cover only the four caught cases.
- Console output is not modelled: the log lines, `print_accounts_table`, `tabulate`, and the pager of `display_table`. Only which branch was taken is recorded.
- `date.today()`, `datetime.now()` and `Path.home()` are parameters, not a clock or an environment.
- Common.MicrosToDecimal: `micros` is an integer or absent; `""` is the absent case. A non-empty string such as `"1.5"` (which the source converts to `Decimal("1.5") / 10^6`), and an invalid one such as `"abc"` (which raises `InvalidOperation`), are not modelled. The quantum is a number of decimal places, so a zero quantum, which the source treats as falsy and does not apply, and a quantum with a positive exponent are not modelled. The `rounding` argument is fixed to `ROUND_HALF_UP`. `Decimal`'s context precision and string form are not modelled.
- Reports.DateFixOfValidated: covers only the fixed-width `YYYY-MM-DD` and `YYYYMMDD` forms, the only ones the model's `strptime` accepts. The source's validation also accepts one-digit months and days (`2024-1-15`), which `date_fix` mis-splits (`DateFixShortMonth`; `DateFixShortMonthExample` reads `2024-1-15` as 5 November). It may also leave a field empty (`2024-1-5` gives `2024`, `15`, `""`), and `int("")` then raises outside any `try`.
- Text.ParseInt: only ASCII digits are parsed. Python's `int()` accepts every Unicode decimal digit, so `--account "١٢٣"` selects account 123 in the source but every account in the model, and the answer `"٢"` picks the second account in the source but is refused by the model.
- Dates.ParseWith: accepts only fixed-width fields (4-digit year, 2-digit month and day), ASCII digits, and years 1 to 9999. `strptime` also accepts one-digit months and days and other digit forms, so the model accepts fewer strings than the source.
- Dates.Digits: `strftime("%Y")` of a year below 1000 is modelled as zero-padded to four digits; platforms differ on this.
- Text.Lower: only ASCII letters are lower-cased. `str.lower()` also maps other letters, which cannot equal the ASCII keywords compared against.
- `get_timerange` and the report-choice prompt in `main` are not modelled. Neither is the "exit" check at prompts other than account selection, the view prompt and the file-name prompt.
- `main`'s orchestration is not modelled beyond the account filter. That includes the `seg_key` keyword it passes to `run_campaign_performance_report`, a function that does not declare it.
- Files.FileStore.WriteCsv: writes and unlinks never fail. In the source, opening or writing `<stem>_CLEAN.csv` can raise, for example in a read-only directory or when that name is a directory (`msar/reports.py:234-237`, `msar/main.py:74-77`). The exception then propagates before the raw file is unlinked, may leave a partial clean file, and ends the program before the viewer. Reports.SaveCleanReportOnly, Cli.ApplyCleanMode and Cli.HandleReportOutputs rely on the write succeeding, so they do not model that path: the raw file surviving a failed write.
- Common.SaveCsv: the `except Exception` path for a failed write is not modelled; writes always succeed.
- Reports.RunCampaignPerformanceReport: the merged file is returned as rows; opening it, and creating it even when no account was recognised, are not modelled as file-store operations.
