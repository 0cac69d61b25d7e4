# Local development-environment checker: results and report

This project models the part of `DevEnvChecker` (`dev_env_check.py`) that is
logic rather than probing. That part covers:

- the results list that every check appends a `{category, item, status, details}` record to;
- the rules by which `check_file_exists`, `check_command_exists`,
  `check_command_version` and `check_gcp_credentials` turn what they observed
  into records;
- the first-line version extraction `stdout.strip().split('\n')[0]`;
- the report `print_results` produces: the status labels of `print_status`,
  records grouped by category in order of first appearance, and the summary tallies.

Every file-system probe and every subprocess run is an input value:

- `FileProbe` is the expanded path, whether it exists, and its size.
- `WhichOutcome` is the exit code and output of `which`, or the exception it raised.
- `VersionOutcome` is the exit code and both output streams, a timeout, or an exception.
- `AuthOutcome` is the exit code and the already-decoded account list of
  `gcloud auth list`, a timeout, or an exception.

The report is a `Report` value: sections of rows, plus the summary. It stands
for the text `print_results` prints.

Modules:

- `PyStrings` (`pystrings.dfy`): Python's `str.isspace`/`str.strip()`,
  `str.split(sep)` with its inverse `sep.join`, and `str(n)` with its inverse.
- `CheckResults` (`check_results.dfy`): the record, the status constants, the
  probe outcomes, and one function per check giving the records it adds.
- `ResultsReport` (`results_report.dfy`): labels, the details suffix, the
  grouping specification and the grouping loop, and the tallies.
- `DevEnvCheck` (`dev_env_check.dfy`): class `DevEnvChecker`. Its `results`
  field is a `seq<Record>`. Its check methods append records, each proved to add
  exactly what the matching function of `CheckResults` gives.

Statuses are plain strings, as in the code. The checks only ever produce
`OK`, `MISSING`, `ERROR` and `WARNING`. `print_status` and the tallies accept
any string, and no check produces `INFO`.

## Model

| member | source | states |
|---|---|---|
| `DevEnvCheck.DevEnvChecker.constructor` | dev_env_check.py:24-25 | a new checker starts with no results |
| `DevEnvCheck.DevEnvChecker.AddResult` | dev_env_check.py:27-34 | the list grows by exactly one record, placed last, carrying the given category, item, status and details (details default to empty); all earlier records are unchanged |
| `DevEnvCheck.DevEnvChecker.CheckFileExists` | dev_env_check.py:49-57 | appends exactly the record `FileRecord` gives for the probe, and nothing else |
| `CheckResults.FileRecord` | dev_env_check.py:49-57 | the record has the given category and description; its status is OK iff the path exists, MISSING iff it does not; a missing file's details name the expanded path; an existing file's details read back to exactly the file's size |
| `CheckResults.SizeDetails` | dev_env_check.py:55 | the details "Size: N bytes" read back to exactly the size N they were made from, and N is written without a leading zero |
| `PyStrings.NatToDecimal` | dev_env_check.py:55 | `str(size)` is a non-empty string of decimal digits with no leading zero, one digit exactly for sizes below 10 |
| `PyStrings.DecimalRoundTrip` | dev_env_check.py:55 | reading the decimal text of n back gives n |
| `DevEnvCheck.DevEnvChecker.CheckCommandExists` | dev_env_check.py:59-72 | appends exactly one record (`CommandRecord`); returns True iff `which` exited with 0, which is exactly when the added status is OK |
| `CheckResults.CommandRecord` | dev_env_check.py:59-72 | status OK iff `which` exited with 0, MISSING iff it exited non-zero, ERROR iff it raised; found commands report the stripped path, commands `which` did not find "Command not found", raised ones the exception text |
| `DevEnvCheck.DevEnvChecker.CheckCommandVersion` | dev_env_check.py:74-89 | appends exactly the records `CommandVersionRecords` gives |
| `CheckResults.CommandVersionRecords` | dev_env_check.py:74-89 | the first record is the "(installed)" record of `check_command_exists`; a "(version)" record is added iff the command was found, so a missing command gets no "(version)" record; all records carry the given category |
| `CheckResults.VersionRecord` | dev_env_check.py:79-89 | the "(version)" record is OK iff the query exited with 0 and ERROR on a non-zero exit, a timeout or an exception; an OK record's details are the first line of the stripped output and hold no newline; error details are the stripped stderr, "Command timeout" or the exception text |
| `CheckResults.VersionLine` | dev_env_check.py:82 | the extracted version (also used at line 198) holds no newline, is a prefix of the stripped output ending just before its first newline, and equals the whole stripped output iff that has no newline |
| `PyStrings.Strip` | dev_env_check.py:82 | `strip()` leaves no whitespace at either end, keeps the run of characters after the leading whitespace, removes only whitespace, and gives empty text iff the input was all whitespace |
| `PyStrings.StripIdempotent` | dev_env_check.py:82 | stripping stripped text changes nothing |
| `PyStrings.Split` | dev_env_check.py:82 | `split('\n')` gives at least one piece, no piece holds the separator, joining the pieces with the separator gives back the input, and the first piece is the text before the first separator (the whole input iff it has none) |
| `CheckResults.ActiveAccounts` | dev_env_check.py:130 | the filtered list holds only ACTIVE accounts of the input, and every ACTIVE account of the input |
| `CheckResults.ActiveAccountsEmpty` | dev_env_check.py:130-131 | the filtered list is empty iff no account is ACTIVE |
| `CheckResults.FirstActiveInListOrder` | dev_env_check.py:130-132 | the account reported is the first ACTIVE account in list order |
| `CheckResults.GcpAuthRecord` | dev_env_check.py:124-141 | the "Authentication" record is OK iff the listing succeeded and its first ACTIVE account has a name (then reporting that name), WARNING iff the listing succeeded with no ACTIVE account, ERROR otherwise; the details are "No active accounts" for the warning, the stripped stderr for a non-zero exit, "Request timeout" for a timeout, the exception text for an exception, and the `KeyError` text `'account'` when the first ACTIVE account has no "account" key |
| `CheckResults.GcpAuthenticationRule` | dev_env_check.py:130-135 | for a successful listing whose ACTIVE entries all carry a name: OK iff at least one account is ACTIVE, the name reported is that of the first ACTIVE account, WARNING iff none is ACTIVE |
| `CheckResults.GcpRecords` | dev_env_check.py:117-141 | the GCP check adds the credentials-file record, then the gcloud CLI record, then the authentication record iff gcloud was found; all in category GCP |
| `DevEnvCheck.DevEnvChecker.CheckGcpAuthentication` | dev_env_check.py:125-141 | appends exactly the authentication record `GcpAuthRecord` gives |
| `DevEnvCheck.DevEnvChecker.CheckGcpCredentials` | dev_env_check.py:117-141 | appends exactly the records `GcpRecords` gives |
| `ResultsReport.StatusLabel` | dev_env_check.py:36-47 | every status string has a label, which shows that status; green iff OK, red iff MISSING or ERROR, yellow iff WARNING, blue (the information label) for every other string |
| `ResultsReport.DetailsSuffix` | dev_env_check.py:223 | the suffix is empty iff the details are empty; otherwise it is the details in parentheses after a space |
| `ResultsReport.RowOf` | dev_env_check.py:222-224 | a record's line shows its item, the label `StatusLabel` gives for its status (which shows that status), and its details in parentheses after a space, or nothing when the details are empty |
| `ResultsReport.Categories` | dev_env_check.py:209-214 | the dict's keys: no category twice, and every record's category present |
| `ResultsReport.CategoriesOccur` | dev_env_check.py:209-214 | only categories that some record has are keys |
| `ResultsReport.InCategory` | dev_env_check.py:209-214 | a category's group holds only records of that category, and no more of them than there are records |
| `ResultsReport.InCategoryComplete` | dev_env_check.py:209-214 | a category's group holds every record of that category, and only records from the results |
| `ResultsReport.AbsentCategoryHasNoGroup` | dev_env_check.py:212-213 | a category no record has has an empty group |
| `ResultsReport.InCategoryAppend` | dev_env_check.py:210-214 | groups keep insertion order: the group of a concatenation is the first part's group followed by the second's |
| `ResultsReport.ListedCategoriesOccur` | dev_env_check.py:209-214 | every key's first occurrence lies within the results |
| `ResultsReport.FirstAppearanceOrderStep` | dev_env_check.py:210-214 | appending a record keeps the keys in order of first occurrence |
| `ResultsReport.CategoriesInFirstAppearanceOrder` | dev_env_check.py:209-217 | categories are listed in strictly increasing order of their first occurrence |
| `ResultsReport.CategoriesExtend` | dev_env_check.py:210-212 | appending a record adds its category as the last key iff it is new, and leaves the keys unchanged otherwise |
| `ResultsReport.InCategoryStep` | dev_env_check.py:210-214 | one more record extends its own category's group by itself and leaves every other group as it was |
| `ResultsReport.GroupOrderStep` | dev_env_check.py:210-212 | one turn of the grouping loop leaves the key list equal to the categories of the records processed so far, the record's category added last iff it is new |
| `ResultsReport.GroupKeysStep` | dev_env_check.py:211-212 | after one turn of the grouping loop the dict's keys are the listed categories, the record's own included |
| `ResultsReport.GroupValuesStep` | dev_env_check.py:211-214 | one turn of the grouping loop extends only the record's own category's group, by that record, opening it empty if new |
| `ResultsReport.GroupedAfterOneMore` | dev_env_check.py:210-214 | one turn of the grouping loop keeps keys and groups equal to those of the records processed so far |
| `ResultsReport.GroupByCategory` | dev_env_check.py:208-214 | the loop's dict has as keys exactly the categories in first-appearance order, and as each key's value that category's group |
| `ResultsReport.GroupSizesSumToTotal` | dev_env_check.py:209-214 | every record lands in exactly one group: the group sizes add up to the number of records |
| `ResultsReport.SectionsFor` | dev_env_check.py:216-224 | one section per listed category, in that order, headed by the category and holding the rows of that category's records in insertion order |
| `ResultsReport.Sections` | dev_env_check.py:216-224 | one section per dict key, in first-appearance order, holding the rows of that category's records in insertion order, one per record |
| `ResultsReport.TotalRowsOfSections` | dev_env_check.py:216-224 | the sections printed for a list of categories hold as many rows as the groups of those categories hold records |
| `ResultsReport.EveryRecordPrintedOnce` | dev_env_check.py:216-224 | the printed sections hold exactly one row per record |
| `ResultsReport.CountStatus` | dev_env_check.py:228-230 | a tally is at most the number of records, and equals it iff every record's status is in the counted set |
| `ResultsReport.CountDisjointUnion` | dev_env_check.py:228-230 | tallies over disjoint sets of statuses add up |
| `ResultsReport.SummaryOf` | dev_env_check.py:227-230 | the total is the number of records, and passed + failed + warnings never exceeds it |
| `ResultsReport.SummaryCountsDisjoint` | dev_env_check.py:227-230 | passed + failed + warnings is at most the total, with equality iff every record's status is OK, MISSING, ERROR or WARNING |
| `ResultsReport.SummaryMatchesLabels` | dev_env_check.py:227-236 | passed counts the green rows, failed the red ones, warnings the yellow ones |
| `DevEnvCheck.DevEnvChecker.PrintResults` | dev_env_check.py:203-236 | the report has one section per category in first-appearance order, each with its records' rows in insertion order, and the summary tallies; it holds one row per record, and the tallies do not exceed the total |

## Left out

- Running `which`, tool `--version` queries and `gcloud auth list`, along with
  their timeouts: each run is an input value (`WhichOutcome`, `VersionOutcome`,
  `AuthOutcome`). The version flag of `check_command_version` only changes how
  the query runs, so it is not a parameter.
- `os.path.expanduser`, `os.path.exists` and `os.path.getsize` are external
  probes: their answers form the `FileProbe` input. `check_file_exists` does not
  catch an exception from `os.path.getsize`; such an exception, if the file
  vanishes after the existence test, would end the run. The model takes the size as given.
- `json.loads` of the gcloud output: the model starts from the decoded list. A
  decoding failure is an `AuthRaised` outcome, as the code's `except Exception`
  catches it. Entries that are not JSON objects are not modelled.
- Non-string "status" and "account" values: in an `Account` each is either a
  string or absent. Other JSON values are not modelled. A null or numeric "account" of the
  first ACTIVE entry makes the code report OK with "Active: None" or "Active: 123",
  while the model can only show an absent key, which gives the `KeyError` ERROR.
- `check_aws_credentials`, `check_digitalocean_credentials`, the fixed sequence
  of checks in `run_all_checks` (its terraform version check included) and `main`:
  these are orchestration and further subprocess calls, and are not part of this model.
- Console rendering: the ANSI colour codes, the emoji in labels, the `:<30`
  column padding, headings, underlines and the `print` calls themselves.
  A label is its colour and its status word. The report is a value, not text.
- `setup_examples.py` only copies files and creates directories. It is not part of this model.
- `ResultsReport.StatusLabel`: the label text is the status word without the emoji that precede it.
