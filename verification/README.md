# New-employee / daily-report upload, modelled in Dafny

The upload service takes two Excel files from a form: a roster of new
employees (`New Employee_YYYYMM.xlsx`) and one or more daily reports
(`Daily report_YYYYMMDD_Name_Surname.xlsx`). It checks the file names. It
files every daily-report row under the team member named in the report's
file name. It then joins the roster onto the stacked reports by `Role` and
shows the complete rows. This project models that core and proves what it
does.

The model is split into modules:

- `Text` (`text.dfy`) holds the Python string operations the handler relies
  on, over `seq<char>`: `rsplit(".", 1)`, `lower()`, `replace`, `startswith`,
  `endswith` and `split`. The handler never calls `join`. `Join` is there
  only as the inverse that pins `Split` down (`JoinSplit`, `SplitJoin`).
- `FileNames` (`file_names.dfy`) holds `allowed_file`, `validate_filename`,
  the roster and report name tests with their fallback spellings, and
  team-member extraction.
- `UploadValidation` (`upload_validation.dfy`) holds the fixed order of the
  name checks. `Validate` specifies it. `CheckUpload` is the step-by-step
  version with early returns.
- `ReportMerge` (`report_merge.dfy`) holds the tagging loop (`CollectReports`),
  `pd.concat`, the left join on `Role` and the projection with `dropna`.
- `UploadRequest` (`upload_request.dfy`) holds the whole POST branch.
  `Respond` specifies it and `HandleUpload` runs it.

The code computes a daily report's team member from the raw file name. It
first deletes every `Daily_report_` and every `.xlsx`. It then splits at `_`
and joins tokens 2 and 3. For a name in the spaced form,
`Daily report_20240101_Jane_Doe.xlsx`, this gives `Jane Doe`. For the
underscore form, `Daily_report_20240101_John_Smith.xlsx`, only three tokens
remain, so indexing token 3 raises an exception. That happens even though
the name passes every check. The refusal message at app.py:95 asks for the
spaced form. The underscore form still passes the report-name test at
app.py:94, and then fails at app.py:104. `FileNames.TeamMemberUnderscoreForm`
and `UploadRequest.UnderscoreReportCrashes` prove the failure.

## Model

| member | source | states |
|---|---|---|
| Text.Lower | app.py:11 | `lower()` on ASCII letters; `FileNames.AllowedFileUpperCase` uses it on `XLSX` |
| Text.StartsWith | app.py:16 | `startswith(p)`: the text begins with `p`; `FileNames.ValidateFormatted` and `FileNames.PrefixAndXlsx` use it |
| Text.EndsWith | app.py:16 | `endswith(q)`: the text ends with `q`; `FileNames.ExtensionCaseNotValidated` shows that the test is case-sensitive |
| Text.LastIndexOf | app.py:11 | `rsplit(".", 1)` splits at the last dot: there is none exactly when the name has no dot; otherwise the index holds a dot and no dot follows it |
| Text.ReplaceSpaces | app.py:15 | the formatted name has the same length, contains no space, and differs from the name only where the name had a space, which became `_` |
| Text.RemoveAll | app.py:103 | `replace(pat, "")` never makes the text longer |
| Text.RemoveAllSkips | app.py:103 | text in which `pat` cannot start (its first character is absent) is copied unchanged by `replace(pat, "")` |
| Text.RemoveAllKeepsMismatch | app.py:103 | a leading part that differs from `pat` and holds no later start of `pat` is kept, and the deletion resumes after it |
| Text.RemoveAllTooFew | app.py:103 | text with fewer copies of some character than `pat` is returned whole by `replace(pat, "")` |
| Text.OccurrencesAppend | app.py:103 | the number of separators in two joined texts is the sum of their numbers |
| Text.RemoveAllMissingChar | app.py:103 | text that lacks some character of `pat` is returned whole by `replace(pat, "")` |
| Text.RemoveAllSuffix | app.py:103 | a single trailing `pat` is deleted and nothing else |
| Text.RemoveAllDeletes | app.py:103 | a leading `pat` is deleted and the pass continues after it, as Python's left-to-right replace does |
| Text.Split | app.py:103 | `split("_")` gives one piece more than there are separators, and no piece contains the separator |
| Text.JoinSplit | app.py:103 | joining the pieces of `split(sep)` with `sep` gives back the text |
| Text.SplitJoin | app.py:103 | splitting separator-free pieces joined by `sep` gives back the pieces |
| Text.SplitAtFirst | app.py:103 | the text before the first separator is the first piece and the rest splits on its own |
| Text.SplitFirstPiece | app.py:103 | the first piece ends at the first separator or at the end of the text |
| Text.SplitNone | app.py:103 | text without a separator is a single piece |
| FileNames.AllowedFile | app.py:10-11 | `allowed_file` as written: a dot, and the text after the last dot, lower-cased, is in the whitelist; `FileNames.AllowedFileIff` characterises it |
| FileNames.ValidateFilename | app.py:13-16 | `validate_filename` as written; `FileNames.ValidateFilenameSpaceBlind`, `FileNames.SpacedPrefixRejects` and `FileNames.ValidateImpliesAllowed` characterise it |
| FileNames.IsRosterName | app.py:90 | the roster test with both prefixes; `FileNames.FallbackPrefixesDead` and `FileNames.RosterNameForms` characterise it |
| FileNames.IsReportName | app.py:94 | the report test with both prefixes; `FileNames.FallbackPrefixesDead`, `FileNames.ReportNameForms` and `FileNames.CapitalReportRejected` characterise it |
| FileNames.StrippedReportName | app.py:103 | the two `replace` calls; `FileNames.SpaceFormStripped`, `FileNames.XlsFormStripped` and `FileNames.InsideNameStripped` compute it on report names |
| FileNames.TeamMember | app.py:103-104 | the extraction, with the IndexError as `TokenMissing`; `FileNames.TeamMemberFailsIff` and `FileNames.TeamMemberOfShape` characterise it |
| FileNames.AllowedFileIff | app.py:8-11 | `allowed_file` holds exactly when some dot has no dot after it and the text after it, lower-cased, is `xlsx` or `xls` |
| FileNames.LastDotIsUnique | app.py:11 | a dot with no later dot is the one `rsplit(".", 1)` splits at |
| FileNames.AllowedFileUpperCase | app.py:11 | `a.XLSX` is allowed: the extension is lower-cased before the whitelist test |
| FileNames.AllowedFileDottedStem | app.py:11 | `a.b.xls` is allowed: only the text after the last dot counts |
| FileNames.AllowedFileRejects | app.py:10-11 | `xlsx`, which has no dot, and `Report.csv` are refused |
| FileNames.ValidateFilenameSpaceBlind | app.py:13-16 | `validate_filename` cannot tell a space from an underscore: names that differ only there get the same answer |
| FileNames.SpacedPrefixRejects | app.py:15-16 | a prefix that contains a space never matches, because the formatted name has no space |
| FileNames.ValidateImpliesAllowed | app.py:10-16 | a name accepted by `validate_filename` is also accepted by `allowed_file` |
| FileNames.ExtensionCaseAllowed | app.py:11 | `New_Employee_1.XLSX` passes the extension check |
| FileNames.ExtensionCaseNotValidated | app.py:16 | `New_Employee_1.XLSX` fails the name check, whose `.xlsx`/`.xls` test is case-sensitive |
| FileNames.FallbackPrefixesDead | app.py:90-94 | the `New Employee` and `Daily Report` fallbacks never accept anything, so the roster and report tests reduce to their underscore spellings |
| FileNames.RosterNameForms | app.py:90 | `New Employee<rest>.xlsx` and `New_Employee<rest>.xlsx` pass the roster-name test, whatever `<rest>` holds |
| FileNames.ReportNameForms | app.py:94 | `Daily report<rest>.xlsx` and `Daily_report<rest>.xlsx` pass the report-name test, whatever `<rest>` holds |
| FileNames.CapitalReportRejected | app.py:94 | a report name beginning `Daily Report`, with a capital R, is refused |
| FileNames.TeamMemberFailsIff | app.py:103-104 | extraction fails exactly when the stripped name has fewer than three underscores; the failing index is 2 with fewer than two, else 3 |
| FileNames.TeamMemberOfShape | app.py:103-104 | for a stripped name `a_b_c_d…`, the team member is `c d`, and tokens after the fourth are ignored |
| FileNames.TeamMemberSpaceForm | app.py:103-104 | `Daily report_<date>_<first>_<last>.xlsx` yields the team member `<first> <last>` |
| FileNames.TeamMemberUnderscoreForm | app.py:103-104 | deleting `Daily_report_` from `Daily_report_<date>_<first>_<last>.xlsx` removes the tokens `Daily` and `report`, so only three tokens remain and reading token 3 fails |
| FileNames.TeamMemberKeepsXls | app.py:103-104 | with a `.xls` extension the suffix is not deleted and ends up in the team member: `<first> <last>.xls` |
| FileNames.ReportPrefixInsideName | app.py:103-104 | with the date `Daily` and the first name `report`, the spaced name `Daily report_Daily_report_<last>.xlsx` contains `Daily_report_`; that text is deleted, and reading token 2 fails |
| FileNames.SpacedFormNamed | app.py:94 | `Daily report_<date>_<first>_<last>.xlsx` passes the report-name test for any pieces |
| FileNames.UnderscoreFormNamed | app.py:94 | `Daily_report_<date>_<first>_<last>.xlsx` passes the report-name test for any pieces |
| FileNames.ValidatedNameMayFailExtraction | app.py:86-104 | an underscore-form report name passes the extension and name checks, yet its extraction fails |
| UploadValidation.Validate | app.py:82-95 | the checks as a function; `UploadValidation.CheckUpload` runs them, and `UploadValidation.ValidateRefusals` and `UploadValidation.AcceptedIffNamesValid` characterise them |
| UploadValidation.Message | app.py:83-95 | the three refusal texts, at app.py:83, app.py:91 and app.py:95; `UploadRequest.CsvReportMessage` shows one of them in an answer |
| UploadValidation.AllPass | app.py:85-95 | each loop over the reports (app.py:85-87 and app.py:93-95) returns false at the first name that fails its test, and true exactly when all pass |
| UploadValidation.CheckUpload | app.py:82-95 | the step-by-step checks return exactly the first failing check of `Validate` |
| UploadValidation.ValidateRefusals | app.py:82-95 | any bad extension gives the Excel error; a bad roster name is reported only when all extensions pass; a bad report name only when the roster name passes too |
| UploadValidation.AcceptedIffNamesValid | app.py:82-95 | an upload passes exactly when the roster name and every report name pass their name tests |
| UploadValidation.ValidateIgnoresOrder | app.py:85-95 | reordering the reports does not change the outcome of the checks |
| UploadValidation.NoReportsPass | app.py:85-95 | with no report at all, the checks pass on a well-named roster |
| UploadValidation.CsvReportRefused | app.py:85-87 | a `.csv` report is refused as a non-Excel file, whatever the roster is called |
| UploadRequest.CsvReportMessage | app.py:85-87 | a `.csv` report gets the 400 answer with the text `Error: Only Excel files (.xlsx, .xls) are allowed!` |
| ReportMerge.Tag | app.py:105 | every row of a report gets the same team member; `ReportMerge.DailyMember` characterises the tagged stack |
| ReportMerge.TagAll | app.py:101-106 | the tagged reports in upload order; `ReportMerge.CollectReports` computes it |
| ReportMerge.FirstBadReport | app.py:101-104 | the index of the first report whose name yields no team member: every earlier one yields one, and that one fails |
| ReportMerge.CollectReports | app.py:100-106 | the loop fails with the first failing report's error; otherwise it returns each report's rows tagged with that report's team member, in upload order |
| ReportMerge.Concat | app.py:109 | `pd.concat` with `ignore_index=True`; `ReportMerge.ConcatIndex` and `ReportMerge.ConcatMember` characterise it |
| ReportMerge.ConcatAppend | app.py:109 | stacking two runs of tables stacks the two stacks, and the row counts add |
| ReportMerge.ConcatLength | app.py:109 | the stack holds as many rows as the tables together |
| ReportMerge.ConcatIndex | app.py:109 | row `j` of table `i` is at position (rows of tables before `i`) + `j`: tables in order, rows in table order |
| ReportMerge.ConcatMember | app.py:109 | a row is in the stack exactly when it is in one of the tables |
| ReportMerge.DailyMember | app.py:100-109 | a stacked row is exactly a row of some report carrying that report's team member |
| ReportMerge.Matches | app.py:112 | the report rows with the key `Role`, in stack order; `ReportMerge.MatchesMember` and `ReportMerge.MatchesAppend` characterise it |
| ReportMerge.JoinRow | app.py:112 | one roster row's left join; `ReportMerge.JoinRowShape` characterises it |
| ReportMerge.LeftJoin | app.py:112 | the left join in roster order; `ReportMerge.LeftJoinAppend` characterises it |
| ReportMerge.MatchesMember | app.py:112 | a daily row matches a role exactly when it is in the stack with that role |
| ReportMerge.MatchesAppend | app.py:112 | matching keeps stack order: the matches of two stacked parts are the stacked matches |
| ReportMerge.LeftJoinAppend | app.py:112 | the left join keeps roster order: joining two runs of roster rows stacks their joins |
| ReportMerge.AttachRows | app.py:112 | a matched roster row gives one joined row per match, in match order, carrying the match's team member |
| ReportMerge.JoinRowShape | app.py:112 | a roster row with no matching role gives exactly one row with no team member; otherwise it gives one row per match |
| ReportMerge.DropIncomplete | app.py:113 | the projection and `dropna`; `ReportMerge.DropIncompleteAppend` characterises it |
| ReportMerge.Merge | app.py:112-113 | merge, projection and `dropna`; `ReportMerge.MergeIsExpected`, `ReportMerge.MergeMember` and `ReportMerge.MergeLength` characterise it |
| ReportMerge.DropIncompleteAppend | app.py:113 | `dropna` works row by row and keeps order |
| ReportMerge.MergeOne | app.py:112-113 | one roster row is shown as `Expected` says: nothing when its name or join date is blank, otherwise one record per matching report row |
| ReportMerge.MergeAppend | app.py:112-113 | the shown table keeps roster order: the table of two runs of rows is their tables stacked |
| ReportMerge.MergeIsExpected | app.py:112-113 | the shown table equals the roster rows' contributions stacked in roster order |
| ReportMerge.ExpectedMember | app.py:112-113 | a record comes from a roster row exactly when some report row with its role supplies the team member |
| ReportMerge.MergeMember | app.py:112-113 | a record is shown exactly when a roster row with its name, join date and role meets a report row with its role and team member |
| ReportMerge.MergeLength | app.py:112-113 | the table length is the sum, over roster rows with name and join date present, of their matching report rows |
| ReportMerge.UnmatchedRowDropped | app.py:112-113 | a roster row whose role no report lists leaves no record |
| ReportMerge.MergeExample | app.py:112-113 | roster row (X, 2024-01-01, Dev) and a Dev row filed under John Smith give the one record (X, 2024-01-01, Dev, John Smith) |
| UploadRequest.Respond | app.py:77-115 | the POST branch as a function; `UploadRequest.HandleUpload` runs it, and `UploadRequest.TableIff`, `UploadRequest.TableProvenance` and `UploadRequest.TableCompleteness` characterise it |
| UploadRequest.HandleUpload | app.py:77-115 | running the handler step by step gives the answer `Respond` specifies |
| UploadRequest.TableIff | app.py:82-115 | the handler answers with the table page exactly when all names pass, at least one report was sent, and every report name yields a team member |
| UploadRequest.TableProvenance | app.py:100-115 | every shown record has a roster row with its name, join date and role, and a report row with its role from a report whose name yields its team member |
| UploadRequest.TableCompleteness | app.py:100-115 | every complete roster row paired with a report row of the same role is shown |
| UploadRequest.UnderscoreReportCrashes | app.py:82-104 | an underscore-form report name passes every check and then fails extraction with index 3 |
| UploadRequest.SpacedReportTeamMember | app.py:103-115 | with one spaced-form report, every shown record names `<first> <last>` as team member |
| UploadRequest.OneReportShown | app.py:82-115 | a well-named roster with one well-named report whose name yields member `m` gets the table page: the roster merged with that report's rows, each filed under `m` |
| UploadRequest.SpacedUploadShown | app.py:82-115 | a roster `New Employee<ym>.xlsx` with one report `Daily report_<date>_<first>_<last>.xlsx` gets the table page, with every report row filed under `<first> <last>` |
| UploadRequest.NoReportsCrash | app.py:85-109 | an upload without reports passes the checks and then fails at `pd.concat` of an empty list |

## Left out

- Flask routing, the GET branch, reading `request.files` and the HTTP
  status codes are not modelled. `Refused` stands for the 400 answers and
  carries their text. `Crashed` stands for an exception escaping the
  handler. A missing form field is also not modelled.
- The HTML template and its rendering are not modelled. `Table` carries the
  records the template would show. An empty table shows no table on the
  page.
- `pd.read_excel` is not modelled: the sheets are given as rows, and read
  errors are not modelled.
- Report columns other than `Role` are not modelled. They are dropped by the
  projection, and the model also leaves out what a clash with the roster's
  column names would do (`_x`/`_y` suffixes).
- These pandas behaviours are not modelled:
  - blank `Role` cells, which cannot be represented (`role` is a string).
    This does not change the shown table. The `dropna` at app.py:113 also
    tests `Role`, so a roster row with a blank `Role` yields no record,
    whatever it matches. A report row with a blank `Role` could match only
    such roster rows;
  - dtype coercion of `Join Date`, which is an opaque optional string here;
  - the `KeyError` on a missing column.
- Text.Lower: only ASCII letters are lower-cased. Python's full Unicode
  case mapping is not modelled.
- FileNames.TeamMemberSpaceForm: stated for date, first-name and surname
  pieces without `_` or `.`, and with no `D` in the date. The date condition
  keeps a `Daily_report_` from starting inside the date. Some such condition
  is needed: `FileNames.ReportPrefixInsideName` shows a name that fails
  without it. `FileNames.TeamMember` itself covers every name, and
  `FileNames.TeamMemberFailsIff` holds for all names.
- FileNames.TeamMemberUnderscoreForm: the same side conditions on the name
  pieces.
- FileNames.TeamMemberKeepsXls: the same side conditions on the name pieces.
- FileNames.ValidatedNameMayFailExtraction: the same side conditions on the
  name pieces.
- UploadRequest.UnderscoreReportCrashes: the same side conditions on the
  name pieces.
- UploadRequest.SpacedReportTeamMember: the same side conditions on the
  name pieces.
- UploadRequest.SpacedUploadShown: the same side conditions on the name
  pieces of the report. `UploadRequest.OneReportShown` gives the table page
  for any well-named report whose name yields a team member.
