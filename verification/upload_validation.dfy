/**
 * The checks the upload handler makes on the file names before it reads any
 * file: every extension first (roster, then each daily report in upload
 * order), then every name (roster, then each daily report). The first check
 * that fails decides the answer.
 */
module UploadValidation {
  import opened Wrappers
  import opened FileNames

  /** Which check refused the upload. */
  datatype UploadError =
    | NotExcel       // an extension other than .xlsx/.xls, any case
    | BadRosterName  // the roster file is not named New_Employee...
    | BadReportName  // a daily report is not named Daily_report...

  /** The text the handler answers with for each refusal. */
  function Message(e: UploadError): string
  {
    match e
    case NotExcel => "Error: Only Excel files (.xlsx, .xls) are allowed!"
    case BadRosterName => "Error: New Employee file must be named 'New Employee_YYYYMM.xlsx'"
    case BadReportName => "Error: Daily Report files must be named 'Daily report_YYYYMMDD_Name_Surname.xlsx'"
  }

  /** Every name in `names` has an Excel extension. */
  predicate AllExcel(names: seq<string>)
  {
    forall i :: 0 <= i < |names| ==> AllowedFile(names[i])
  }

  /** Every name in `names` passes the daily-report name test. */
  predicate AllReportNames(names: seq<string>)
  {
    forall i :: 0 <= i < |names| ==> IsReportName(names[i])
  }

  /**
   * The answer of the checks: `None` lets the upload through, `Some(e)` is
   * the refusal of the first failing check.
   */
  function Validate(roster: string, reports: seq<string>): Option<UploadError>
  {
    if !AllowedFile(roster) || !AllExcel(reports) then Some(NotExcel)
    else if !IsRosterName(roster) then Some(BadRosterName)
    else if !AllReportNames(reports) then Some(BadReportName)
    else None
  }

  /**
   * One pass of the handler over the daily reports: stop at the first name
   * that fails `test`.
   */
  method AllPass(names: seq<string>, test: string -> bool) returns (ok: bool)
    ensures ok <==> forall i :: 0 <= i < |names| ==> test(names[i])
  {
    for i := 0 to |names|
      invariant forall j :: 0 <= j < i ==> test(names[j])
    {
      if !test(names[i]) {
        return false;
      }
    }
    return true;
  }

  /**
   * The checks as the handler runs them: one test at a time, returning at the
   * first failure.
   */
  method CheckUpload(roster: string, reports: seq<string>) returns (r: Option<UploadError>)
    ensures r == Validate(roster, reports)
  {
    if !AllowedFile(roster) {
      return Some(NotExcel);
    }
    var excel := AllPass(reports, AllowedFile);
    if !excel {
      return Some(NotExcel);
    }
    if !IsRosterName(roster) {
      return Some(BadRosterName);
    }
    var named := AllPass(reports, IsReportName);
    if !named {
      return Some(BadReportName);
    }
    return None;
  }

  /**
   * Each refusal, said in terms of the files: a bad extension anywhere wins;
   * a bad roster name is reported only when every extension is fine; a bad
   * report name only when the roster name is fine as well.
   */
  lemma ValidateRefusals(roster: string, reports: seq<string>)
    ensures Validate(roster, reports) == Some(NotExcel) <==>
      !AllowedFile(roster) || exists i :: 0 <= i < |reports| && !AllowedFile(reports[i])
    ensures Validate(roster, reports) == Some(BadRosterName) <==>
      AllowedFile(roster) && AllExcel(reports) && !IsRosterName(roster)
    ensures Validate(roster, reports) == Some(BadReportName) <==>
      AllowedFile(roster) && AllExcel(reports) && IsRosterName(roster) &&
      exists i :: 0 <= i < |reports| && !IsReportName(reports[i])
  {
  }

  /**
   * An upload goes through exactly when every name passes its name test: a
   * name that passes already has an Excel extension, so the extension checks
   * only decide which error is shown.
   */
  lemma AcceptedIffNamesValid(roster: string, reports: seq<string>)
    ensures Validate(roster, reports).None? <==> IsRosterName(roster) && AllReportNames(reports)
  {
    if IsRosterName(roster) && AllReportNames(reports) {
      FallbackPrefixesDead(roster);
      ValidateImpliesAllowed(roster, "New_Employee");
      forall i | 0 <= i < |reports|
        ensures AllowedFile(reports[i])
      {
        FallbackPrefixesDead(reports[i]);
        ValidateImpliesAllowed(reports[i], "Daily_report");
      }
    }
  }

  /** The order of the reports does not change whether the upload is accepted or which error is shown. */
  lemma ValidateIgnoresOrder(roster: string, reports: seq<string>, shuffled: seq<string>)
    requires multiset(reports) == multiset(shuffled)
    ensures Validate(roster, reports) == Validate(roster, shuffled)
  {
    forall i | 0 <= i < |reports|
      ensures reports[i] in shuffled
    {
      assert reports[i] in multiset(shuffled);
    }
    forall i | 0 <= i < |shuffled|
      ensures shuffled[i] in reports
    {
      assert shuffled[i] in multiset(reports);
    }
  }

  /** An upload with no daily report at all passes the checks on a well-named roster. */
  lemma NoReportsPass(roster: string)
    requires IsRosterName(roster)
    ensures Validate(roster, []) == None
  {
    AcceptedIffNamesValid(roster, []);
  }

  /** A CSV report is refused as a non-Excel file, whatever the roster is called. */
  lemma CsvReportRefused(roster: string)
    ensures Validate(roster, ["Report.csv"]) == Some(NotExcel)
  {
    AllowedFileRejects();
    assert !AllowedFile(["Report.csv"][0]);
  }
}
