/**
 * The POST branch of the upload handler, end to end: check the file names,
 * tag and stack the daily reports, join the roster onto them and show the
 * complete rows.
 */
module UploadRequest {
  import opened Wrappers
  import opened FileNames
  import opened UploadValidation
  import opened ReportMerge

  /** The uploaded new-employee sheet: its file name and its rows. */
  datatype RosterFile = RosterFile(filename: string, rows: seq<RosterRow>)

  /** How the request fails after the checks have let it through. */
  datatype ServerError =
    | ExtractFailed(cause: ExtractError)  // a report name has fewer than four tokens
    | NoReports                           // nothing to stack: pd.concat of an empty list

  /** What the handler answers. */
  datatype Response =
    | Refused(error: UploadError, message: string)  // a name check failed; the text sent back
    | Crashed(failure: ServerError)     // an exception escapes the handler
    | Table(records: seq<Record>)       // the page with the joined table

  /** The file names of the daily reports, in upload order. */
  function ReportNames(reports: seq<ReportFile>): seq<string>
  {
    seq(|reports|, i requires 0 <= i < |reports| => reports[i].filename)
  }

  /** The answer to an upload. */
  function Respond(roster: RosterFile, reports: seq<ReportFile>): Response
  {
    match Validate(roster.filename, ReportNames(reports))
    case Some(e) => Refused(e, Message(e))
    case None =>
      var k := FirstBadReport(reports);
      if k < |reports| then Crashed(ExtractFailed(TeamMember(reports[k].filename).error))
      else if reports == [] then Crashed(NoReports)
      else Table(Merge(roster.rows, Concat(TagAll(reports))))
  }

  /** The handler, step by step, as it runs. */
  method HandleUpload(roster: RosterFile, reports: seq<ReportFile>) returns (resp: Response)
    ensures resp == Respond(roster, reports)
  {
    var refusal := CheckUpload(roster.filename, ReportNames(reports));
    if refusal.Some? {
      return Refused(refusal.value, Message(refusal.value));
    }
    var collected := CollectReports(reports);
    if collected.Failure? {
      return Crashed(ExtractFailed(collected.error));
    }
    if collected.value == [] {
      return Crashed(NoReports);
    }
    var daily := Concat(collected.value);
    return Table(Merge(roster.rows, daily));
  }

  /**
   * A CSV daily report is refused with the handler's Excel-only message,
   * whatever the roster is called.
   */
  lemma CsvReportMessage(roster: RosterFile, rows: seq<ReportRow>)
    ensures Respond(roster, [ReportFile("Report.csv", rows)])
      == Refused(NotExcel, "Error: Only Excel files (.xlsx, .xls) are allowed!")
  {
    assert ReportNames([ReportFile("Report.csv", rows)]) == ["Report.csv"];
    CsvReportRefused(roster.filename);
  }

  /**
   * The page is shown exactly when every file is named as required, there is
   * at least one report, and every report name yields a team member.
   */
  lemma TableIff(roster: RosterFile, reports: seq<ReportFile>)
    ensures Respond(roster, reports).Table? <==>
      IsRosterName(roster.filename) && AllReportNames(ReportNames(reports)) &&
      reports != [] && AllExtracted(reports)
  {
    AcceptedIffNamesValid(roster.filename, ReportNames(reports));
  }

  /**
   * Every displayed record comes from the uploads: a roster row with its
   * name, join date and role, and a row with that role in some report whose
   * file name yields the record's team member.
   */
  lemma TableProvenance(roster: RosterFile, reports: seq<ReportFile>, rec: Record)
    requires Respond(roster, reports).Table?
    requires rec in Respond(roster, reports).records
    ensures exists i :: 0 <= i < |roster.rows| && roster.rows[i].employeeName == Some(rec.employeeName) &&
                        roster.rows[i].joinDate == Some(rec.joinDate) && roster.rows[i].role == rec.role
    ensures exists f, j :: 0 <= f < |reports| && 0 <= j < |reports[f].rows| &&
                           reports[f].rows[j].role == rec.role && TeamMember(reports[f].filename) == Success(rec.teamMember)
  {
    var daily := Concat(TagAll(reports));
    MergeMember(roster.rows, daily, rec);
    var i, j :| 0 <= i < |roster.rows| && 0 <= j < |daily| && Supplies(roster.rows[i], daily[j], rec);
    DailyMember(reports, daily[j]);
    var f, j' :| 0 <= f < |reports| && 0 <= j' < |reports[f].rows| &&
      daily[j] == TaggedRow(reports[f].rows[j'].role, TeamMember(reports[f].filename).value);
    assert reports[f].rows[j'].role == rec.role;
  }

  /**
   * Conversely, every pairing of a complete roster row with a report row of
   * the same role is displayed.
   */
  lemma TableCompleteness(roster: RosterFile, reports: seq<ReportFile>, i: nat, f: nat, j: nat)
    requires Respond(roster, reports).Table?
    requires i < |roster.rows| && roster.rows[i].employeeName.Some? && roster.rows[i].joinDate.Some?
    requires f < |reports| && j < |reports[f].rows| && reports[f].rows[j].role == roster.rows[i].role
    ensures TeamMember(reports[f].filename).Success?
    ensures Record(roster.rows[i].employeeName.value, roster.rows[i].joinDate.value, roster.rows[i].role,
                   TeamMember(reports[f].filename).value) in Respond(roster, reports).records
  {
    var row := roster.rows[i];
    var daily := Concat(TagAll(reports));
    var t := TaggedRow(reports[f].rows[j].role, TeamMember(reports[f].filename).value);
    DailyMember(reports, t);
    var k :| 0 <= k < |daily| && daily[k] == t;
    var rec := Record(row.employeeName.value, row.joinDate.value, row.role, t.teamMember);
    assert Supplies(roster.rows[i], daily[k], rec);
    MergeMember(roster.rows, daily, rec);
  }

  /**
   * A daily report named in the underscore form passes every check and then
   * brings the request down: its name leaves too few tokens for a team member.
   */
  lemma UnderscoreReportCrashes(roster: RosterFile, date: string, first: string, last: string, rows: seq<ReportRow>)
    requires IsRosterName(roster.filename)
    requires NamePiece(date) && NamePiece(first) && NamePiece(last)
    requires 'D' !in date
    ensures Respond(roster, [ReportFile("Daily_report_" + date + "_" + first + "_" + last + ".xlsx", rows)])
      == Crashed(ExtractFailed(TokenMissing(3)))
  {
    var f := "Daily_report_" + date + "_" + first + "_" + last + ".xlsx";
    var reports := [ReportFile(f, rows)];
    ValidatedNameMayFailExtraction(date, first, last);
    TeamMemberUnderscoreForm(date, first, last);
    assert ReportNames(reports) == [f];
    AcceptedIffNamesValid(roster.filename, [f]);
  }

  /**
   * With one report named in the spaced form, every displayed record is
   * filed under the name's first and last token.
   */
  lemma SpacedReportTeamMember(roster: RosterFile, date: string, first: string, last: string, rows: seq<ReportRow>, rec: Record)
    requires NamePiece(date) && NamePiece(first) && NamePiece(last)
    requires 'D' !in date
    requires Respond(roster, [ReportFile("Daily report_" + date + "_" + first + "_" + last + ".xlsx", rows)]).Table?
    requires rec in Respond(roster, [ReportFile("Daily report_" + date + "_" + first + "_" + last + ".xlsx", rows)]).records
    ensures rec.teamMember == first + " " + last
  {
    var reports := [ReportFile("Daily report_" + date + "_" + first + "_" + last + ".xlsx", rows)];
    TableProvenance(roster, reports, rec);
    TeamMemberSpaceForm(date, first, last);
  }

  /**
   * A well-named upload with one daily report whose name yields a team
   * member gets the table page: the roster joined onto that report's rows,
   * each filed under that member.
   */
  lemma OneReportShown(roster: RosterFile, f: string, rows: seq<ReportRow>, member: string)
    requires IsRosterName(roster.filename) && IsReportName(f)
    requires TeamMember(f) == Success(member)
    ensures Respond(roster, [ReportFile(f, rows)]) == Table(Merge(roster.rows, Tag(rows, member)))
  {
    var reports := [ReportFile(f, rows)];
    assert ReportNames(reports) == [f];
    AcceptedIffNamesValid(roster.filename, [f]);
    assert reports[1..] == [];
    assert FirstBadReport(reports) == 1;
    assert TagAll(reports) == [Tag(rows, member)];
    assert TagAll(reports)[1..] == [];
    assert Concat(TagAll(reports)) == Tag(rows, member);
  }

  /**
   * The upload the handler asks for, a roster `New Employee<ym>.xlsx` and
   * one report `Daily report_<date>_<first>_<last>.xlsx`, gets the table
   * page, with every report row filed under `<first> <last>`.
   */
  lemma SpacedUploadShown(ym: string, rows: seq<RosterRow>, date: string, first: string, last: string,
                          reportRows: seq<ReportRow>)
    requires NamePiece(date) && NamePiece(first) && NamePiece(last)
    requires 'D' !in date
    ensures Respond(RosterFile("New Employee" + ym + ".xlsx", rows),
                    [ReportFile("Daily report_" + date + "_" + first + "_" + last + ".xlsx", reportRows)])
      == Table(Merge(rows, Tag(reportRows, first + " " + last)))
  {
    RosterNameForms(ym);
    SpacedFormNamed(date, first, last);
    TeamMemberSpaceForm(date, first, last);
    OneReportShown(RosterFile("New Employee" + ym + ".xlsx", rows),
                   "Daily report_" + date + "_" + first + "_" + last + ".xlsx", reportRows, first + " " + last);
  }

  /** An upload that passes the checks with no daily report fails when the reports are stacked. */
  lemma NoReportsCrash(roster: RosterFile)
    requires IsRosterName(roster.filename)
    ensures Respond(roster, []) == Crashed(NoReports)
  {
    assert ReportNames([]) == [];
    NoReportsPass(roster.filename);
  }
}
