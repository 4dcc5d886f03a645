/**
 * What the upload handler does with the sheets once the names are accepted:
 * every daily report gets a "Team Member" column taken from its file name,
 * the reports are stacked in upload order, the roster is left-joined onto the
 * stack by "Role", and the four displayed columns are kept with every row
 * that has a blank cell dropped.
 *
 * The sheets are given as rows; reading a workbook is not part of this model.
 */
module ReportMerge {
  import opened Wrappers
  import opened FileNames

  // ---------------------------------------------------------------------
  // Rows
  // ---------------------------------------------------------------------

  /** A row of the new-employee sheet; the name and the join date may be blank. */
  datatype RosterRow = RosterRow(employeeName: Option<string>, joinDate: Option<string>, role: string)

  /** A row of a daily report, reduced to the join column ("Role"). */
  datatype ReportRow = ReportRow(role: string)

  /** An uploaded daily report: its file name and its rows. */
  datatype ReportFile = ReportFile(filename: string, rows: seq<ReportRow>)

  /** A daily-report row once the "Team Member" column is added. */
  datatype TaggedRow = TaggedRow(role: string, teamMember: string)

  /** A row of the joined table, cut to the four displayed columns. */
  datatype JoinedRow = JoinedRow(employeeName: Option<string>, joinDate: Option<string>, role: string, teamMember: Option<string>)

  /** A displayed row: all four columns filled. */
  datatype Record = Record(employeeName: string, joinDate: string, role: string, teamMember: string)

  // ---------------------------------------------------------------------
  // Tagging the daily reports
  // ---------------------------------------------------------------------

  /** `df["Team Member"] = team_member`: the same member on every row. */
  function Tag(rows: seq<ReportRow>, member: string): seq<TaggedRow>
  {
    seq(|rows|, i requires 0 <= i < |rows| => TaggedRow(rows[i].role, member))
  }

  /** Every report's file name yields a team member. */
  predicate AllExtracted(reports: seq<ReportFile>)
  {
    forall i :: 0 <= i < |reports| ==> TeamMember(reports[i].filename).Success?
  }

  /**
   * The position of the first report whose file name yields no team member,
   * or the number of reports when there is none.
   */
  function FirstBadReport(reports: seq<ReportFile>): (k: nat)
    ensures k <= |reports|
    ensures forall j :: 0 <= j < k ==> TeamMember(reports[j].filename).Success?
    ensures k < |reports| ==> TeamMember(reports[k].filename).Failure?
  {
    if reports == [] then 0
    else if TeamMember(reports[0].filename).Failure? then 0
    else 1 + FirstBadReport(reports[1..])
  }

  /** The first report whose name yields no team member is the first bad report. */
  lemma FirstBadReportAt(reports: seq<ReportFile>, i: nat)
    requires i < |reports| && TeamMember(reports[i].filename).Failure?
    requires forall j :: 0 <= j < i ==> TeamMember(reports[j].filename).Success?
    ensures FirstBadReport(reports) == i
  {
  }

  /** The tagged reports, in upload order. */
  function TagAll(reports: seq<ReportFile>): seq<seq<TaggedRow>>
    requires AllExtracted(reports)
  {
    seq(|reports|, i requires 0 <= i < |reports| => Tag(reports[i].rows, TeamMember(reports[i].filename).value))
  }

  /**
   * The handler's loop over the daily reports: work out each team member,
   * tag the rows and append the table to the list; the first name without a
   * team member ends the request.
   */
  method CollectReports(reports: seq<ReportFile>) returns (r: Result<seq<seq<TaggedRow>>, ExtractError>)
    ensures FirstBadReport(reports) < |reports| ==>
      r == Failure(TeamMember(reports[FirstBadReport(reports)].filename).error)
    ensures FirstBadReport(reports) == |reports| ==> AllExtracted(reports) && r == Success(TagAll(reports))
  {
    var allReports: seq<seq<TaggedRow>> := [];
    for i := 0 to |reports|
      invariant |allReports| == i
      invariant forall j :: 0 <= j < i ==> TeamMember(reports[j].filename).Success?
      invariant forall j :: 0 <= j < i ==> allReports[j] == Tag(reports[j].rows, TeamMember(reports[j].filename).value)
    {
      var member := TeamMember(reports[i].filename);
      if member.Failure? {
        FirstBadReportAt(reports, i);
        return Failure(member.error);
      }
      allReports := allReports + [Tag(reports[i].rows, member.value)];
    }
    assert AllExtracted(reports);
    assert allReports == TagAll(reports);
    return Success(allReports);
  }

  // ---------------------------------------------------------------------
  // pd.concat
  // ---------------------------------------------------------------------

  /** The tables stacked in order. */
  function Concat<T>(tables: seq<seq<T>>): seq<T>
  {
    if tables == [] then [] else tables[0] + Concat(tables[1..])
  }

  /** The number of rows over all tables. */
  function TotalRows<T>(tables: seq<seq<T>>): nat
  {
    if tables == [] then 0 else |tables[0]| + TotalRows(tables[1..])
  }

  /** Stacking two runs of tables stacks their stacks. */
  lemma {:induction false} ConcatAppend<T>(a: seq<seq<T>>, b: seq<seq<T>>)
    ensures Concat(a + b) == Concat(a) + Concat(b)
    ensures TotalRows(a + b) == TotalRows(a) + TotalRows(b)
  {
    if a == [] {
      assert a + b == b;
    } else {
      assert (a + b)[1..] == a[1..] + b;
      ConcatAppend(a[1..], b);
    }
  }

  /** The stack has as many rows as the tables together. */
  lemma {:induction false} ConcatLength<T>(tables: seq<seq<T>>)
    ensures |Concat(tables)| == TotalRows(tables)
  {
    if tables != [] {
      ConcatLength(tables[1..]);
    }
  }

  /**
   * Row `j` of table `i` sits in the stack after all rows of the earlier
   * tables: tables in order, rows in table order.
   */
  lemma ConcatIndex<T>(tables: seq<seq<T>>, i: nat, j: nat)
    requires i < |tables| && j < |tables[i]|
    ensures TotalRows(tables[..i]) + j < |Concat(tables)|
    ensures Concat(tables)[TotalRows(tables[..i]) + j] == tables[i][j]
  {
    assert tables == tables[..i] + tables[i..];
    ConcatAppend(tables[..i], tables[i..]);
    ConcatLength(tables[..i]);
    assert Concat(tables[i..]) == tables[i] + Concat(tables[i + 1..]);
  }

  /** A row is in the stack exactly when it is in one of the tables. */
  lemma {:induction false} ConcatMember<T>(tables: seq<seq<T>>, x: T)
    ensures x in Concat(tables) <==> exists i :: 0 <= i < |tables| && x in tables[i]
  {
    if tables != [] {
      ConcatMember(tables[1..], x);
      if x in Concat(tables[1..]) {
        var i :| 0 <= i < |tables[1..]| && x in tables[1..][i];
        assert x in tables[i + 1];
      }
      if exists i :: 0 <= i < |tables| && x in tables[i] {
        var i :| 0 <= i < |tables| && x in tables[i];
        if i > 0 {
          assert x in tables[1..][i - 1];
        }
      }
    }
  }

  /**
   * A row of the stacked daily reports is a row of some uploaded report with
   * that report's team member, and every such row is in the stack.
   */
  lemma DailyMember(reports: seq<ReportFile>, x: TaggedRow)
    requires AllExtracted(reports)
    ensures x in Concat(TagAll(reports)) <==>
      exists i, j :: 0 <= i < |reports| && 0 <= j < |reports[i].rows| &&
        x == TaggedRow(reports[i].rows[j].role, TeamMember(reports[i].filename).value)
  {
    var tables := TagAll(reports);
    ConcatMember(tables, x);
    if x in Concat(tables) {
      var i :| 0 <= i < |tables| && x in tables[i];
      var j :| 0 <= j < |tables[i]| && tables[i][j] == x;
      assert x == TaggedRow(reports[i].rows[j].role, TeamMember(reports[i].filename).value);
    }
    if exists i, j :: 0 <= i < |reports| && 0 <= j < |reports[i].rows| &&
        x == TaggedRow(reports[i].rows[j].role, TeamMember(reports[i].filename).value) {
      var i, j :| 0 <= i < |reports| && 0 <= j < |reports[i].rows| &&
        x == TaggedRow(reports[i].rows[j].role, TeamMember(reports[i].filename).value);
      assert tables[i][j] == x;
    }
  }

  // ---------------------------------------------------------------------
  // pd.merge(roster, daily, on="Role", how="left")
  // ---------------------------------------------------------------------

  /** The daily rows whose role is `role`, in stack order. */
  function Matches(role: string, daily: seq<TaggedRow>): seq<TaggedRow>
  {
    if daily == [] then []
    else (if daily[0].role == role then [daily[0]] else []) + Matches(role, daily[1..])
  }

  /** A daily row matches exactly when it is in the stack with that role. */
  lemma {:induction false} MatchesMember(role: string, daily: seq<TaggedRow>, x: TaggedRow)
    ensures x in Matches(role, daily) <==> x in daily && x.role == role
  {
    if daily != [] {
      MatchesMember(role, daily[1..], x);
      assert daily == [daily[0]] + daily[1..];
    }
  }

  /** Matching keeps the stack order: the matches of a stack are the stacked matches. */
  lemma {:induction false} MatchesAppend(role: string, a: seq<TaggedRow>, b: seq<TaggedRow>)
    ensures Matches(role, a + b) == Matches(role, a) + Matches(role, b)
  {
    if a == [] {
      assert a + b == b;
    } else {
      var head := if a[0].role == role then [a[0]] else [];
      assert (a + b)[0] == a[0] && (a + b)[1..] == a[1..] + b;
      assert Matches(role, a + b) == head + Matches(role, a[1..] + b);
      MatchesAppend(role, a[1..], b);
      assert head + (Matches(role, a[1..]) + Matches(role, b)) == (head + Matches(role, a[1..])) + Matches(role, b);
    }
  }

  /** One joined row per match, carrying the match's team member. */
  function Attach(row: RosterRow, matches: seq<TaggedRow>): seq<JoinedRow>
  {
    if matches == [] then []
    else [JoinedRow(row.employeeName, row.joinDate, row.role, Some(matches[0].teamMember))] + Attach(row, matches[1..])
  }

  /** What a roster row turns into: its matches, or one row with no team member. */
  function JoinRow(row: RosterRow, daily: seq<TaggedRow>): seq<JoinedRow>
  {
    var matches := Matches(row.role, daily);
    if matches == [] then [JoinedRow(row.employeeName, row.joinDate, row.role, None)]
    else Attach(row, matches)
  }

  /** The left join: the roster rows in order, each expanded by `JoinRow`. */
  function LeftJoin(roster: seq<RosterRow>, daily: seq<TaggedRow>): seq<JoinedRow>
  {
    if roster == [] then [] else JoinRow(roster[0], daily) + LeftJoin(roster[1..], daily)
  }

  /** The left join keeps the roster order: joining two runs of rows stacks their joins. */
  lemma {:induction false} LeftJoinAppend(a: seq<RosterRow>, b: seq<RosterRow>, daily: seq<TaggedRow>)
    ensures LeftJoin(a + b, daily) == LeftJoin(a, daily) + LeftJoin(b, daily)
  {
    if a == [] {
      assert a + b == b;
    } else {
      assert (a + b)[1..] == a[1..] + b;
      LeftJoinAppend(a[1..], b, daily);
    }
  }

  /** `Attach` gives exactly one row per match, in match order. */
  lemma {:induction false} AttachRows(row: RosterRow, matches: seq<TaggedRow>)
    ensures |Attach(row, matches)| == |matches|
    ensures forall k :: 0 <= k < |matches| ==>
      Attach(row, matches)[k] == JoinedRow(row.employeeName, row.joinDate, row.role, Some(matches[k].teamMember))
  {
    if matches != [] {
      AttachRows(row, matches[1..]);
    }
  }

  /**
   * Every roster row survives the left join: with no matching role it
   * becomes one row without a team member, otherwise one row per match.
   */
  lemma JoinRowShape(row: RosterRow, daily: seq<TaggedRow>)
    ensures Matches(row.role, daily) == [] ==>
      JoinRow(row, daily) == [JoinedRow(row.employeeName, row.joinDate, row.role, None)]
    ensures Matches(row.role, daily) != [] ==>
      |JoinRow(row, daily)| == |Matches(row.role, daily)| &&
      forall k :: 0 <= k < |JoinRow(row, daily)| ==>
        JoinRow(row, daily)[k] == JoinedRow(row.employeeName, row.joinDate, row.role, Some(Matches(row.role, daily)[k].teamMember))
  {
    AttachRows(row, Matches(row.role, daily));
  }

  // ---------------------------------------------------------------------
  // [["Employee Name", "Join Date", "Role", "Team Member"]].dropna()
  // ---------------------------------------------------------------------

  /** No blank cell in the four displayed columns. */
  predicate Complete(r: JoinedRow)
  {
    r.employeeName.Some? && r.joinDate.Some? && r.teamMember.Some?
  }

  /** A row as displayed: a record when it is complete, nothing otherwise. */
  function Kept(r: JoinedRow): seq<Record>
  {
    if Complete(r) then [Record(r.employeeName.value, r.joinDate.value, r.role, r.teamMember.value)] else []
  }

  /** The rows without a blank cell, in order. */
  function DropIncomplete(rows: seq<JoinedRow>): seq<Record>
  {
    if rows == [] then []
    else
      Kept(rows[0]) + DropIncomplete(rows[1..])
  }

  /** Dropping rows works row by row. */
  lemma {:induction false} DropIncompleteAppend(a: seq<JoinedRow>, b: seq<JoinedRow>)
    ensures DropIncomplete(a + b) == DropIncomplete(a) + DropIncomplete(b)
  {
    if a == [] {
      assert a + b == b;
    } else {
      assert (a + b)[1..] == a[1..] + b;
      DropIncompleteAppend(a[1..], b);
    }
  }

  /** The displayed table: the left join, projected, without incomplete rows. */
  function Merge(roster: seq<RosterRow>, daily: seq<TaggedRow>): seq<Record>
  {
    DropIncomplete(LeftJoin(roster, daily))
  }

  // ---------------------------------------------------------------------
  // What the displayed table holds
  // ---------------------------------------------------------------------

  /**
   * What one roster row contributes to the table, written directly: nothing
   * when its name or join date is blank, otherwise one record per report row
   * with the same role, in stack order.
   */
  function Expected(row: RosterRow, daily: seq<TaggedRow>): seq<Record>
  {
    if row.employeeName.None? || row.joinDate.None? then [] else Records(row, Matches(row.role, daily))
  }

  /** One record per match, with the roster row's name, join date and role. */
  function Records(row: RosterRow, matches: seq<TaggedRow>): seq<Record>
    requires row.employeeName.Some? && row.joinDate.Some?
  {
    seq(|matches|, k requires 0 <= k < |matches| =>
      Record(row.employeeName.value, row.joinDate.value, row.role, matches[k].teamMember))
  }

  /** The rows `Attach` makes, once incomplete ones are dropped. */
  lemma {:induction false} DropAttach(row: RosterRow, matches: seq<TaggedRow>)
    ensures DropIncomplete(Attach(row, matches)) ==
      if row.employeeName.None? || row.joinDate.None? then [] else Records(row, matches)
  {
    if matches != [] {
      DropAttach(row, matches[1..]);
    }
  }

  /** A single roster row is displayed as `Expected` says. */
  lemma MergeOne(row: RosterRow, daily: seq<TaggedRow>)
    ensures Merge([row], daily) == Expected(row, daily)
  {
    assert LeftJoin([row], daily) == JoinRow(row, daily) + [];
    assert JoinRow(row, daily) + [] == JoinRow(row, daily);
    DropAttach(row, Matches(row.role, daily));
  }

  /** The table keeps the roster order: the table of two runs of rows is their tables stacked. */
  lemma MergeAppend(a: seq<RosterRow>, b: seq<RosterRow>, daily: seq<TaggedRow>)
    ensures Merge(a + b, daily) == Merge(a, daily) + Merge(b, daily)
  {
    LeftJoinAppend(a, b, daily);
    DropIncompleteAppend(LeftJoin(a, daily), LeftJoin(b, daily));
  }

  /** The roster rows' `Expected` contributions, stacked in roster order. */
  function ExpectedAll(roster: seq<RosterRow>, daily: seq<TaggedRow>): seq<Record>
  {
    if roster == [] then [] else Expected(roster[0], daily) + ExpectedAll(roster[1..], daily)
  }

  /** The displayed table is exactly the stacked contributions of the roster rows. */
  lemma {:induction false} MergeIsExpected(roster: seq<RosterRow>, daily: seq<TaggedRow>)
    ensures Merge(roster, daily) == ExpectedAll(roster, daily)
  {
    if roster != [] {
      MergeIsExpected(roster[1..], daily);
      assert roster == [roster[0]] + roster[1..];
      MergeAppend([roster[0]], roster[1..], daily);
      MergeOne(roster[0], daily);
    }
  }

  /** Roster row `row` and report row `t` together make up the record `rec`. */
  predicate Supplies(row: RosterRow, t: TaggedRow, rec: Record)
  {
    row.employeeName == Some(rec.employeeName) && row.joinDate == Some(rec.joinDate) &&
    row.role == rec.role && t.role == rec.role && t.teamMember == rec.teamMember
  }

  /** A record is contributed by a roster row exactly when some report row with its role supplies the team member. */
  lemma ExpectedMember(row: RosterRow, daily: seq<TaggedRow>, rec: Record)
    ensures rec in Expected(row, daily) <==> exists j :: 0 <= j < |daily| && Supplies(row, daily[j], rec)
  {
    var matches := Matches(row.role, daily);
    if rec in Expected(row, daily) {
      var k :| 0 <= k < |matches| && Expected(row, daily)[k] == rec;
      MatchesMember(row.role, daily, matches[k]);
      var j :| 0 <= j < |daily| && daily[j] == matches[k];
      assert Supplies(row, daily[j], rec);
    }
    if exists j :: 0 <= j < |daily| && Supplies(row, daily[j], rec) {
      var j :| 0 <= j < |daily| && Supplies(row, daily[j], rec);
      MatchesMember(row.role, daily, daily[j]);
      var k :| 0 <= k < |matches| && matches[k] == daily[j];
      assert Expected(row, daily)[k] == rec;
    }
  }

  /**
   * Provenance, both ways: a record is displayed exactly when a roster row
   * with that name, join date and role meets a report row with that role and
   * team member.
   */
  lemma {:induction false} MergeMember(roster: seq<RosterRow>, daily: seq<TaggedRow>, rec: Record)
    ensures rec in Merge(roster, daily) <==>
      exists i, j :: 0 <= i < |roster| && 0 <= j < |daily| && Supplies(roster[i], daily[j], rec)
  {
    if roster != [] {
      MergeMember(roster[1..], daily, rec);
      assert roster == [roster[0]] + roster[1..];
      MergeAppend([roster[0]], roster[1..], daily);
      MergeOne(roster[0], daily);
      ExpectedMember(roster[0], daily, rec);
      if exists i, j :: 0 <= i < |roster| && 0 <= j < |daily| && Supplies(roster[i], daily[j], rec) {
        var i, j :| 0 <= i < |roster| && 0 <= j < |daily| && Supplies(roster[i], daily[j], rec);
        if i > 0 {
          assert Supplies(roster[1..][i - 1], daily[j], rec);
        }
      }
      if exists i, j :: 0 <= i < |roster[1..]| && 0 <= j < |daily| && Supplies(roster[1..][i], daily[j], rec) {
        var i, j :| 0 <= i < |roster[1..]| && 0 <= j < |daily| && Supplies(roster[1..][i], daily[j], rec);
        assert Supplies(roster[i + 1], daily[j], rec);
      }
    }
  }

  /** The number of records each roster row yields: its matches, or none when a cell is blank. */
  function MatchedRows(roster: seq<RosterRow>, daily: seq<TaggedRow>): nat
  {
    if roster == [] then 0
    else
      (if roster[0].employeeName.None? || roster[0].joinDate.None? then 0 else |Matches(roster[0].role, daily)|)
        + MatchedRows(roster[1..], daily)
  }

  /**
   * The table's length: unmatched roster rows and rows with a blank name or
   * join date add nothing, every other row adds one record per match.
   */
  lemma {:induction false} MergeLength(roster: seq<RosterRow>, daily: seq<TaggedRow>)
    ensures |Merge(roster, daily)| == MatchedRows(roster, daily)
  {
    if roster != [] {
      MergeLength(roster[1..], daily);
      assert roster == [roster[0]] + roster[1..];
      MergeAppend([roster[0]], roster[1..], daily);
      MergeOne(roster[0], daily);
    }
  }

  /** A roster row whose role no report lists leaves no record. */
  lemma UnmatchedRowDropped(row: RosterRow, daily: seq<TaggedRow>)
    requires forall j :: 0 <= j < |daily| ==> daily[j].role != row.role
    ensures Merge([row], daily) == []
  {
    MergeOne(row, daily);
    if Matches(row.role, daily) != [] {
      var t := Matches(row.role, daily)[0];
      MatchesMember(row.role, daily, t);
    }
  }

  /** The single-roster-row, single-report case: one employee under one team member. */
  lemma MergeExample()
    ensures Merge([RosterRow(Some("X"), Some("2024-01-01"), "Dev")], [TaggedRow("Dev", "John Smith")])
      == [Record("X", "2024-01-01", "Dev", "John Smith")]
  {
    MergeOne(RosterRow(Some("X"), Some("2024-01-01"), "Dev"), [TaggedRow("Dev", "John Smith")]);
    assert Matches("Dev", [TaggedRow("Dev", "John Smith")]) == [TaggedRow("Dev", "John Smith")];
  }
}
