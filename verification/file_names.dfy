/**
 * The three pieces of file-name logic in the upload handler: the extension
 * whitelist (`allowed_file`), the name-prefix test (`validate_filename`) with
 * the two prefixes the handler tries for each kind of file, and the
 * extraction of a team member's name from a daily report's file name.
 */
module FileNames {
  import opened Wrappers
  import opened Text

  /** The extensions `allowed_file` accepts, compared after lower-casing. */
  const ALLOWED_EXTENSIONS: set<string> := {"xlsx", "xls"}

  // ---------------------------------------------------------------------
  // allowed_file
  // ---------------------------------------------------------------------

  /** `allowed_file`: the name has a dot and its text after the last dot, lower-cased, is whitelisted. */
  predicate AllowedFile(filename: string)
  {
    match LastIndexOf(filename, '.')
    case None => false
    case Some(i) => Lower(filename[i + 1..]) in ALLOWED_EXTENSIONS
  }

  /** Position `i` holds the last dot of `filename` and a whitelisted extension follows it. */
  predicate ExtensionAt(filename: string, i: nat)
  {
    i < |filename| && filename[i] == '.' && '.' !in filename[i + 1..] &&
    Lower(filename[i + 1..]) in ALLOWED_EXTENSIONS
  }

  /** The whitelist test, both ways: some dot is followed by a dot-free, whitelisted extension. */
  lemma AllowedFileIff(filename: string)
    ensures AllowedFile(filename) <==> exists i :: ExtensionAt(filename, i)
  {
    if AllowedFile(filename) {
      assert ExtensionAt(filename, LastIndexOf(filename, '.').value);
    }
    if exists i :: ExtensionAt(filename, i) {
      var i :| ExtensionAt(filename, i);
      LastDotIsUnique(filename, i);
    }
  }

  /** A dot with no dot after it is the one `LastIndexOf` finds. */
  lemma LastDotIsUnique(filename: string, i: nat)
    requires i < |filename| && filename[i] == '.' && '.' !in filename[i + 1..]
    ensures LastIndexOf(filename, '.') == Some(i)
  {
    var r := LastIndexOf(filename, '.');
    assert filename[i] in filename;
    var j := r.value;
    assert forall k :: j < k < |filename| ==> filename[k] == filename[j + 1..][k - j - 1];
    assert forall k :: i < k < |filename| ==> filename[k] == filename[i + 1..][k - i - 1];
  }

  /** An upper-case extension passes: the comparison is made after lower-casing. */
  lemma AllowedFileUpperCase()
    ensures AllowedFile("a.XLSX")
  {
    assert "a.XLSX"[2..] == "XLSX";
    LastDotIsUnique("a.XLSX", 1);
    assert Lower("XLSX") == "xlsx";
  }

  /** Only the text after the last dot is the extension. */
  lemma AllowedFileDottedStem()
    ensures AllowedFile("a.b.xls")
  {
    assert "a.b.xls"[4..] == "xls" && "a.b.xls"[3] == '.';
    LastDotIsUnique("a.b.xls", 3);
    assert Lower("xls") == "xls";
  }

  /** A name without a dot and a CSV file are refused. */
  lemma AllowedFileRejects()
    ensures !AllowedFile("xlsx")
    ensures !AllowedFile("Report.csv")
  {
    assert "Report.csv"[7..] == "csv";
    LastDotIsUnique("Report.csv", 6);
    assert Lower("csv") == "csv";
  }

  // ---------------------------------------------------------------------
  // validate_filename
  // ---------------------------------------------------------------------

  /**
   * `validate_filename`: with every space turned into an underscore, the name
   * starts with `expectedPrefix` (taken as given) and ends with `.xlsx` or
   * `.xls`, letter case included.
   */
  predicate ValidateFilename(filename: string, expectedPrefix: string)
  {
    var formatted := ReplaceSpaces(filename);
    StartsWith(formatted, expectedPrefix) && (EndsWith(formatted, ".xlsx") || EndsWith(formatted, ".xls"))
  }

  /** Two characters that are equal, or are each a space or an underscore. */
  predicate SameUpToSpace(x: char, y: char)
  {
    x == y || ((x == ' ' || x == '_') && (y == ' ' || y == '_'))
  }

  /** Names that differ only in spaces against underscores get the same verdict. */
  lemma ValidateFilenameSpaceBlind(f: string, g: string, expectedPrefix: string)
    requires |f| == |g|
    requires forall i :: 0 <= i < |f| ==> SameUpToSpace(f[i], g[i])
    ensures ValidateFilename(f, expectedPrefix) == ValidateFilename(g, expectedPrefix)
  {
    assert ReplaceSpaces(f) == ReplaceSpaces(g);
  }

  /** A prefix with a space in it never matches: the formatted name has no spaces left. */
  lemma SpacedPrefixRejects(filename: string, expectedPrefix: string)
    requires ' ' in expectedPrefix
    ensures !ValidateFilename(filename, expectedPrefix)
  {
  }

  /** A name the prefix test accepts has an Excel extension, so `allowed_file` accepts it too. */
  lemma ValidateImpliesAllowed(filename: string, expectedPrefix: string)
    requires ValidateFilename(filename, expectedPrefix)
    ensures AllowedFile(filename)
  {
    if EndsWith(ReplaceSpaces(filename), ".xlsx") {
      ExcelSuffixAllowed(filename, "xlsx");
    } else {
      ExcelSuffixAllowed(filename, "xls");
    }
  }

  /** A name whose formatted form ends in `.xlsx` or `.xls` ends in it already and is allowed. */
  lemma ExcelSuffixAllowed(filename: string, ext: string)
    requires ext == "xlsx" || ext == "xls"
    requires EndsWith(ReplaceSpaces(filename), "." + ext)
    ensures AllowedFile(filename)
  {
    var formatted := ReplaceSpaces(filename);
    var dot := |filename| - |ext| - 1;
    forall k | dot <= k < |filename|
      ensures filename[k] == ("." + ext)[k - dot]
    {
      assert formatted[dot..][k - dot] == formatted[k];
    }
    assert filename[dot + 1..] == ext;
    LowerKeepsExtensions();
    AllowedAt(filename, dot);
  }

  /** A last dot followed by a whitelisted extension makes the name allowed. */
  lemma AllowedAt(filename: string, dot: nat)
    requires dot < |filename| && filename[dot] == '.' && '.' !in filename[dot + 1..]
    requires Lower(filename[dot + 1..]) in ALLOWED_EXTENSIONS
    ensures AllowedFile(filename)
  {
    LastDotIsUnique(filename, dot);
  }

  /** Lower-casing leaves the whitelisted extensions as they are. */
  lemma LowerKeepsExtensions()
    ensures Lower("xlsx") == "xlsx" && Lower("xls") == "xls"
  {
  }

  /** `allowed_file` accepts an upper-case roster extension... */
  lemma ExtensionCaseAllowed()
    ensures AllowedFile("New_Employee_1.XLSX")
  {
    var f := "New_Employee_1.XLSX";
    assert f[14] == '.' && f[15..] == "XLSX";
    LastDotIsUnique(f, 14);
    assert Lower("XLSX") == "xlsx";
  }

  /** ...which the name test, case-sensitive on the extension, then refuses. */
  lemma ExtensionCaseNotValidated()
    ensures !ValidateFilename("New_Employee_1.XLSX", "New_Employee")
  {
    var formatted := ReplaceSpaces("New_Employee_1.XLSX");
    assert formatted[18] == 'X';
    assert formatted[|formatted| - 5..][4] == 'X';
    assert formatted[|formatted| - 4..][3] == 'X';
  }

  /** The roster-file test of the handler: either prefix spelling is accepted. */
  predicate IsRosterName(filename: string)
  {
    ValidateFilename(filename, "New_Employee") || ValidateFilename(filename, "New Employee")
  }

  /** The daily-report test of the handler: either prefix spelling is accepted. */
  predicate IsReportName(filename: string)
  {
    ValidateFilename(filename, "Daily_report") || ValidateFilename(filename, "Daily Report")
  }

  /** The spaced fallback prefixes never match, so only the underscore spellings decide. */
  lemma FallbackPrefixesDead(filename: string)
    ensures IsRosterName(filename) == ValidateFilename(filename, "New_Employee")
    ensures IsReportName(filename) == ValidateFilename(filename, "Daily_report")
  {
    assert "New Employee"[3] == ' ';
    SpacedPrefixRejects(filename, "New Employee");
    assert "Daily Report"[5] == ' ';
    SpacedPrefixRejects(filename, "Daily Report");
  }

  /** The prefix test on a name whose formatted form is already known. */
  lemma ValidateFormatted(filename: string, formatted: string, expectedPrefix: string)
    requires ReplaceSpaces(filename) == formatted
    requires |expectedPrefix| <= |formatted| && formatted[..|expectedPrefix|] == expectedPrefix
    requires |formatted| >= 5 && formatted[|formatted| - 5..] == ".xlsx"
    ensures ValidateFilename(filename, expectedPrefix)
  {
  }

  /** A name without spaces is its own formatted form. */
  lemma ReplaceSpacesNone(s: string)
    requires ' ' !in s
    ensures ReplaceSpaces(s) == s
  {
  }

  /** A name with a single space is formatted by turning that space into an underscore. */
  lemma ReplaceOneSpace(a: string, b: string)
    requires ' ' !in a && ' ' !in b
    ensures ReplaceSpaces(a + " " + b) == a + "_" + b
  {
    var f := a + " " + b;
    var g := a + "_" + b;
    forall i | 0 <= i < |f|
      ensures ReplaceSpaces(f)[i] == g[i]
    {
      if i < |a| {
        assert f[i] == a[i] && g[i] == a[i];
      } else if i > |a| {
        assert f[i] == b[i - |a| - 1] && g[i] == b[i - |a| - 1];
      }
    }
  }

  /** Formatting works piece by piece. */
  lemma ReplaceSpacesAppend(a: string, b: string)
    ensures ReplaceSpaces(a + b) == ReplaceSpaces(a) + ReplaceSpaces(b)
  {
    var r := ReplaceSpaces(a) + ReplaceSpaces(b);
    forall i | 0 <= i < |a + b|
      ensures ReplaceSpaces(a + b)[i] == r[i]
    {
      if i >= |a| {
        assert (a + b)[i] == b[i - |a|];
      }
    }
  }

  /** The formatted form of `prefix + rest + ext`, where `prefix` formats to `formatted` and `ext` has no space. */
  lemma FormattedParts(prefix: string, formatted: string, rest: string, ext: string)
    requires ReplaceSpaces(prefix) == formatted && ' ' !in ext
    ensures ReplaceSpaces(prefix + rest + ext) == formatted + ReplaceSpaces(rest) + ext
  {
    ReplaceSpacesAppend(prefix + rest, ext);
    ReplaceSpacesAppend(prefix, rest);
    ReplaceSpacesNone(ext);
  }

  /** A name that formats to `prefix + middle + ".xlsx"` passes the test for `prefix`. */
  lemma PrefixAndXlsx(filename: string, prefix: string, middle: string)
    requires ReplaceSpaces(filename) == prefix + middle + ".xlsx"
    ensures ValidateFilename(filename, prefix)
  {
    var g := prefix + middle + ".xlsx";
    assert g[..|prefix|] == prefix;
    assert g[|g| - 5..] == ".xlsx";
    ValidateFormatted(filename, g, prefix);
  }

  /**
   * Both spellings of the roster prefix that the handler tries pass, whatever
   * follows the prefix before `.xlsx`.
   */
  lemma RosterNameForms(rest: string)
    ensures IsRosterName("New Employee" + rest + ".xlsx")
    ensures IsRosterName("New_Employee" + rest + ".xlsx")
  {
    assert "New Employee" == "New" + " " + "Employee";
    ReplaceOneSpace("New", "Employee");
    FormattedParts("New Employee", "New_Employee", rest, ".xlsx");
    PrefixAndXlsx("New Employee" + rest + ".xlsx", "New_Employee", ReplaceSpaces(rest));
    ReplaceSpacesNone("New_Employee");
    FormattedParts("New_Employee", "New_Employee", rest, ".xlsx");
    PrefixAndXlsx("New_Employee" + rest + ".xlsx", "New_Employee", ReplaceSpaces(rest));
  }

  /**
   * Both spellings of the report prefix pass when "report" is lower-case,
   * whatever follows it before `.xlsx`.
   */
  lemma ReportNameForms(rest: string)
    ensures IsReportName("Daily report" + rest + ".xlsx")
    ensures IsReportName("Daily_report" + rest + ".xlsx")
  {
    assert "Daily report" == "Daily" + " " + "report";
    ReplaceOneSpace("Daily", "report");
    FormattedParts("Daily report", "Daily_report", rest, ".xlsx");
    PrefixAndXlsx("Daily report" + rest + ".xlsx", "Daily_report", ReplaceSpaces(rest));
    ReplaceSpacesNone("Daily_report");
    FormattedParts("Daily_report", "Daily_report", rest, ".xlsx");
    PrefixAndXlsx("Daily_report" + rest + ".xlsx", "Daily_report", ReplaceSpaces(rest));
  }

  /** A capital R in "Daily Report" is refused: the spaced fallback that would take it never matches. */
  lemma CapitalReportRejected(rest: string)
    ensures !IsReportName("Daily Report" + rest)
  {
    var f := "Daily Report" + rest;
    FallbackPrefixesDead(f);
    assert f[6] == 'R';
    assert ReplaceSpaces(f)[6] == 'R' && "Daily_report"[6] == 'r';
  }

  // ---------------------------------------------------------------------
  // Team-member extraction
  // ---------------------------------------------------------------------

  /** Why extraction fails: the token index Python could not read (2 or 3). */
  datatype ExtractError = TokenMissing(index: nat)

  /**
   * The raw report name with every `Daily_report_` and then every `.xlsx`
   * deleted. Spaces are not normalised here, unlike in the prefix test.
   */
  function StrippedReportName(filename: string): string
  {
    RemoveAll(RemoveAll(filename, "Daily_report_"), ".xlsx")
  }

  /**
   * The team member a daily report is filed under: tokens 2 and 3 (from 0)
   * of the stripped name split at `_`, joined by one space. Fewer than four
   * tokens is the handler's IndexError, on index 2 first, then index 3.
   */
  function TeamMember(filename: string): Result<string, ExtractError>
  {
    var parts := Split(StrippedReportName(filename), '_');
    if |parts| < 3 then Failure(TokenMissing(2))
    else if |parts| < 4 then Failure(TokenMissing(3))
    else Success(parts[2] + " " + parts[3])
  }

  /** Extraction fails exactly when the stripped name has fewer than three underscores. */
  lemma TeamMemberFailsIff(filename: string)
    ensures TeamMember(filename).Failure? <==> Occurrences(StrippedReportName(filename), '_') < 3
    ensures TeamMember(filename).Failure? ==>
      TeamMember(filename).error.index == (if Occurrences(StrippedReportName(filename), '_') < 2 then 2 else 3)
  {
  }

  /**
   * On a stripped name `a_b_c_d...` whose fourth token is `d`, the team
   * member is `c d`: later tokens are ignored.
   */
  lemma TeamMemberOfShape(filename: string, a: string, b: string, c: string, d: string, rest: string)
    requires StrippedReportName(filename) == a + "_" + b + "_" + c + "_" + d + rest
    requires '_' !in a && '_' !in b && '_' !in c && '_' !in d
    requires rest == "" || rest[0] == '_'
    ensures TeamMember(filename) == Success(c + " " + d)
  {
    var t3 := d + rest;
    var t2 := c + "_" + t3;
    var t1 := b + "_" + t2;
    var s := a + "_" + t1;
    assert StrippedReportName(filename) == s by { RegroupTokens(a, b, c, d, rest); }
    var p3 := Split(t3, '_');
    assert p3[0] == d by { SplitFirstPiece(d, rest, '_'); }
    var p2 := Split(t2, '_');
    assert p2 == [c] + p3 by { SplitAtFirst(c, t3, '_'); }
    var p1 := Split(t1, '_');
    assert p1 == [b] + p2 by { SplitAtFirst(b, t2, '_'); }
    assert Split(s, '_') == [a] + p1 by { SplitAtFirst(a, t1, '_'); }
  }

  /** Regrouping a name of four tokens so that it can be split one token at a time. */
  lemma RegroupTokens(a: string, b: string, c: string, d: string, rest: string)
    ensures a + "_" + b + "_" + c + "_" + d + rest == a + "_" + (b + "_" + (c + "_" + (d + rest)))
  {
  }

  /** Regrouping a report name so that its prefix stands apart from the rest. */
  lemma RegroupName(prefix: string, date: string, first: string, last: string, ext: string)
    ensures prefix + date + "_" + first + "_" + last + ext == prefix + (date + "_" + first + "_" + last + ext)
  {
  }

  /** A piece of a report name between separators: no underscore and no dot. */
  predicate NamePiece(x: string)
  {
    '_' !in x && '.' !in x
  }

  /** No `Daily_report_` starts inside the spaced prefix `Daily report_`. */
  lemma SpacedPrefixKept(rest: string)
    ensures RemoveAll("Daily report_" + rest, "Daily_report_") == "Daily report_" + RemoveAll(rest, "Daily_report_")
  {
    assert "Daily report_"[5] != "Daily_report_"[5];
    assert 'D' !in "Daily report_"[1..];
    RemoveAllKeepsMismatch("Daily report_", rest, "Daily_report_", 5);
  }

  /**
   * The date, first-name and surname part of a report name keeps any text
   * after the prefix: no `Daily_report_` can start in the date, which has no
   * `D`, and none can start later, where fewer than two underscores remain.
   */
  lemma NamePartStripped(date: string, first: string, last: string, ext: string)
    requires NamePiece(date) && NamePiece(first) && NamePiece(last)
    requires 'D' !in date
    requires ext == ".xlsx" || ext == ".xls"
    ensures RemoveAll(date + "_" + first + "_" + last + ext, "Daily_report_") == date + "_" + first + "_" + last + ext
  {
    var skipped := date + "_";
    var tail := first + "_" + last + ext;
    assert date + "_" + first + "_" + last + ext == skipped + tail;
    RemoveAllSkips(skipped, tail, "Daily_report_");
    OneUnderscore(first, last + ext);
    assert tail == first + "_" + (last + ext);
    ReportPrefixUnderscores();
    RemoveAllTooFew(tail, "Daily_report_", '_');
  }

  /** `Daily_report_` has two underscores. */
  lemma ReportPrefixUnderscores()
    ensures Occurrences("Daily_report_", '_') == 2
  {
    assert "Daily_report_" == "Daily" + "_" + "report" + "_";
    OneUnderscore("Daily", "report");
    OccurrencesAppend("Daily" + "_" + "report", "_", '_');
  }

  /** Two underscore-free pieces joined by one underscore have one underscore. */
  lemma OneUnderscore(a: string, b: string)
    requires '_' !in a && '_' !in b
    ensures Occurrences(a + "_" + b, '_') == 1
  {
    OccurrencesAppend(a + "_", b, '_');
    OccurrencesAppend(a, "_", '_');
    OccurrencesNone(a, '_');
    OccurrencesNone(b, '_');
  }

  /** Splitting `<date>_<first>_<last>` gives its three pieces. */
  lemma SplitNamePart(date: string, first: string, last: string)
    requires NamePiece(date) && NamePiece(first) && NamePiece(last)
    ensures Split(date + "_" + first + "_" + last, '_') == [date, first, last]
  {
    assert date + "_" + first + "_" + last == date + "_" + (first + "_" + last);
    SplitAtFirst(date, first + "_" + last, '_');
    SplitAtFirst(first, last, '_');
    SplitNone(last, '_');
  }

  /**
   * In the space form `Daily report_<date>_<first>_<last>.xlsx`, "Daily report"
   * stays token 0 and the team member is `<first> <last>`; so
   * `Daily report_20240101_Jane_Doe.xlsx` is filed under `Jane Doe`.
   */
  lemma TeamMemberSpaceForm(date: string, first: string, last: string)
    requires NamePiece(date) && NamePiece(first) && NamePiece(last)
    requires 'D' !in date
    ensures TeamMember("Daily report_" + date + "_" + first + "_" + last + ".xlsx") == Success(first + " " + last)
  {
    var f := "Daily report_" + date + "_" + first + "_" + last + ".xlsx";
    SpaceFormStripped(date, first, last);
    assert "Daily report_" + date + "_" + first + "_" + last == "Daily report" + "_" + date + "_" + first + "_" + last + "";
    TeamMemberOfShape(f, "Daily report", date, first, last, "");
  }

  /** In the spaced form only the trailing `.xlsx` is deleted. */
  lemma SpaceFormStripped(date: string, first: string, last: string)
    requires NamePiece(date) && NamePiece(first) && NamePiece(last)
    requires 'D' !in date
    ensures StrippedReportName("Daily report_" + date + "_" + first + "_" + last + ".xlsx")
      == "Daily report_" + date + "_" + first + "_" + last
  {
    var kept := "Daily report_" + date + "_" + first + "_" + last;
    SpaceFormPrefixKept(date, first, last);
    NoDotInName("Daily report_", date, first, last);
    RemoveAllSuffix(kept, ".xlsx");
  }

  /** A name built from dot-free pieces has no dot. */
  lemma NoDotInName(prefix: string, date: string, first: string, last: string)
    requires '.' !in prefix
    requires NamePiece(date) && NamePiece(first) && NamePiece(last)
    ensures '.' !in prefix + date + "_" + first + "_" + last
  {
  }

  /** In the spaced form no `Daily_report_` occurs. */
  lemma SpaceFormPrefixKept(date: string, first: string, last: string)
    requires NamePiece(date) && NamePiece(first) && NamePiece(last)
    requires 'D' !in date
    ensures var f := "Daily report_" + date + "_" + first + "_" + last + ".xlsx";
      RemoveAll(f, "Daily_report_") == f
  {
    RegroupName("Daily report_", date, first, last, ".xlsx");
    SpacedPrefixKept(date + "_" + first + "_" + last + ".xlsx");
    NamePartStripped(date, first, last, ".xlsx");
  }

  /**
   * In the underscore form `Daily_report_<date>_<first>_<last>.xlsx` the
   * prefix is deleted with its two tokens, three tokens remain, and reading
   * token 3 fails; so `Daily_report_20240101_John_Smith.xlsx` has no team member.
   */
  lemma TeamMemberUnderscoreForm(date: string, first: string, last: string)
    requires NamePiece(date) && NamePiece(first) && NamePiece(last)
    requires 'D' !in date
    ensures TeamMember("Daily_report_" + date + "_" + first + "_" + last + ".xlsx") == Failure(TokenMissing(3))
  {
    var part := date + "_" + first + "_" + last;
    var f := "Daily_report_" + date + "_" + first + "_" + last + ".xlsx";
    assert f == "Daily_report_" + (part + ".xlsx");
    RemoveAllDeletes(part + ".xlsx", "Daily_report_");
    NamePartStripped(date, first, last, ".xlsx");
    RemoveAllSuffix(part, ".xlsx");
    SplitNamePart(date, first, last);
  }

  /** A `.xls` ending is too short to hold `.xlsx` and is kept. */
  lemma XlsKept(body: string)
    requires '.' !in body
    ensures RemoveAll(body + ".xls", ".xlsx") == body + ".xls"
  {
    RemoveAllSkips(body, ".xls", ".xlsx");
    assert RemoveAll(".xls", ".xlsx") == ".xls";
  }

  /**
   * Only `.xlsx` is deleted: with a `.xls` extension the suffix stays on
   * token 3 and so on the team member.
   */
  lemma TeamMemberKeepsXls(date: string, first: string, last: string)
    requires NamePiece(date) && NamePiece(first) && NamePiece(last)
    requires 'D' !in date
    ensures TeamMember("Daily report_" + date + "_" + first + "_" + last + ".xls") == Success(first + " " + last + ".xls")
  {
    var f := "Daily report_" + date + "_" + first + "_" + last + ".xls";
    XlsFormStripped(date, first, last);
    assert StrippedReportName(f) == "Daily report" + "_" + date + "_" + first + "_" + (last + ".xls") + "" by {
      assert f == "Daily report" + "_" + date + "_" + first + "_" + (last + ".xls") + "";
    }
    TeamMemberOfShape(f, "Daily report", date, first, last + ".xls", "");
    assert first + " " + (last + ".xls") == first + " " + last + ".xls";
  }

  /** Neither deletion touches a spaced report name with a `.xls` extension. */
  lemma XlsFormStripped(date: string, first: string, last: string)
    requires NamePiece(date) && NamePiece(first) && NamePiece(last)
    requires 'D' !in date
    ensures var f := "Daily report_" + date + "_" + first + "_" + last + ".xls"; StrippedReportName(f) == f
  {
    var part := date + "_" + first + "_" + last;
    var f := "Daily report_" + date + "_" + first + "_" + last + ".xls";
    assert RemoveAll(f, "Daily_report_") == f by {
      assert f == "Daily report_" + (part + ".xls");
      SpacedPrefixKept(part + ".xls");
      NamePartStripped(date, first, last, ".xls");
    }
    assert f == ("Daily report_" + part) + ".xls";
    assert '.' !in "Daily report_" && '.' !in part;
    XlsKept("Daily report_" + part);
  }

  /**
   * The condition on the date cannot be dropped: with the date `Daily` and
   * the first name `report`, the spaced name holds `Daily_report_`, which is
   * deleted, and too few tokens remain for a team member.
   */
  lemma ReportPrefixInsideName(last: string)
    requires NamePiece(last)
    ensures TeamMember("Daily report_" + "Daily_report_" + last + ".xlsx") == Failure(TokenMissing(2))
  {
    var f := "Daily report_" + "Daily_report_" + last + ".xlsx";
    InsideNameStripped(last);
    OneUnderscore("Daily report", last);
    assert "Daily report_" + last == "Daily report" + "_" + last;
    TeamMemberFailsIff(f);
  }

  /** The inner `Daily_report_` is the one deleted, and then the `.xlsx`. */
  lemma InsideNameStripped(last: string)
    requires NamePiece(last)
    ensures StrippedReportName("Daily report_" + "Daily_report_" + last + ".xlsx") == "Daily report_" + last
  {
    InsideNameDeleted(last);
    assert '.' !in "Daily report_" + last;
    RemoveAllSuffix("Daily report_" + last, ".xlsx");
  }

  /** Deleting `Daily_report_` from the name with the date `Daily` and the first name `report`. */
  lemma InsideNameDeleted(last: string)
    requires NamePiece(last)
    ensures RemoveAll("Daily report_" + "Daily_report_" + last + ".xlsx", "Daily_report_") == "Daily report_" + last + ".xlsx"
  {
    var tail := last + ".xlsx";
    SpacedPrefixKept("Daily_report_" + tail);
    RemoveAllDeletes(tail, "Daily_report_");
    NoUnderscoreKept(tail);
    DeleteInner("Daily report_", "Daily_report_", last, ".xlsx");
  }

  /**
   * When `p` is kept and the `q` after it is deleted, `p + q + t` comes out as
   * `p + t`, for `t` kept whole.
   */
  lemma DeleteInner(p: string, q: string, last: string, ext: string)
    requires |q| > 0
    requires RemoveAll(p + (q + (last + ext)), q) == p + RemoveAll(q + (last + ext), q)
    requires RemoveAll(q + (last + ext), q) == RemoveAll(last + ext, q)
    requires RemoveAll(last + ext, q) == last + ext
    ensures RemoveAll(p + q + last + ext, q) == p + last + ext
  {
    assert p + q + last + ext == p + (q + (last + ext));
  }

  /** Text without an underscore holds no `Daily_report_` and is kept. */
  lemma NoUnderscoreKept(t: string)
    requires '_' !in t
    ensures RemoveAll(t, "Daily_report_") == t
  {
    OccurrencesNone(t, '_');
    ReportPrefixUnderscores();
    RemoveAllTooFew(t, "Daily_report_", '_');
  }

  /**
   * A report name in the underscore form passes both file-name checks and is
   * accepted for upload, yet extracting its team member fails.
   */
  lemma ValidatedNameMayFailExtraction(date: string, first: string, last: string)
    requires NamePiece(date) && NamePiece(first) && NamePiece(last)
    requires 'D' !in date
    ensures AllowedFile("Daily_report_" + date + "_" + first + "_" + last + ".xlsx")
    ensures IsReportName("Daily_report_" + date + "_" + first + "_" + last + ".xlsx")
    ensures TeamMember("Daily_report_" + date + "_" + first + "_" + last + ".xlsx").Failure?
  {
    var f := "Daily_report_" + date + "_" + first + "_" + last + ".xlsx";
    UnderscoreFormNamed(date, first, last);
    FallbackPrefixesDead(f);
    ValidateImpliesAllowed(f, "Daily_report");
    TeamMemberUnderscoreForm(date, first, last);
  }

  /** A report name in the underscore form, with any date, first name and surname, passes the report-name test. */
  lemma UnderscoreFormNamed(date: string, first: string, last: string)
    ensures IsReportName("Daily_report_" + date + "_" + first + "_" + last + ".xlsx")
  {
    ReportNameForms("_" + date + "_" + first + "_" + last);
    assert "Daily_report_" == "Daily_report" + "_";
    RegroupTail("Daily_report", "_", date, first, last, ".xlsx");
  }

  /** A report name in the spaced form, with any date, first name and surname, passes the report-name test. */
  lemma SpacedFormNamed(date: string, first: string, last: string)
    ensures IsReportName("Daily report_" + date + "_" + first + "_" + last + ".xlsx")
  {
    ReportNameForms("_" + date + "_" + first + "_" + last);
    assert "Daily report_" == "Daily report" + "_";
    RegroupTail("Daily report", "_", date, first, last, ".xlsx");
  }

  /** Regrouping a report name so that everything between prefix and extension stands together. */
  lemma RegroupTail(prefix: string, sep: string, date: string, first: string, last: string, ext: string)
    ensures (prefix + sep) + date + "_" + first + "_" + last + ext == prefix + (sep + date + "_" + first + "_" + last) + ext
  {
  }
}
