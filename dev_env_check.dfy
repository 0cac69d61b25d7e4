/** The checker object: a results list that the checks append to, and the
    report built from it. Each probe of the file system or of a command is
    passed in as its outcome; the report is returned instead of printed. */
module DevEnvCheck {
  import opened PyStrings
  import opened CheckResults
  import opened ResultsReport

  class DevEnvChecker {
    /** `self.results`, in the order the checks added them. */
    var results: seq<Record>

    constructor ()
      ensures results == []
    {
      results := [];
    }

    /** `add_result`: appends one record, after all earlier ones. */
    method AddResult(category: string, item: string, status: string, details: string := "")
      modifies this
      ensures results == old(results) + [Record(category, item, status, details)]
    {
      results := results + [Record(category, item, status, details)];
    }

    /** `check_file_exists`, given what the file system reports for the path. */
    method CheckFileExists(probe: FileProbe, category: string, description: string)
      modifies this
      ensures results == old(results) + [FileRecord(probe, category, description)]
    {
      if probe.present {
        AddResult(category, description, OK, SizeDetails(probe.size));
      } else {
        AddResult(category, description, MISSING, "Path: " + probe.expandedPath);
      }
    }

    /** `check_command_exists`, given how `which` ended; it reports success
        exactly when the record it adds is OK. */
    method CheckCommandExists(outcome: WhichOutcome, category: string, description: string)
      returns (found: bool)
      modifies this
      ensures results == old(results) + [CommandRecord(outcome, category, description)]
      ensures found == CommandFound(outcome)
      ensures found <==> results[|results| - 1].status == OK
    {
      match outcome
      case WhichRan(code, out) =>
        if code == 0 {
          AddResult(category, description, OK, "Path: " + Strip(out));
          found := true;
        } else {
          AddResult(category, description, MISSING, "Command not found");
          found := false;
        }
      case WhichRaised(message) =>
        AddResult(category, description, ERROR, message);
        found := false;
    }

    /** `check_command_version`, given how `which` and then the command's
        version query ended. */
    method CheckCommandVersion(which: WhichOutcome, version: VersionOutcome,
                               category: string, description: string)
      modifies this
      ensures results == old(results) + CommandVersionRecords(which, version, category, description)
    {
      var installed := CheckCommandExists(which, category, InstalledItem(description));
      if !installed {
        return;
      }
      var item := VersionItem(description);
      match version
      case VersionRan(code, out, err) =>
        if code == 0 {
          AddResult(category, item, OK, VersionLine(out));
        } else {
          AddResult(category, item, ERROR, Strip(err));
        }
      case VersionTimeout =>
        AddResult(category, item, ERROR, "Command timeout");
      case VersionRaised(message) =>
        AddResult(category, item, ERROR, message);
    }

    /** The "Authentication" step of `check_gcp_credentials`, given how
        `gcloud auth list` ended. */
    method CheckGcpAuthentication(auth: AuthOutcome)
      modifies this
      ensures results == old(results) + [GcpAuthRecord(auth)]
    {
      match auth
      case AuthRan(code, accounts, err) =>
        if code == 0 {
          var active := ActiveAccounts(accounts);
          if active == [] {
            AddResult("GCP", "Authentication", WARNING, "No active accounts");
          } else if active[0].account.Some? {
            AddResult("GCP", "Authentication", OK, "Active: " + active[0].account.value);
          } else {
            AddResult("GCP", "Authentication", ERROR, MissingAccountKey);
          }
        } else {
          AddResult("GCP", "Authentication", ERROR, Strip(err));
        }
      case AuthTimeout =>
        AddResult("GCP", "Authentication", ERROR, "Request timeout");
      case AuthRaised(message) =>
        AddResult("GCP", "Authentication", ERROR, message);
    }

    /** `check_gcp_credentials`, given what the file system reports for the
        credentials file and how `which gcloud` and `gcloud auth list` ended. */
    method CheckGcpCredentials(credentials: FileProbe, which: WhichOutcome, auth: AuthOutcome)
      modifies this
      ensures results == old(results) + GcpRecords(credentials, which, auth)
    {
      CheckFileExists(credentials, "GCP", "Application credentials");
      var found := CheckCommandExists(which, "GCP", "gcloud CLI");
      if found {
        CheckGcpAuthentication(auth);
      }
    }

    /** `print_results`: one section per category in order of first
        appearance, each listing its records in the order they were added,
        then the tallies. Every record is printed once, and the tallies never
        exceed the total. */
    method PrintResults() returns (report: Report)
      ensures report.sections == Sections(results)
      ensures report.summary == SummaryOf(results)
      ensures TotalRows(report.sections) == report.summary.total == |results|
      ensures report.summary.passed + report.summary.failed + report.summary.warnings <= report.summary.total
    {
      var order, groups := GroupByCategory(results);
      var sections: seq<Section> := [];
      var i := 0;
      while i < |order|
        invariant 0 <= i <= |order|
        invariant sections == SectionsFor(results, order[..i])
      {
        var category := order[i];
        var items := groups[category];
        var rows: seq<Row> := [];
        var j := 0;
        while j < |items|
          invariant 0 <= j <= |items|
          invariant rows == Rows(items[..j])
        {
          RowsStep(items, j);
          rows := rows + [RowOf(items[j])];
          j := j + 1;
        }
        assert items[..j] == items;
        SectionsForStep(results, order, i);
        sections := sections + [Section(category, rows)];
        i := i + 1;
      }
      assert order[..i] == order;
      report := Report(sections, SummaryOf(results));
      EveryRecordPrintedOnce(results);
      SummaryCountsDisjoint(results);
    }
  }
}
