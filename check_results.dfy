/** The result record of a check, and the rules by which each check turns
    what it observed into a record. What the checks observe (a path's
    existence and size, how `which` or a tool's `--version` run ended, the
    account list `gcloud auth list` printed) is given as an input value. */
module CheckResults {
  import opened PyStrings

  datatype Option<T> = None | Some(value: T)

  /** `{category, item, status, details}`, one entry of the results list. */
  datatype Record = Record(category: string, item: string, status: string, details: string)

  const OK: string := "OK"
  const MISSING: string := "MISSING"
  const ERROR: string := "ERROR"
  const WARNING: string := "WARNING"

  // ---------------------------------------------------------------------
  // check_file_exists

  /** What `os.path.exists` and `os.path.getsize` report for a path after
      `os.path.expanduser` has expanded it to `expandedPath`. */
  datatype FileProbe = FileProbe(expandedPath: string, present: bool, size: nat)

  /** `f"Size: {size} bytes"`; the byte count can be read back out of it,
      and its digits have no leading zero. */
  function SizeDetails(size: nat): (d: string)
    ensures ParseSizeDetails(d) == Some(size)
    ensures |d| >= 13 && (|d| == 13 || d[6] != '0')
  {
    var digits := NatToDecimal(size);
    var d := "Size: " + digits + " bytes";
    assert d[..6] == "Size: ";
    assert d[|d| - 6..] == " bytes";
    assert d[6..|d| - 6] == digits;
    DecimalRoundTrip(size);
    d
  }

  /** The record `check_file_exists` adds. */
  function FileRecord(probe: FileProbe, category: string, description: string): (r: Record)
    ensures r.category == category && r.item == description
    ensures r.status == OK <==> probe.present
    ensures r.status == MISSING <==> !probe.present
    ensures !probe.present ==> r.details == "Path: " + probe.expandedPath
    ensures probe.present ==> ParseSizeDetails(r.details) == Some(probe.size)
  {
    if probe.present then Record(category, description, OK, SizeDetails(probe.size))
    else Record(category, description, MISSING, "Path: " + probe.expandedPath)
  }

  /** Reads the byte count back out of a "Size: N bytes" detail. */
  function ParseSizeDetails(details: string): Option<nat> {
    var prefix, suffix := "Size: ", " bytes";
    if |details| >= |prefix| + |suffix|
       && details[..|prefix|] == prefix
       && details[|details| - |suffix|..] == suffix
       && IsDecimal(details[|prefix|..|details| - |suffix|])
    then Some(DecimalValue(details[|prefix|..|details| - |suffix|]))
    else None
  }

  // ---------------------------------------------------------------------
  // check_command_exists

  /** How `which <command>` ended: it ran and exited with `returncode`,
      printing `stdout`; or starting it raised an exception with `message`. */
  datatype WhichOutcome =
    | WhichRan(returncode: int, stdout: string)
    | WhichRaised(message: string)

  /** The value `check_command_exists` returns. */
  predicate CommandFound(outcome: WhichOutcome) {
    outcome.WhichRan? && outcome.returncode == 0
  }

  /** The record `check_command_exists` adds. */
  function CommandRecord(outcome: WhichOutcome, category: string, description: string): (r: Record)
    ensures r.category == category && r.item == description
    ensures r.status == OK <==> CommandFound(outcome)
    ensures r.status == MISSING <==> outcome.WhichRan? && outcome.returncode != 0
    ensures r.status == ERROR <==> outcome.WhichRaised?
    ensures CommandFound(outcome) ==> r.details == "Path: " + Strip(outcome.stdout)
    ensures outcome.WhichRan? && outcome.returncode != 0 ==> r.details == "Command not found"
    ensures outcome.WhichRaised? ==> r.details == outcome.message
  {
    match outcome
    case WhichRan(code, out) =>
      if code == 0 then Record(category, description, OK, "Path: " + Strip(out))
      else Record(category, description, MISSING, "Command not found")
    case WhichRaised(message) => Record(category, description, ERROR, message)
  }

  // ---------------------------------------------------------------------
  // check_command_version

  /** How `<command> --version` ended: it ran (with exit code and both output
      streams), it hit the 10-unit timeout, or it raised some other exception. */
  datatype VersionOutcome =
    | VersionRan(returncode: int, stdout: string, stderr: string)
    | VersionTimeout
    | VersionRaised(message: string)

  /** `stdout.strip().split('\n')[0]`: the first line of the trimmed output.
      It holds no newline, it is where the trimmed output begins, it stops
      only at a newline, and it is the whole trimmed output when that output
      is a single line. */
  function VersionLine(stdout: string): (line: string)
    ensures '\n' !in line
    ensures line <= Strip(stdout)
    ensures |line| < |Strip(stdout)| ==> Strip(stdout)[|line|] == '\n'
    ensures '\n' !in Strip(stdout) <==> line == Strip(stdout)
  {
    Split(Strip(stdout), '\n')[0]
  }

  function VersionItem(description: string): string {
    description + " (version)"
  }

  function InstalledItem(description: string): string {
    description + " (installed)"
  }

  /** The "(version)" record `check_command_version` adds once the command
      was found. */
  function VersionRecord(outcome: VersionOutcome, category: string, description: string): (r: Record)
    ensures r.category == category && r.item == VersionItem(description)
    ensures r.status == OK <==> outcome.VersionRan? && outcome.returncode == 0
    ensures r.status == ERROR <==> !(outcome.VersionRan? && outcome.returncode == 0)
    ensures r.status == OK ==> r.details == VersionLine(outcome.stdout) && '\n' !in r.details
    ensures outcome.VersionRan? && outcome.returncode != 0 ==> r.details == Strip(outcome.stderr)
    ensures outcome.VersionTimeout? ==> r.details == "Command timeout"
    ensures outcome.VersionRaised? ==> r.details == outcome.message
  {
    var item := VersionItem(description);
    match outcome
    case VersionRan(code, out, err) =>
      if code == 0 then Record(category, item, OK, VersionLine(out))
      else Record(category, item, ERROR, Strip(err))
    case VersionTimeout => Record(category, item, ERROR, "Command timeout")
    case VersionRaised(message) => Record(category, item, ERROR, message)
  }

  /** Everything `check_command_version` adds: the "(installed)" record, and
      the "(version)" record only when the command was found. */
  function CommandVersionRecords(which: WhichOutcome, version: VersionOutcome,
                                 category: string, description: string): (rs: seq<Record>)
    ensures |rs| == (if CommandFound(which) then 2 else 1)
    ensures rs[0] == CommandRecord(which, category, InstalledItem(description))
    ensures CommandFound(which) ==> rs[1] == VersionRecord(version, category, description)
    ensures forall k :: 0 <= k < |rs| ==> rs[k].category == category
    ensures forall k :: 0 <= k < |rs| && rs[k].item == VersionItem(description) ==> k == 1
  {
    var installed := CommandRecord(which, category, InstalledItem(description));
    assert |InstalledItem(description)| != |VersionItem(description)|;
    if CommandFound(which) then [installed, VersionRecord(version, category, description)]
    else [installed]
  }

  // ---------------------------------------------------------------------
  // check_gcp_credentials

  /** One entry of the parsed `gcloud auth list --format=json` array; either
      key may be absent. */
  datatype Account = Account(status: Option<string>, account: Option<string>)

  /** How `gcloud auth list` ended: it ran, and if it exited with 0 its
      output decoded to `accounts`; it hit the timeout; or it raised some
      other exception (a decoding failure among them). */
  datatype AuthOutcome =
    | AuthRan(returncode: int, accounts: seq<Account>, stderr: string)
    | AuthTimeout
    | AuthRaised(message: string)

  /** `acc.get('status') == 'ACTIVE'` */
  predicate IsActive(acc: Account) {
    acc.status == Some("ACTIVE")
  }

  /** `[acc for acc in accounts if acc.get('status') == 'ACTIVE']` */
  function ActiveAccounts(accounts: seq<Account>): (active: seq<Account>)
    ensures |active| <= |accounts|
    ensures forall k :: 0 <= k < |active| ==> IsActive(active[k])
    ensures forall k :: 0 <= k < |accounts| && IsActive(accounts[k]) ==> accounts[k] in active
    ensures forall a :: a in active ==> a in accounts
  {
    if accounts == [] then []
    else (if IsActive(accounts[0]) then [accounts[0]] else []) + ActiveAccounts(accounts[1..])
  }

  /** The filtered list is empty exactly when no account is active. */
  lemma {:induction false} ActiveAccountsEmpty(accounts: seq<Account>)
    ensures ActiveAccounts(accounts) == [] <==> forall k :: 0 <= k < |accounts| ==> !IsActive(accounts[k])
  {
    if accounts != [] {
      ActiveAccountsEmpty(accounts[1..]);
      assert forall k :: 1 <= k < |accounts| ==> accounts[1..][k - 1] == accounts[k];
    }
  }

  /** `active_accounts[0]` is the first ACTIVE account in list order. */
  lemma {:induction false} FirstActiveInListOrder(accounts: seq<Account>, k: nat)
    requires k < |accounts| && IsActive(accounts[k])
    requires forall j :: 0 <= j < k ==> !IsActive(accounts[j])
    ensures ActiveAccounts(accounts) != [] && ActiveAccounts(accounts)[0] == accounts[k]
  {
    if k > 0 {
      FirstActiveInListOrder(accounts[1..], k - 1);
    }
  }

  /** `str(KeyError('account'))`, raised when the first active account has
      no "account" key. */
  const MissingAccountKey: string := "'account'"

  /** The "Authentication" record of `check_gcp_credentials`, added once
      `gcloud` was found. */
  function GcpAuthRecord(outcome: AuthOutcome): (r: Record)
    ensures r.category == "GCP" && r.item == "Authentication"
    ensures r.status == OK || r.status == WARNING || r.status == ERROR
    ensures r.status == OK <==>
      outcome.AuthRan? && outcome.returncode == 0
      && ActiveAccounts(outcome.accounts) != [] && ActiveAccounts(outcome.accounts)[0].account.Some?
    ensures r.status == WARNING <==>
      outcome.AuthRan? && outcome.returncode == 0 && ActiveAccounts(outcome.accounts) == []
    ensures r.status == OK ==> r.details == "Active: " + ActiveAccounts(outcome.accounts)[0].account.value
    ensures outcome.AuthRan? && outcome.returncode != 0 ==> r.details == Strip(outcome.stderr)
    ensures r.status == WARNING ==> r.details == "No active accounts"
    ensures outcome.AuthRan? && outcome.returncode == 0
            && ActiveAccounts(outcome.accounts) != [] && ActiveAccounts(outcome.accounts)[0].account.None?
            ==> r.details == MissingAccountKey
    ensures outcome.AuthTimeout? ==> r.details == "Request timeout"
    ensures outcome.AuthRaised? ==> r.details == outcome.message
  {
    match outcome
    case AuthRan(code, accounts, err) =>
      if code != 0 then Record("GCP", "Authentication", ERROR, Strip(err))
      else
        var active := ActiveAccounts(accounts);
        if active == [] then Record("GCP", "Authentication", WARNING, "No active accounts")
        else if active[0].account.Some? then
          Record("GCP", "Authentication", OK, "Active: " + active[0].account.value)
        else Record("GCP", "Authentication", ERROR, MissingAccountKey)
    case AuthTimeout => Record("GCP", "Authentication", ERROR, "Request timeout")
    case AuthRaised(message) => Record("GCP", "Authentication", ERROR, message)
  }

  /** With a successful `gcloud auth list` whose ACTIVE accounts all carry
      an "account" key, authentication is OK iff some account is ACTIVE, the
      account reported is the first ACTIVE one, and otherwise it is a
      WARNING. */
  lemma GcpAuthenticationRule(outcome: AuthOutcome)
    requires outcome.AuthRan? && outcome.returncode == 0
    requires forall k :: 0 <= k < |outcome.accounts| && IsActive(outcome.accounts[k]) ==> outcome.accounts[k].account.Some?
    ensures GcpAuthRecord(outcome).status == OK <==>
      exists k :: 0 <= k < |outcome.accounts| && IsActive(outcome.accounts[k])
    ensures GcpAuthRecord(outcome).status == WARNING <==>
      forall k :: 0 <= k < |outcome.accounts| ==> !IsActive(outcome.accounts[k])
    ensures forall k :: 0 <= k < |outcome.accounts| && IsActive(outcome.accounts[k])
                        && (forall j :: 0 <= j < k ==> !IsActive(outcome.accounts[j]))
                        ==> GcpAuthRecord(outcome).details == "Active: " + outcome.accounts[k].account.value
  {
    var accounts := outcome.accounts;
    ActiveAccountsEmpty(accounts);
    forall k | 0 <= k < |accounts| && IsActive(accounts[k]) && (forall j :: 0 <= j < k ==> !IsActive(accounts[j]))
      ensures GcpAuthRecord(outcome).details == "Active: " + accounts[k].account.value
    {
      FirstActiveInListOrder(accounts, k);
    }
    var active := ActiveAccounts(accounts);
    if active != [] {
      assert active[0] in accounts;
    }
  }

  /** Everything `check_gcp_credentials` adds: the credentials-file record,
      the gcloud CLI record, and the authentication record only when
      `gcloud` was found. */
  function GcpRecords(credentials: FileProbe, which: WhichOutcome, auth: AuthOutcome): (rs: seq<Record>)
    ensures |rs| == (if CommandFound(which) then 3 else 2)
    ensures rs[0] == FileRecord(credentials, "GCP", "Application credentials")
    ensures rs[1] == CommandRecord(which, "GCP", "gcloud CLI")
    ensures CommandFound(which) ==> rs[2] == GcpAuthRecord(auth)
    ensures forall k :: 0 <= k < |rs| ==> rs[k].category == "GCP"
  {
    var head := [FileRecord(credentials, "GCP", "Application credentials"),
                 CommandRecord(which, "GCP", "gcloud CLI")];
    if CommandFound(which) then head + [GcpAuthRecord(auth)] else head
  }
}
