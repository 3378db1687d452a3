/**
  Virtual-MFA enrichment inside resourceAwsIamCredentialReportRead: device
  serials are matched against ^arn:aws:iam::[0-9]+:mfa/(.*)$, the captured
  names are gathered into a set, and every report row whose user is in the
  set has its mfaVirtual field set.
 */
module VirtualMfa {
  import opened Wrappers
  import opened CredentialReport

  const SerialPrefix := "arn:aws:iam::"
  const SerialInfix := ":mfa/"

  /** The device name AWS gives the root account's virtual MFA device, and
      the user name the credential report gives the root account. */
  const RootDeviceName := "root-account-mfa-device"
  const RootAccountUser := "<root_account>"

  /** The character class [0-9]: ASCII digits only. */
  predicate IsDigit(c: char)
  {
    '0' <= c <= '9'
  }

  /** An account id as the pattern accepts it: one or more digits. */
  predicate IsAccountId(account: string)
  {
    |account| > 0 && forall i :: 0 <= i < |account| ==> IsDigit(account[i])
  }

  /** The length of the longest run of digits at the start of `s`. */
  function DigitRun(s: string): (n: nat)
    ensures n <= |s|
    ensures forall i :: 0 <= i < n ==> IsDigit(s[i])
    ensures n < |s| ==> !IsDigit(s[n])
  {
    if s != [] && IsDigit(s[0]) then 1 + DigitRun(s[1..]) else 0
  }

  /** Submatch 1 of the serial pattern, hand-coded.  The match is anchored at
      both ends; [0-9]+ must stop at the ':' of ":mfa/", so the digit run is
      the longest one; under RE2 '.' does not match a newline and '$' is the
      end of the text, so the captured rest may hold no '\n'. */
  function SerialSubmatch(serial: string): Option<string>
  {
    if |serial| < |SerialPrefix| || serial[..|SerialPrefix|] != SerialPrefix then None
    else
      var rest := serial[|SerialPrefix|..];
      var n := DigitRun(rest);
      var tail := rest[n..];
      if n == 0 || |tail| < |SerialInfix| || tail[..|SerialInfix|] != SerialInfix then None
      else if '\n' in tail[|SerialInfix|..] then None
      else Some(tail[|SerialInfix|..])
  }

  /** Every serial of the documented shape matches, capturing its name. */
  lemma SerialSubmatchComplete(account: string, name: string)
    requires IsAccountId(account) && '\n' !in name
    ensures SerialSubmatch(SerialPrefix + account + SerialInfix + name) == Some(name)
  {
    var serial := SerialPrefix + account + SerialInfix + name;
    assert serial[..|SerialPrefix|] == SerialPrefix;
    var rest := serial[|SerialPrefix|..];
    assert rest == account + SerialInfix + name;
    DigitRunOfAccount(account, SerialInfix + name);
    assert rest[|account|..] == SerialInfix + name;
  }

  lemma {:induction false} DigitRunOfAccount(account: string, after: string)
    requires IsAccountId(account)
    requires after != [] && !IsDigit(after[0])
    ensures DigitRun(account + after) == |account|
  {
    if |account| > 1 {
      assert (account + after)[1..] == account[1..] + after;
      DigitRunOfAccount(account[1..], after);
    } else {
      assert (account + after)[1..] == after;
    }
  }

  /** Only serials of the documented shape match, and what is captured is
      exactly the name after ":mfa/". */
  lemma SerialSubmatchSound(serial: string, name: string)
    requires SerialSubmatch(serial) == Some(name)
    ensures exists account :: IsAccountId(account) && serial == SerialPrefix + account + SerialInfix + name
    ensures '\n' !in name
  {
    var rest := serial[|SerialPrefix|..];
    var n := DigitRun(rest);
    var account := rest[..n];
    assert rest == account + rest[n..];
    assert rest[n..] == SerialInfix + name;
    assert serial == SerialPrefix + rest;
    assert IsAccountId(account);
  }

  /** Lines 138-143: the user name a device serial stands for, if any. */
  function AccountName(serial: string): Option<string>
  {
    match SerialSubmatch(serial)
    case None => None
    case Some(name) => Some(if name == RootDeviceName then RootAccountUser else name)
  }

  /** A well-formed serial yields its device name, the root device's name
      rewritten to the report's root-account user. */
  lemma AccountNameOfDevice(account: string, name: string)
    requires IsAccountId(account) && '\n' !in name
    ensures AccountName(SerialPrefix + account + SerialInfix + name)
         == Some(if name == RootDeviceName then RootAccountUser else name)
  {
    SerialSubmatchComplete(account, name);
  }

  /** A serial outside the pattern contributes nothing (and is no error). */
  lemma AccountNameMismatch(serial: string)
    requires forall account, name :: IsAccountId(account) && '\n' !in name ==>
               serial != SerialPrefix + account + SerialInfix + name
    ensures AccountName(serial) == None
  {
    if SerialSubmatch(serial).Some? {
      SerialSubmatchSound(serial, SerialSubmatch(serial).value);
    }
  }

  lemma AccountNameOfUserDevice()
    ensures AccountName("arn:aws:iam::123456789012:mfa/alice") == Some("alice")
  {
    AccountNameOfDevice("123456789012", "alice");
    assert SerialPrefix + "123456789012" + SerialInfix + "alice" == "arn:aws:iam::123456789012:mfa/alice";
  }

  /** The root account's device is credited to the report's root user. */
  lemma AccountNameOfRootDevice(account: string)
    requires IsAccountId(account)
    ensures AccountName(SerialPrefix + account + SerialInfix + RootDeviceName) == Some(RootAccountUser)
  {
    AccountNameOfDevice(account, RootDeviceName);
  }

  lemma AccountNameRejects()
    ensures AccountName("not-an-arn") == None
    ensures AccountName("arn:aws:iam:::mfa/alice") == None
  {
    var noAccount := "arn:aws:iam:::mfa/alice";
    assert noAccount[..|SerialPrefix|] == SerialPrefix;
    assert noAccount[|SerialPrefix|..][0] == ':';
  }

  // ---------------------------------------------------------------------
  // Gathering the names

  /** The keys of accountsWithVirtualMfa after the loop over the serials. */
  function VirtualMfaAccounts(serials: seq<string>): set<string>
  {
    if serials == [] then {}
    else
      var n := |serials| - 1;
      var prior := VirtualMfaAccounts(serials[..n]);
      match AccountName(serials[n])
      case None => prior
      case Some(name) => prior + {name}
  }

  /** A name is gathered exactly when some serial yields it. */
  lemma {:induction false} VirtualMfaAccountsMembers(serials: seq<string>, name: string)
    ensures name in VirtualMfaAccounts(serials) <==>
            exists i :: 0 <= i < |serials| && AccountName(serials[i]) == Some(name)
  {
    if serials != [] {
      var n := |serials| - 1;
      VirtualMfaAccountsMembers(serials[..n], name);
      if name in VirtualMfaAccounts(serials[..n]) {
        var i :| 0 <= i < n && AccountName(serials[..n][i]) == Some(name);
        assert serials[i] == serials[..n][i];
      }
      if exists i :: 0 <= i < |serials| && AccountName(serials[i]) == Some(name) {
        var i :| 0 <= i < |serials| && AccountName(serials[i]) == Some(name);
        if i < n {
          assert serials[..n][i] == serials[i];
        }
      }
    }
  }

  /** Lines 135-147. */
  method CollectVirtualMfaAccounts(serials: seq<string>) returns (accounts: set<string>)
    ensures accounts == VirtualMfaAccounts(serials)
    ensures forall name :: name in accounts <==>
              exists i :: 0 <= i < |serials| && AccountName(serials[i]) == Some(name)
  {
    accounts := {};
    for i := 0 to |serials|
      invariant accounts == VirtualMfaAccounts(serials[..i])
    {
      assert serials[..i + 1][..i] == serials[..i];
      match AccountName(serials[i])
      case None =>
      case Some(name) =>
        accounts := accounts + {name};
    }
    assert serials[..|serials|] == serials;
    forall name
      ensures name in accounts <==>
              exists i :: 0 <= i < |serials| && AccountName(serials[i]) == Some(name)
    {
      VirtualMfaAccountsMembers(serials, name);
    }
  }

  // ---------------------------------------------------------------------
  // Enrichment

  /** A row after the check on line 151: mfaVirtual becomes true when the
      user is in the set, and nothing else changes. */
  function Enriched(row: Row, accounts: set<string>): (r: Row)
    ensures r.mfaVirtual == (row.mfaVirtual || row.user in accounts)
    ensures r == row.(mfaVirtual := r.mfaVirtual)
  {
    if row.user in accounts then row.(mfaVirtual := true) else row
  }

  function EnrichedRows(rows: seq<Row>, accounts: set<string>): (r: seq<Row>)
  {
    seq(|rows|, i requires 0 <= i < |rows| => Enriched(rows[i], accounts))
  }

  /** Enriching freshly parsed rows: the count and order stay, mfaVirtual is
      true exactly for the users in the set, and every other field is the
      parsed one. */
  lemma ParsedThenEnriched(headerLine: seq<string>, lines: seq<seq<string>>, accounts: set<string>, i: int)
    requires |headerLine| > 0
    requires forall i :: 0 <= i < |lines| ==> |lines[i]| == |headerLine|
    requires 0 <= i < |lines|
    ensures |EnrichedRows(ParsedRows(headerLine, lines), accounts)| == |lines|
    ensures var parsed := ParsedRows(headerLine, lines)[i];
            var row := EnrichedRows(ParsedRows(headerLine, lines), accounts)[i];
            && (row.mfaVirtual <==> parsed.user in accounts)
            && row == parsed.(mfaVirtual := row.mfaVirtual)
  {
    ParsedRowsAt(headerLine, lines, i);
  }

  /** Running the enrichment twice with the same set changes nothing more. */
  lemma EnrichIdempotent(rows: seq<Row>, accounts: set<string>)
    ensures EnrichedRows(EnrichedRows(rows, accounts), accounts) == EnrichedRows(rows, accounts)
  {
  }

  /** Lines 150-154: set mfaVirtual in place on every row whose user is in
      the set.  Rows that alias one another are handled as Go handles them. */
  method EnrichReport(report: array<ReportRow?>, accounts: set<string>)
    requires Filled(report)
    modifies report[..]
    ensures Filled(report)
    ensures Snapshots(report) == EnrichedRows(old(Snapshots(report)), accounts)
  {
    ghost var before := Snapshots(report);
    for k := 0 to report.Length
      invariant forall j :: 0 <= j < k ==> report[j].Snapshot() == Enriched(before[j], accounts)
      invariant forall j :: k <= j < report.Length ==>
                  report[j].Snapshot() in {before[j], Enriched(before[j], accounts)}
    {
      var row := report[k];
      if row.user in accounts {
        row.mfaVirtual := true;
      }
    }
    assert Snapshots(report) == EnrichedRows(before, accounts);
  }
}
