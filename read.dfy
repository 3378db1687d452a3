/**
  One attempt of the retry closure in resourceAwsIamCredentialReportRead:
  fetch the report, parse it, list the virtual MFA devices, enrich, flatten.
  The SDK calls' outcomes are the attempt's inputs.
 */
module Read {
  import opened Wrappers
  import opened CredentialReport
  import opened VirtualMfa
  import opened Flatten

  const ReportInProgress := "ReportInProgress"

  /** What the closure hands resource.Retry: nil (with the flattened report
      stored), a retryable error, or a non-retryable one. */
  datatype Attempt = Stored(report: seq<Record>) | Retryable(err: Error) | NonRetryable(err: Error)

  /** Lines 107-116: an AWS error coded ReportInProgress is retried, every
      other fetch error ends the read. */
  function ClassifyFetchError(err: Error): (a: Attempt)
    ensures !a.Stored? && a.err == err
    ensures a.Retryable? <==> err.AwsError? && err.code == ReportInProgress
  {
    match err
    case AwsError(code, _) => if code == ReportInProgress then Retryable(err) else NonRetryable(err)
    case PlainError(_) => NonRetryable(err)
  }

  /** The report an attempt stores when every call succeeds. */
  function StoredReport(headerLine: seq<string>, lines: seq<seq<string>>, serials: seq<string>): seq<Record>
    requires |headerLine| > 0
    requires forall i :: 0 <= i < |lines| ==> |lines[i]| == |headerLine|
  {
    FlattenCredentialReport(EnrichedRows(ParsedRows(headerLine, lines), VirtualMfaAccounts(serials)))
  }

  /** Lines 104-159.  getReport is GetCredentialReport's outcome with its
      content already tokenised; listMfa is ListVirtualMFADevices' outcome
      as the devices' serial numbers. */
  method ReadAttempt(getReport: Result<CsvContent, Error>, listMfa: Result<seq<string>, Error>)
    returns (a: Attempt)
    requires getReport.Ok? ==> getReport.value.Tokenised()
    ensures getReport.Err? ==> a == ClassifyFetchError(getReport.error)
    ensures getReport.Ok? && getReport.value.header.Err? ==>
      a == NonRetryable(getReport.value.header.error)
    ensures getReport.Ok? && getReport.value.header.Ok? && getReport.value.records.Err? ==>
      a == NonRetryable(getReport.value.records.error)
    ensures getReport.Ok? && getReport.value.header.Ok? && getReport.value.records.Ok? && listMfa.Err? ==>
      a == NonRetryable(listMfa.error)
    ensures getReport.Ok? && getReport.value.header.Ok? && getReport.value.records.Ok? && listMfa.Ok? ==>
      a == Stored(StoredReport(getReport.value.header.value, getReport.value.records.value, listMfa.value))
    // only a fetch failing with ReportInProgress is retried; a parse or
    // device-listing error never is, whatever its code
    ensures a.Retryable? <==> getReport.Err? && getReport.error.AwsError? && getReport.error.code == ReportInProgress
  {
    if getReport.Err? {
      return ClassifyFetchError(getReport.error);
    }
    var parsed := ParseCsvCredentialReport(getReport.value);
    if parsed.Err? {
      return NonRetryable(parsed.error);
    }
    if listMfa.Err? {
      return NonRetryable(listMfa.error);
    }
    var accounts := CollectVirtualMfaAccounts(listMfa.value);
    var report := parsed.value;
    EnrichReport(report, accounts);
    var rows := seq(report.Length, i requires 0 <= i < report.Length && report[i] != null
                                     reads report, report[..] => report[i].Snapshot());
    assert rows == Snapshots(report);
    return Stored(FlattenCredentialReport(rows));
  }

  /** In the stored report, mfa_virtual is true exactly for the users some
      device serial names; every row keeps its parsed user. */
  lemma StoredMfaVirtual(headerLine: seq<string>, lines: seq<seq<string>>, serials: seq<string>, i: int)
    requires |headerLine| > 0
    requires forall i :: 0 <= i < |lines| ==> |lines[i]| == |headerLine|
    requires 0 <= i < |lines|
    ensures |StoredReport(headerLine, lines, serials)| == |lines|
    ensures var user := ParsedRows(headerLine, lines)[i].user;
      && StoredReport(headerLine, lines, serials)[i]["user"] == Str(user)
      && (StoredReport(headerLine, lines, serials)[i]["mfa_virtual"] == Flag(true) <==>
          exists k :: 0 <= k < |serials| && AccountName(serials[k]) == Some(user))
  {
    var accounts := VirtualMfaAccounts(serials);
    ParsedThenEnriched(headerLine, lines, accounts, i);
    VirtualMfaAccountsMembers(serials, ParsedRows(headerLine, lines)[i].user);
  }
}
