/**
  The credential report's rows and the decoder that turns the CSV reader's
  records into them (parseCsvCredentialReport and parseCsvBool).
 */
module CredentialReport {
  import opened Wrappers

  /** An error returned by the AWS SDK or by the CSV reader.  AwsError is one
      that satisfies the SDK's awserr.Error interface and so carries a code. */
  datatype Error = AwsError(code: string, message: string) | PlainError(message: string)

  datatype AccessKey = AccessKey(active: bool, lastUsedDate: string, lastRotated: string)

  /** The value of one ReportRow: what a *ReportRow points to at a given moment. */
  datatype Row = Row(
    user: string,
    passwordEnabled: bool,
    passwordLastUsed: string,
    passwordLastChanged: string,
    mfaActive: bool,
    mfaVirtual: bool,
    accessKeys: seq<AccessKey>)

  /** A report row as the parser allocates it; enrichment later sets its
      mfaVirtual field in place. */
  class ReportRow {
    var user: string
    var passwordEnabled: bool
    var passwordLastUsed: string
    var passwordLastChanged: string
    var mfaActive: bool
    var mfaVirtual: bool
    var accessKeys: seq<AccessKey>

    function Snapshot(): Row
      reads this
    {
      Row(user, passwordEnabled, passwordLastUsed, passwordLastChanged,
          mfaActive, mfaVirtual, accessKeys)
    }

    constructor (r: Row)
      ensures Snapshot() == r
    {
      user := r.user;
      passwordEnabled := r.passwordEnabled;
      passwordLastUsed := r.passwordLastUsed;
      passwordLastChanged := r.passwordLastChanged;
      mfaActive := r.mfaActive;
      mfaVirtual := r.mfaVirtual;
      accessKeys := r.accessKeys;
    }
  }

  /** A []*ReportRow whose every slot has been filled. */
  predicate Filled(report: array<ReportRow?>)
    reads report
  {
    forall i :: 0 <= i < report.Length ==> report[i] != null
  }

  /** The values the report's rows currently hold, in order. */
  function Snapshots(report: array<ReportRow?>): (rows: seq<Row>)
    requires Filled(report)
    reads report, report[..]
    ensures |rows| == report.Length
  {
    seq(report.Length, i requires 0 <= i < report.Length && report[i] != null
                         reads report, report[..] => report[i].Snapshot())
  }

  // ---------------------------------------------------------------------
  // Tokens

  /** A CSV boolean: exactly the token "true", compared case-sensitively. */
  function ParseCsvBool(token: string): bool
  {
    token == "true"
  }

  lemma ParseCsvBoolExact(token: string)
    ensures ParseCsvBool(token) <==> token == "true"
    ensures !ParseCsvBool("TRUE") && !ParseCsvBool("True") && !ParseCsvBool("false")
    ensures !ParseCsvBool("") && !ParseCsvBool(" true")
  {
  }

  // ---------------------------------------------------------------------
  // The header map

  /** The map header[k] = i that the loop over the header record leaves
      behind: a later column of the same name overwrites an earlier one. */
  function HeaderMap(headerLine: seq<string>): map<string, int>
  {
    if headerLine == [] then map[]
    else
      var n := |headerLine| - 1;
      HeaderMap(headerLine[..n])[headerLine[n] := n]
  }

  /** Go's header[name]: the index, or the zero value 0 for an absent name. */
  function Lookup(header: map<string, int>, name: string): int
  {
    if name in header then header[name] else 0
  }

  /** j is where the decoder reads the column `name` from: the last column
      of that name, or column 0 when the header has none. */
  ghost predicate IsColumnOf(headerLine: seq<string>, name: string, j: int)
  {
    if name in headerLine then
      && 0 <= j < |headerLine|
      && headerLine[j] == name
      && forall k :: j < k < |headerLine| ==> headerLine[k] != name
    else
      j == 0
  }

  lemma {:induction false} HeaderMapLastIndex(headerLine: seq<string>, name: string)
    ensures name in HeaderMap(headerLine) <==> name in headerLine
    ensures name in headerLine ==> IsColumnOf(headerLine, name, HeaderMap(headerLine)[name])
  {
    if headerLine != [] {
      var n := |headerLine| - 1;
      var prefix := headerLine[..n];
      assert headerLine == prefix + [headerLine[n]];
      HeaderMapLastIndex(prefix, name);
      if name != headerLine[n] {
        assert name in headerLine <==> name in prefix;
      }
    }
  }

  /** Every header name, and the zero default, looks up to the column the
      decoder is meant to read. */
  lemma LookupIsColumn(headerLine: seq<string>, name: string)
    ensures IsColumnOf(headerLine, name, Lookup(HeaderMap(headerLine), name))
  {
    HeaderMapLastIndex(headerLine, name);
  }

  /** Lines 194-196: header[k] = i for every column, in order. */
  method IndexHeader(headerLine: seq<string>) returns (header: map<string, int>)
    ensures header == HeaderMap(headerLine)
  {
    header := map[];
    for i := 0 to |headerLine|
      invariant header == HeaderMap(headerLine[..i])
    {
      assert headerLine[..i + 1][..i] == headerLine[..i];
      header := header[headerLine[i] := i];
    }
    assert headerLine[..|headerLine|] == headerLine;
  }

  // ---------------------------------------------------------------------
  // Records

  /** Every index the map can produce, and the default 0, lies inside `line`. */
  predicate IndexesFit(header: map<string, int>, line: seq<string>)
  {
    |line| > 0 && forall k :: k in header ==> 0 <= header[k] < |line|
  }

  lemma HeaderMapFits(headerLine: seq<string>, line: seq<string>)
    requires 0 < |headerLine| == |line|
    ensures IndexesFit(HeaderMap(headerLine), line)
  {
    forall k | k in HeaderMap(headerLine)
      ensures 0 <= HeaderMap(headerLine)[k] < |line|
    {
      HeaderMapLastIndex(headerLine, k);
    }
  }

  /** line[header[name]] */
  function Column(header: map<string, int>, line: seq<string>, name: string): string
    requires IndexesFit(header, line)
  {
    line[Lookup(header, name)]
  }

  /** Lines 207-225: one record as a row; mfaVirtual starts false. */
  function DecodeRecord(header: map<string, int>, line: seq<string>): Row
    requires IndexesFit(header, line)
  {
    Row(
      user := Column(header, line, "user"),
      passwordEnabled := ParseCsvBool(Column(header, line, "password_enabled")),
      passwordLastUsed := Column(header, line, "password_last_used"),
      passwordLastChanged := Column(header, line, "password_last_changed"),
      mfaActive := ParseCsvBool(Column(header, line, "mfa_active")),
      mfaVirtual := false,
      accessKeys := [
        AccessKey(
          active := ParseCsvBool(Column(header, line, "access_key_1_active")),
          lastUsedDate := Column(header, line, "access_key_1_last_used_date"),
          lastRotated := Column(header, line, "access_key_1_last_rotated")),
        AccessKey(
          active := ParseCsvBool(Column(header, line, "access_key_2_active")),
          lastUsedDate := Column(header, line, "access_key_2_last_used_date"),
          lastRotated := Column(header, line, "access_key_2_last_rotated"))
      ])
  }

  /** `text` is what the decoder finds in column `name` of `line`. */
  ghost predicate TextFrom(headerLine: seq<string>, line: seq<string>, name: string, text: string)
  {
    forall j :: IsColumnOf(headerLine, name, j) ==> 0 <= j < |line| && text == line[j]
  }

  /** `flag` is the CSV boolean in column `name` of `line`. */
  ghost predicate FlagFrom(headerLine: seq<string>, line: seq<string>, name: string, flag: bool)
  {
    forall j :: IsColumnOf(headerLine, name, j) ==> 0 <= j < |line| && flag == ParseCsvBool(line[j])
  }

  lemma ColumnFrom(headerLine: seq<string>, line: seq<string>, name: string)
    requires 0 < |headerLine| == |line|
    ensures IndexesFit(HeaderMap(headerLine), line)
    ensures TextFrom(headerLine, line, name, Column(HeaderMap(headerLine), line, name))
  {
    HeaderMapFits(headerLine, line);
    LookupIsColumn(headerLine, name);
  }

  /** Every field of a decoded row comes from the column named after it: the
      last column of that name, or column 0 when the header lacks it. */
  lemma {:induction false} DecodeRecordProvenance(headerLine: seq<string>, line: seq<string>)
    requires 0 < |headerLine| == |line|
    ensures IndexesFit(HeaderMap(headerLine), line)
    ensures var row := DecodeRecord(HeaderMap(headerLine), line);
      && TextFrom(headerLine, line, "user", row.user)
      && FlagFrom(headerLine, line, "password_enabled", row.passwordEnabled)
      && TextFrom(headerLine, line, "password_last_used", row.passwordLastUsed)
      && TextFrom(headerLine, line, "password_last_changed", row.passwordLastChanged)
      && FlagFrom(headerLine, line, "mfa_active", row.mfaActive)
      && !row.mfaVirtual
      && |row.accessKeys| == 2
      && FlagFrom(headerLine, line, "access_key_1_active", row.accessKeys[0].active)
      && TextFrom(headerLine, line, "access_key_1_last_used_date", row.accessKeys[0].lastUsedDate)
      && TextFrom(headerLine, line, "access_key_1_last_rotated", row.accessKeys[0].lastRotated)
      && FlagFrom(headerLine, line, "access_key_2_active", row.accessKeys[1].active)
      && TextFrom(headerLine, line, "access_key_2_last_used_date", row.accessKeys[1].lastUsedDate)
      && TextFrom(headerLine, line, "access_key_2_last_rotated", row.accessKeys[1].lastRotated)
  {
    ColumnFrom(headerLine, line, "user");
    ColumnFrom(headerLine, line, "password_enabled");
    ColumnFrom(headerLine, line, "password_last_used");
    ColumnFrom(headerLine, line, "password_last_changed");
    ColumnFrom(headerLine, line, "mfa_active");
    ColumnFrom(headerLine, line, "access_key_1_active");
    ColumnFrom(headerLine, line, "access_key_1_last_used_date");
    ColumnFrom(headerLine, line, "access_key_1_last_rotated");
    ColumnFrom(headerLine, line, "access_key_2_active");
    ColumnFrom(headerLine, line, "access_key_2_last_used_date");
    ColumnFrom(headerLine, line, "access_key_2_last_rotated");
  }

  // ---------------------------------------------------------------------
  // The report

  /** What encoding/csv hands back: the header record (reader.Read) and the
      remaining records (reader.ReadAll), each of which may be an error. */
  datatype CsvContent = CsvContent(header: Result<seq<string>, Error>, records: Result<seq<seq<string>>, Error>)
  {
    /** The reader's own guarantees: a record is never empty, and with the
        default FieldsPerRecord every record has the header's length. */
    predicate Tokenised()
    {
      header.Ok? ==>
        && |header.value| > 0
        && (records.Ok? ==> forall i :: 0 <= i < |records.value| ==> |records.value[i]| == |header.value|)
    }
  }

  /** The rows the parser builds from a well-formed header and records. */
  function ParsedRows(headerLine: seq<string>, lines: seq<seq<string>>): (rows: seq<Row>)
    requires |headerLine| > 0
    requires forall i :: 0 <= i < |lines| ==> |lines[i]| == |headerLine|
  {
    seq(|lines|, i requires 0 <= i < |lines| =>
      HeaderMapFits(headerLine, lines[i]);
      DecodeRecord(HeaderMap(headerLine), lines[i]))
  }

  /** Exactly one row per record, in record order, each decoded from its own
      record; mfaVirtual is false in all of them. */
  lemma ParsedRowsAt(headerLine: seq<string>, lines: seq<seq<string>>, i: int)
    requires |headerLine| > 0
    requires forall i :: 0 <= i < |lines| ==> |lines[i]| == |headerLine|
    requires 0 <= i < |lines|
    ensures |ParsedRows(headerLine, lines)| == |lines|
    ensures IndexesFit(HeaderMap(headerLine), lines[i])
    ensures ParsedRows(headerLine, lines)[i] == DecodeRecord(HeaderMap(headerLine), lines[i])
    ensures !ParsedRows(headerLine, lines)[i].mfaVirtual
  {
    HeaderMapFits(headerLine, lines[i]);
  }

  /** parseCsvCredentialReport after tokenisation: the header map, then a
      pre-sized []*ReportRow filled by index. */
  method ParseCsvCredentialReport(content: CsvContent) returns (result: Result<array<ReportRow?>, Error>)
    requires content.Tokenised()
    ensures content.header.Err? ==> result == Err(content.header.error)
    ensures content.header.Ok? && content.records.Err? ==> result == Err(content.records.error)
    ensures content.header.Ok? && content.records.Ok? ==>
      && result.Ok?
      && fresh(result.value)
      && Filled(result.value)
      && (forall i :: 0 <= i < result.value.Length ==> fresh(result.value[i]))
      && (forall i, j :: 0 <= i < j < result.value.Length ==> result.value[i] != result.value[j])
      && Snapshots(result.value) == ParsedRows(content.header.value, content.records.value)
  {
    if content.header.Err? {
      return Err(content.header.error);
    }
    var headerLine := content.header.value;
    var header := IndexHeader(headerLine);
    if content.records.Err? {
      return Err(content.records.error);
    }
    var lines := content.records.value;
    var rows := new ReportRow?[|lines|];
    ghost var want := ParsedRows(headerLine, lines);
    for i := 0 to |lines|
      invariant forall j :: 0 <= j < i ==> rows[j] != null && fresh(rows[j])
      invariant forall j, k :: 0 <= j < k < i ==> rows[j] != rows[k]
      invariant forall j :: 0 <= j < i ==> rows[j].Snapshot() == want[j]
    {
      ParsedRowsAt(headerLine, lines, i);
      rows[i] := new ReportRow(DecodeRecord(header, lines[i]));
    }
    assert Snapshots(rows) == want;
    return Ok(rows);
  }
}
