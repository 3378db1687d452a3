# IAM credential report, modelled in Dafny

A model of the transform pipeline of the `aws_iam_credential_report`
resource adapter (`aws/resource_aws_iam_credential_report.go`). After the
AWS calls return, the adapter does four things:

- it decodes the CSV credential report into `ReportRow`s, reading each
  column by name through a header map;
- it extracts user names from virtual-MFA device serials
  (`arn:aws:iam::<account>:mfa/<name>`) and sets `MfaVirtual` in place on
  the rows of those users;
- it flattens the rows into the nested records stored in the resource's
  `report` attribute;
- it decides whether a failed fetch is retried (`ReportInProgress`) or ends
  the read.

Modules, one per part of the pipeline:

- `Wrappers` (`wrappers.dfy`): `Option` and `Result`.
- `CredentialReport` (`credential_report.dfy`): the `Row`/`AccessKey` values;
  the `ReportRow` class, whose fields enrichment updates in place;
  `ParseCsvBool`; the header map (`HeaderMap`, built by the method
  `IndexHeader`); record decoding; and the method `ParseCsvCredentialReport`,
  which fills a pre-sized `array<ReportRow?>` (Go's `[]*ReportRow`) by index.
- `VirtualMfa` (`virtual_mfa.dfy`): a hand-written matcher for the pattern
  `^arn:aws:iam::[0-9]+:mfa/(.*)$`; the root-device rewrite; the loop that
  gathers the name set; and the in-place enrichment method `EnrichReport`.
- `Flatten` (`flatten.dfy`): `flattenCredentialReport` and
  `flattenAccessKeys` as recursive functions, with an inverse that reads the
  records back.
- `Read` (`read.dfy`): the retry classification, and one attempt of the
  retry closure put together from the pieces above.

Inputs that come from outside are parameters:

- the CSV reader's output: the header record and the remaining records,
  each possibly an error;
- the outcome of `GetCredentialReport`;
- the device serial numbers returned by `ListVirtualMFADevices`, or its
  error.

Where the adapter's documented behaviour and its code disagree, the model follows the code:

- A column missing from the header is not a parse failure. Go's map
  lookup yields 0 for an absent key, so that field is read from column 0
  (`LookupIsColumn`, `DecodeRecordProvenance`).
- Rows are updated individually after parsing. The enrichment loop sets
  `row.MfaVirtual = true` through the shared pointer (`EnrichReport`).
- Ragged records and bad quoting are rejected by `encoding/csv`, not by
  this code. The model takes the reader's guarantees as the precondition
  `CsvContent.Tokenised`: a record is never empty, and every record has the
  header's length.

## Model

| member | source | states |
|---|---|---|
| `CredentialReport.ParseCsvBoolExact` | aws/resource_aws_iam_credential_report.go:231-233 | a token decodes to true exactly when it is `true`; `TRUE`, `True`, `false`, the empty token and ` true` all decode to false |
| `CredentialReport.HeaderMapLastIndex` | aws/resource_aws_iam_credential_report.go:189-196 | the header map has a key exactly for each header name, and it maps that name to the last column carrying it |
| `CredentialReport.LookupIsColumn` | aws/resource_aws_iam_credential_report.go:194-196 | looking a name up (with Go's zero default) gives the last column of that name, or 0 when the header has no such column |
| `CredentialReport.IndexHeader` | aws/resource_aws_iam_credential_report.go:189-196 | the loop `header[k] = i` over the header record builds exactly the header map |
| `CredentialReport.DecodeRecordProvenance` | aws/resource_aws_iam_credential_report.go:205-225 | every field of a decoded row comes from the record's column of that name, unchanged for strings and through `ParseCsvBool` for flags; an absent name reads column 0; the row has exactly two access keys, key 0 from the `access_key_1_*` columns and key 1 from the `access_key_2_*` columns; `mfaVirtual` is false |
| `CredentialReport.ParsedRowsAt` | aws/resource_aws_iam_credential_report.go:204-226 | parsing gives one row per record, and the i-th row is decoded from the i-th record, with `mfaVirtual` false |
| `CredentialReport.ParseCsvCredentialReport` | aws/resource_aws_iam_credential_report.go:185-229 | a header read error or a records read error is returned as is; otherwise the result is a fresh array of distinct fresh rows, one per record in record order, each holding its decoded record |
| `VirtualMfa.DigitRun` | aws/resource_aws_iam_credential_report.go:136 | the length of the longest run of ASCII digits at the start of a string |
| `VirtualMfa.SerialSubmatchComplete` | aws/resource_aws_iam_credential_report.go:136-140 | every serial `arn:aws:iam::<digits>:mfa/<name>`, with a non-empty digit run and no newline in `<name>`, matches and captures `<name>` |
| `VirtualMfa.SerialSubmatchSound` | aws/resource_aws_iam_credential_report.go:136-140 | a serial that matches has exactly that shape, and the captured name is what follows `:mfa/` and holds no newline |
| `VirtualMfa.AccountNameOfDevice` | aws/resource_aws_iam_credential_report.go:136-143 | a well-formed serial yields its device name, with `root-account-mfa-device` rewritten to `<root_account>` |
| `VirtualMfa.AccountNameOfRootDevice` | aws/resource_aws_iam_credential_report.go:141-143 | the root account's device serial yields `<root_account>`, whatever the account id |
| `VirtualMfa.AccountNameOfUserDevice` | aws/resource_aws_iam_credential_report.go:136-145 | `arn:aws:iam::123456789012:mfa/alice` yields `alice` |
| `VirtualMfa.AccountNameMismatch` | aws/resource_aws_iam_credential_report.go:138-139 | a serial not of the documented shape yields no name and no error |
| `VirtualMfa.AccountNameRejects` | aws/resource_aws_iam_credential_report.go:138-139 | `not-an-arn` and a serial with an empty account id yield no name |
| `VirtualMfa.VirtualMfaAccountsMembers` | aws/resource_aws_iam_credential_report.go:135-147 | a name is in the gathered set exactly when some serial in the list yields it |
| `VirtualMfa.CollectVirtualMfaAccounts` | aws/resource_aws_iam_credential_report.go:135-147 | the loop over the devices gathers exactly the names that some serial yields |
| `VirtualMfa.Enriched` | aws/resource_aws_iam_credential_report.go:151-153 | after the check, a row's `mfaVirtual` is its old value or'ed with "user is in the set"; no other field changes |
| `VirtualMfa.ParsedThenEnriched` | aws/resource_aws_iam_credential_report.go:150-154 | enriching freshly parsed rows keeps their count and order; `mfaVirtual` is true exactly for the users in the set; every other field is the parsed one |
| `VirtualMfa.EnrichIdempotent` | aws/resource_aws_iam_credential_report.go:150-154 | enriching twice with the same set gives the same rows as enriching once |
| `VirtualMfa.EnrichReport` | aws/resource_aws_iam_credential_report.go:150-154 | the in-place loop leaves every row slot holding its old row, enriched; the array itself is not changed; rows that alias one another are allowed |
| `Flatten.FlattenAccessKeys` | aws/resource_aws_iam_credential_report.go:252-263 | one record per access key, in order, with exactly the keys `active`, `last_used_date` and `last_rotated`, each holding that key's field |
| `Flatten.FlattenCredentialReport` | aws/resource_aws_iam_credential_report.go:235-250 | one record per row, in order, with exactly the seven schema keys, each holding that row's field; `access_keys` holds the flattened keys |
| `Flatten.AccessKeysRoundTrip` | aws/resource_aws_iam_credential_report.go:252-263 | reading the flattened access keys back recovers the keys exactly |
| `Flatten.FlattenRoundTrip` | aws/resource_aws_iam_credential_report.go:235-263 | reading the flattened report back recovers every row exactly, so flattening loses nothing |
| `Read.ClassifyFetchError` | aws/resource_aws_iam_credential_report.go:107-116 | a fetch error is retryable exactly when it is an AWS error with code `ReportInProgress`; every other fetch error is non-retryable; the error is passed on unchanged |
| `Read.ReadAttempt` | aws/resource_aws_iam_credential_report.go:104-159 | a fetch error is classified as above; a CSV error and a device-listing error are non-retryable and are passed on unchanged; when every call succeeds, the attempt stores the flattened, enriched, parsed report; only `ReportInProgress` on the fetch is ever retried |
| `Read.StoredMfaVirtual` | aws/resource_aws_iam_credential_report.go:132-157 | in the stored report, the i-th record has the i-th parsed user, and its `mfa_virtual` is true exactly when some device serial yields that user's name |

## Left out

- Tokenising the CSV (`encoding/csv`, lines 186, 190, 199) is a library
  call. Its results are an input of type `CsvContent`. Its guarantees (no
  empty record, every record as long as the header) are the precondition
  of `ParseCsvCredentialReport`.
- The retry loop `resource.Retry` (line 103) is not modelled: its
  one-minute wall-clock budget and its sleeps depend on time. Only one
  attempt (`ReadAttempt`) and the retryable/fatal classification are
  modelled.
- The AWS SDK calls are network I/O, so their outcomes are parameters:
  `GetCredentialReport` (line 106) and `ListVirtualMFADevices` (line 127).
  `GenerateCredentialReport` (lines 98-101) runs before the retry loop and
  returns its error as is; it is not modelled.
- Device serials are plain strings. The pointer dereference
  `*virtualMfa.SerialNumber` is not modelled, since the API always supplies
  a serial.
- Terraform wiring holds no logic and is not modelled:
  - the schema (lines 21-87);
  - `d.Set` and `d.SetId` (lines 90, 157), except that the stored value is
    the result of `ReadAttempt`;
  - the importer;
  - the no-op `Delete` (lines 163-165).
- The `log.Printf` on line 119 is logging only and is not modelled.
- No general regular-expression engine is modelled. The one fixed pattern is
  hand-written in `SerialSubmatch`.
- `VirtualMfa.SerialSubmatch` works on characters, not on Go's byte
  strings. RE2's `.` matches any rune but a newline, including the
  replacement rune that stands for an invalid byte, so "no newline in the
  rest" is the same condition at either level.
- The flattened records are typed by `Flatten.Value` (string, bool or list
  of records), not by Go's `interface{}`; these are the only kinds the
  flatteners produce.
