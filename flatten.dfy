/**
  flattenCredentialReport and flattenAccessKeys: the rows as the generic
  nested records stored in the resource's "report" attribute.
 */
module Flatten {
  import opened Wrappers
  import opened CredentialReport

  /** What a record field may hold: a string, a bool, or a list of nested
      records (the schema's TypeString, TypeBool and TypeList). */
  datatype Value = Str(text: string) | Flag(flag: bool) | Records(records: seq<map<string, Value>>)

  type Record = map<string, Value>

  const AccessKeyFields: set<string> := {"active", "last_used_date", "last_rotated"}
  const RowFields: set<string> := {"user", "password_enabled", "password_last_used",
    "password_last_changed", "mfa_active", "mfa_virtual", "access_keys"}

  /** Lines 255-259. */
  function FlattenAccessKey(key: AccessKey): Record
  {
    map["active" := Flag(key.active),
        "last_used_date" := Str(key.lastUsedDate),
        "last_rotated" := Str(key.lastRotated)]
  }

  /** Lines 252-263: one record per access key, in order. */
  function FlattenAccessKeys(keys: seq<AccessKey>): (out: seq<Record>)
    ensures |out| == |keys|
    ensures forall i :: 0 <= i < |keys| ==>
      && out[i].Keys == AccessKeyFields
      && out[i]["active"] == Flag(keys[i].active)
      && out[i]["last_used_date"] == Str(keys[i].lastUsedDate)
      && out[i]["last_rotated"] == Str(keys[i].lastRotated)
  {
    if keys == [] then [] else [FlattenAccessKey(keys[0])] + FlattenAccessKeys(keys[1..])
  }

  /** Lines 238-246. */
  function FlattenRow(row: Row): Record
  {
    map["user" := Str(row.user),
        "password_enabled" := Flag(row.passwordEnabled),
        "password_last_used" := Str(row.passwordLastUsed),
        "password_last_changed" := Str(row.passwordLastChanged),
        "mfa_active" := Flag(row.mfaActive),
        "mfa_virtual" := Flag(row.mfaVirtual),
        "access_keys" := Records(FlattenAccessKeys(row.accessKeys))]
  }

  /** Lines 235-250: one record per row, in order, each field copied from
      the row. */
  function FlattenCredentialReport(rows: seq<Row>): (out: seq<Record>)
    ensures |out| == |rows|
    ensures forall i :: 0 <= i < |rows| ==>
      && out[i].Keys == RowFields
      && out[i]["user"] == Str(rows[i].user)
      && out[i]["password_enabled"] == Flag(rows[i].passwordEnabled)
      && out[i]["password_last_used"] == Str(rows[i].passwordLastUsed)
      && out[i]["password_last_changed"] == Str(rows[i].passwordLastChanged)
      && out[i]["mfa_active"] == Flag(rows[i].mfaActive)
      && out[i]["mfa_virtual"] == Flag(rows[i].mfaVirtual)
      && out[i]["access_keys"] == Records(FlattenAccessKeys(rows[i].accessKeys))
  {
    if rows == [] then [] else [FlattenRow(rows[0])] + FlattenCredentialReport(rows[1..])
  }

  // ---------------------------------------------------------------------
  // Reading the records back

  function UnflattenAccessKey(m: Record): Option<AccessKey>
  {
    if && "active" in m && m["active"].Flag?
       && "last_used_date" in m && m["last_used_date"].Str?
       && "last_rotated" in m && m["last_rotated"].Str?
    then Some(AccessKey(m["active"].flag, m["last_used_date"].text, m["last_rotated"].text))
    else None
  }

  function UnflattenAccessKeys(records: seq<Record>): Option<seq<AccessKey>>
  {
    if records == [] then Some([])
    else
      match (UnflattenAccessKey(records[0]), UnflattenAccessKeys(records[1..]))
      case (Some(key), Some(keys)) => Some([key] + keys)
      case _ => None
  }

  function UnflattenRow(m: Record): Option<Row>
  {
    if && "user" in m && m["user"].Str?
       && "password_enabled" in m && m["password_enabled"].Flag?
       && "password_last_used" in m && m["password_last_used"].Str?
       && "password_last_changed" in m && m["password_last_changed"].Str?
       && "mfa_active" in m && m["mfa_active"].Flag?
       && "mfa_virtual" in m && m["mfa_virtual"].Flag?
       && "access_keys" in m && m["access_keys"].Records?
    then
      match UnflattenAccessKeys(m["access_keys"].records)
      case None => None
      case Some(keys) =>
        Some(Row(m["user"].text, m["password_enabled"].flag, m["password_last_used"].text,
                 m["password_last_changed"].text, m["mfa_active"].flag, m["mfa_virtual"].flag, keys))
    else None
  }

  function UnflattenReport(records: seq<Record>): Option<seq<Row>>
  {
    if records == [] then Some([])
    else
      match (UnflattenRow(records[0]), UnflattenReport(records[1..]))
      case (Some(row), Some(rows)) => Some([row] + rows)
      case _ => None
  }

  lemma {:induction false} AccessKeysRoundTrip(keys: seq<AccessKey>)
    ensures UnflattenAccessKeys(FlattenAccessKeys(keys)) == Some(keys)
  {
    if keys != [] {
      AccessKeysRoundTrip(keys[1..]);
      assert FlattenAccessKeys(keys)[1..] == FlattenAccessKeys(keys[1..]);
      assert [keys[0]] + keys[1..] == keys;
    }
  }

  /** Flattening loses nothing: reading the records back gives the rows. */
  lemma {:induction false} FlattenRoundTrip(rows: seq<Row>)
    ensures UnflattenReport(FlattenCredentialReport(rows)) == Some(rows)
  {
    if rows != [] {
      FlattenRoundTrip(rows[1..]);
      AccessKeysRoundTrip(rows[0].accessKeys);
      assert FlattenCredentialReport(rows)[1..] == FlattenCredentialReport(rows[1..]);
      assert [rows[0]] + rows[1..] == rows;
    }
  }
}
