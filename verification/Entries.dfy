/** The two ledger record types, their strict validation and their one-line JSON codec. */
module Entries {
  import opened Prelude
  import opened Json
  import JsonGrammar
  import Numerals

  const SCHEMA_VERSION := 1
  const TTL_SECONDS := 300
  const MAX_RELATIVE_PATH_CHARS := 4096

  datatype Entry =
    | Approval(id: string, bound: string, root: string, path: string, risk: string, created: int, expires: int)
    | Consumption(id: string, bound: string, consumed: int)

  predicate Hex64(s: string) {
    |s| == 64 && forall k :: 0 <= k < 64 ==> Numerals.IsLowerHex(s[k])
  }

  predicate Control(c: char) { c < ' ' || c == '\U{7F}' }

  predicate RelativePath(p: string) {
    && 0 < |p| <= MAX_RELATIVE_PATH_CHARS
    && (forall k :: 0 <= k < |p| ==> !Control(p[k]) && p[k] != '\\')
    && p[0] != '/'
    && !(|p| >= 2 && p[1] == ':')
    && (forall k :: 0 <= k < |Split(p, '/')| ==> Split(p, '/')[k] !in ["", ".", ".."])
  }

  predicate Valid(e: Entry) {
    match e
    case Approval(id, bound, root, path, risk, created, expires) =>
      Hex64(id) && Hex64(bound) && Hex64(root) && RelativePath(path) && risk in ["low", "high"]
      && 0 <= created < expires
    case Consumption(id, bound, consumed) =>
      Hex64(id) && Hex64(bound) && 0 <= consumed
  }

  // ---- reading a record ---------------------------------------------------------

  const APPROVAL_KEYS: set<string> := {
    "entry_type", "schema_version", "approval_id", "bound_hash", "repo_root_id",
    "relative_path", "guard_risk", "created_at", "expires_at" }

  const CONSUMPTION_KEYS: set<string> := {
    "entry_type", "schema_version", "approval_id", "bound_hash", "consumed_at" }

  function TextField(obj: map<string, Json>, key: string): Option<string> {
    if key in obj && obj[key].JString? then Some(obj[key].s) else None
  }

  /** Booleans and floats are not integers here. */
  function IntField(obj: map<string, Json>, key: string): Option<int> {
    if key in obj && obj[key].JInt? then Some(obj[key].n) else None
  }

  function ValidateApproval(obj: map<string, Json>): (r: Option<Entry>)
    ensures r.Some? ==> r.value.Approval? && Valid(r.value)
  {
    var id, bound, root := TextField(obj, "approval_id"), TextField(obj, "bound_hash"), TextField(obj, "repo_root_id");
    var path, risk := TextField(obj, "relative_path"), TextField(obj, "guard_risk");
    var created, expires := IntField(obj, "created_at"), IntField(obj, "expires_at");
    if obj.Keys != APPROVAL_KEYS then None
    else if TextField(obj, "entry_type") != Some("approval") then None
    else if IntField(obj, "schema_version") != Some(SCHEMA_VERSION) then None
    else if id.None? || bound.None? || root.None? || path.None? || risk.None? || created.None? || expires.None? then None
    else
      var e := Approval(id.value, bound.value, root.value, path.value, risk.value, created.value, expires.value);
      if Valid(e) then Some(e) else None
  }

  function ValidateConsumption(obj: map<string, Json>): (r: Option<Entry>)
    ensures r.Some? ==> r.value.Consumption? && Valid(r.value)
  {
    var id, bound, consumed := TextField(obj, "approval_id"), TextField(obj, "bound_hash"), IntField(obj, "consumed_at");
    if obj.Keys != CONSUMPTION_KEYS then None
    else if TextField(obj, "entry_type") != Some("consumption") then None
    else if IntField(obj, "schema_version") != Some(SCHEMA_VERSION) then None
    else if id.None? || bound.None? || consumed.None? then None
    else
      var e := Consumption(id.value, bound.value, consumed.value);
      if Valid(e) then Some(e) else None
  }

  function ParseEntryLine(line: string): (r: Option<Entry>)
    ensures r.Some? ==> Valid(r.value)
  {
    var v := Loads(line);
    if v.None? || !v.value.JObject? then None
    else
      var obj := v.value.fields;
      if TextField(obj, "entry_type") == Some("approval") then ValidateApproval(obj)
      else if TextField(obj, "entry_type") == Some("consumption") then ValidateConsumption(obj)
      else None
  }

  // ---- writing a record -----------------------------------------------------------

  /** The fields of a record, already in sorted key order. */
  function Fields(e: Entry): (r: seq<Field>)
    ensures r != []
  {
    match e
    case Approval(id, bound, root, path, risk, created, expires) => [
      Field("approval_id", Text(id)),
      Field("bound_hash", Text(bound)),
      Field("created_at", Number(created)),
      Field("entry_type", Text("approval")),
      Field("expires_at", Number(expires)),
      Field("guard_risk", Text(risk)),
      Field("relative_path", Text(path)),
      Field("repo_root_id", Text(root)),
      Field("schema_version", Number(SCHEMA_VERSION)) ]
    case Consumption(id, bound, consumed) => [
      Field("approval_id", Text(id)),
      Field("bound_hash", Text(bound)),
      Field("consumed_at", Number(consumed)),
      Field("entry_type", Text("consumption")),
      Field("schema_version", Number(SCHEMA_VERSION)) ]
  }

  /** Code-point order, as Python sorts text. */
  predicate Before(a: string, b: string) {
    b != [] && (a == [] || a[0] < b[0] || (a[0] == b[0] && Before(a[1..], b[1..])))
  }

  lemma BeforeHead(a: string, b: string)
    requires a != [] && b != []
    ensures a[0] < b[0] ==> Before(a, b)
    ensures a[0] == b[0] ==> (Before(a, b) <==> Before(a[1..], b[1..]))
  {
  }

  lemma KeysInOrder()
    ensures Before("approval_id", "bound_hash") && Before("bound_hash", "created_at") && Before("bound_hash", "consumed_at")
    ensures Before("created_at", "entry_type") && Before("consumed_at", "entry_type") && Before("expires_at", "guard_risk")
    ensures Before("guard_risk", "relative_path") && Before("repo_root_id", "schema_version")
    ensures Before("entry_type", "schema_version")
  {
    hide Before;
    BeforeHead("approval_id", "bound_hash");
    BeforeHead("bound_hash", "created_at");
    BeforeHead("bound_hash", "consumed_at");
    BeforeHead("created_at", "entry_type");
    BeforeHead("consumed_at", "entry_type");
    BeforeHead("expires_at", "guard_risk");
    BeforeHead("guard_risk", "relative_path");
    BeforeHead("repo_root_id", "schema_version");
    BeforeHead("entry_type", "schema_version");
  }

  lemma KeysAlike()
    ensures Before("entry_type", "expires_at") && Before("relative_path", "repo_root_id")
  {
    hide Before;
    BeforeHead("entry_type", "expires_at");
    BeforeHead("entry_type"[1..], "expires_at"[1..]);
    BeforeHead("relative_path", "repo_root_id");
    BeforeHead("relative_path"[1..], "repo_root_id"[1..]);
    BeforeHead("relative_path"[1..][1..], "repo_root_id"[1..][1..]);
  }

  /** The field lists are in the strictly increasing key order that sorting would give. */
  lemma FieldsSorted(e: Entry)
    ensures forall k :: 0 <= k < |Fields(e)| - 1 ==> Before(Fields(e)[k].key, Fields(e)[k + 1].key)
  {
    hide Before;
    KeysInOrder();
    KeysAlike();
  }

  function CanonicalLine(e: Entry): string { DumpObject(Fields(e)) }

  // ---- round trip -------------------------------------------------------------------

  function Keys(fields: seq<Field>): set<string> {
    set k | 0 <= k < |fields| :: fields[k].key
  }

  predicate DistinctKeys(fields: seq<Field>) {
    forall i, j :: 0 <= i < j < |fields| ==> fields[i].key != fields[j].key
  }

  lemma {:induction false} AsMapKeeps(fields: seq<Field>, seen: map<string, Json>, key: string)
    requires key !in Keys(fields)
    ensures key in AsMap(fields, seen) <==> key in seen
    ensures key in seen ==> AsMap(fields, seen)[key] == seen[key]
  {
    if fields != [] {
      assert fields[0].key in Keys(fields);
      assert forall k :: 0 <= k < |fields[1..]| ==> fields[1..][k] == fields[k + 1] && fields[k + 1].key in Keys(fields);
      AsMapKeeps(fields[1..], seen[fields[0].key := ToJson(fields[0].value)], key);
    }
  }

  lemma {:induction false} AsMapLookup(fields: seq<Field>, seen: map<string, Json>, k: nat)
    requires k < |fields| && DistinctKeys(fields)
    ensures fields[k].key in AsMap(fields, seen) && AsMap(fields, seen)[fields[k].key] == ToJson(fields[k].value)
  {
    var grown := seen[fields[0].key := ToJson(fields[0].value)];
    assert forall j :: 0 <= j < |fields[1..]| ==> fields[1..][j] == fields[j + 1];
    if k == 0 {
      assert fields[0].key !in Keys(fields[1..]);
      AsMapKeeps(fields[1..], grown, fields[0].key);
    } else {
      AsMapLookup(fields[1..], grown, k - 1);
    }
  }

  lemma AsMapKeys(fields: seq<Field>)
    requires DistinctKeys(fields)
    ensures AsMap(fields, map[]).Keys == Keys(fields)
  {
    var m := AsMap(fields, map[]);
    forall key ensures key in m.Keys <==> key in Keys(fields) {
      if key in Keys(fields) {
        var k :| 0 <= k < |fields| && fields[k].key == key;
        AsMapLookup(fields, map[], k);
      } else {
        AsMapKeeps(fields, map[], key);
      }
    }
  }

  lemma ApprovalKeysDistinct(e: Entry)
    requires e.Approval?
    ensures DistinctKeys(Fields(e))
  {
    hide Valid, Keys;
  }

  lemma ApprovalFieldKeys(e: Entry)
    requires e.Approval?
    ensures Keys(Fields(e)) == APPROVAL_KEYS
  {
    hide Valid;
    var f := Fields(e);
    assert f[0].key in Keys(f) && f[1].key in Keys(f) && f[2].key in Keys(f);
    assert f[3].key in Keys(f) && f[4].key in Keys(f) && f[5].key in Keys(f);
    assert f[6].key in Keys(f) && f[7].key in Keys(f) && f[8].key in Keys(f);
  }

  lemma ConsumptionFieldKeys(e: Entry)
    requires e.Consumption?
    ensures DistinctKeys(Fields(e)) && Keys(Fields(e)) == CONSUMPTION_KEYS
  {
    var f := Fields(e);
    assert f[0].key in Keys(f) && f[1].key in Keys(f) && f[2].key in Keys(f);
    assert f[3].key in Keys(f) && f[4].key in Keys(f);
  }

  lemma FieldKeys(e: Entry)
    ensures DistinctKeys(Fields(e))
    ensures Keys(Fields(e)) == if e.Approval? then APPROVAL_KEYS else CONSUMPTION_KEYS
  {
    hide *;
    if e.Approval? {
      ApprovalKeysDistinct(e);
      ApprovalFieldKeys(e);
    } else {
      ConsumptionFieldKeys(e);
    }
  }

  lemma FieldOf(e: Entry, k: nat)
    requires k < |Fields(e)|
    ensures var f, m := Fields(e)[k], AsMap(Fields(e), map[]);
      f.key in m && m[f.key] == ToJson(f.value)
  {
    FieldKeys(e);
    AsMapLookup(Fields(e), map[], k);
    hide *;
  }

  predicate Reads(obj: map<string, Json>, key: string, v: Scalar) {
    key in obj && obj[key] == ToJson(v)
  }

  lemma ApprovalLookups(e: Entry)
    requires e.Approval?
    ensures var obj := AsMap(Fields(e), map[]);
      && obj.Keys == APPROVAL_KEYS
      && Reads(obj, "approval_id", Text(e.id)) && Reads(obj, "bound_hash", Text(e.bound))
      && Reads(obj, "created_at", Number(e.created)) && Reads(obj, "entry_type", Text("approval"))
      && Reads(obj, "expires_at", Number(e.expires)) && Reads(obj, "guard_risk", Text(e.risk))
      && Reads(obj, "relative_path", Text(e.path)) && Reads(obj, "repo_root_id", Text(e.root))
      && Reads(obj, "schema_version", Number(SCHEMA_VERSION))
  {
    FieldKeys(e);
    AsMapKeys(Fields(e));
    FieldOf(e, 0);
    FieldOf(e, 1);
    FieldOf(e, 2);
    FieldOf(e, 3);
    FieldOf(e, 4);
    FieldOf(e, 5);
    FieldOf(e, 6);
    FieldOf(e, 7);
    FieldOf(e, 8);
    hide AsMap, Keys, DistinctKeys, Valid, APPROVAL_KEYS, CONSUMPTION_KEYS, ToJson;
  }

  lemma ApprovalReads(e: Entry)
    requires e.Approval? && Valid(e)
    ensures ValidateApproval(AsMap(Fields(e), map[])) == Some(e)
    ensures TextField(AsMap(Fields(e), map[]), "entry_type") == Some("approval")
  {
    ApprovalLookups(e);
    hide AsMap, Fields, Valid, APPROVAL_KEYS;
  }

  lemma ConsumptionReads(e: Entry)
    requires e.Consumption? && Valid(e)
    ensures ValidateConsumption(AsMap(Fields(e), map[])) == Some(e)
    ensures TextField(AsMap(Fields(e), map[]), "entry_type") == Some("consumption")
  {
    FieldKeys(e);
    AsMapKeys(Fields(e));
    FieldOf(e, 0);
    FieldOf(e, 1);
    FieldOf(e, 2);
    FieldOf(e, 3);
    FieldOf(e, 4);
  }

  /** The object that a record is on its line. */
  function RecordObject(e: Entry): map<string, Json> {
    match e
    case Approval(id, bound, root, path, risk, created, expires) =>
      map["approval_id" := JString(id), "bound_hash" := JString(bound), "created_at" := JInt(created),
          "entry_type" := JString("approval"), "expires_at" := JInt(expires), "guard_risk" := JString(risk),
          "relative_path" := JString(path), "repo_root_id" := JString(root), "schema_version" := JInt(1)]
    case Consumption(id, bound, consumed) =>
      map["approval_id" := JString(id), "bound_hash" := JString(bound), "consumed_at" := JInt(consumed),
          "entry_type" := JString("consumption"), "schema_version" := JInt(1)]
  }

  lemma ApprovalObject(obj: map<string, Json>, e: Entry)
    requires ValidateApproval(obj) == Some(e)
    ensures e.Approval? && Valid(e) && obj == RecordObject(e)
  {
    hide Valid;
    assert obj.Keys == RecordObject(e).Keys;
  }

  lemma ValidatedApproval(obj: map<string, Json>, e: Entry)
    ensures ValidateApproval(obj) == Some(e) <==> e.Approval? && Valid(e) && obj == RecordObject(e)
  {
    if ValidateApproval(obj) == Some(e) {
      ApprovalObject(obj, e);
    } else if e.Approval? && Valid(e) && obj == RecordObject(e) {
      ObjectValidates(e);
    }
    hide ValidateApproval, RecordObject, Valid;
  }

  lemma ObjectValidates(e: Entry)
    requires e.Approval? && Valid(e)
    ensures ValidateApproval(RecordObject(e)) == Some(e)
  {
    hide Valid;
    assert RecordObject(e).Keys == APPROVAL_KEYS;
  }

  lemma ValidatedConsumption(obj: map<string, Json>, e: Entry)
    ensures ValidateConsumption(obj) == Some(e) <==> e.Consumption? && Valid(e) && obj == RecordObject(e)
  {
    hide Valid;
    if ValidateConsumption(obj) == Some(e) {
      assert obj.Keys == RecordObject(e).Keys;
    }
  }

  /**
   A line is a record exactly when the record is valid and the line is a JSON text of its object: with all
   of its keys and no other, its type and schema version, and integers where it has integers.
   */
  lemma ParseEntryExact(line: string, e: Entry)
    ensures ParseEntryLine(line) == Some(e) <==> Valid(e) && JsonGrammar.Denotes(line, JObject(RecordObject(e)))
  {
    JsonGrammar.LoadsExact(line, JObject(RecordObject(e)));
    if Loads(line).Some? && Loads(line).value.JObject? {
      ValidatedApproval(Loads(line).value.fields, e);
      ValidatedConsumption(Loads(line).value.fields, e);
    }
    EntryType(e);
    hide Valid, Loads, ValidateApproval, ValidateConsumption, RecordObject, JsonGrammar.Denotes;
  }

  lemma EntryType(e: Entry)
    ensures TextField(RecordObject(e), "entry_type") == Some(if e.Approval? then "approval" else "consumption")
  {
  }

  /** The codec loses nothing: every valid record is read back from its own line. */
  lemma CodecRoundTrip(e: Entry)
    requires Valid(e)
    ensures ParseEntryLine(CanonicalLine(e)) == Some(e)
  {
    hide Fields, AsMap, Valid, DumpObject, Loads, ValidateApproval, ValidateConsumption, Hex64, RelativePath;
    LoadsOfDump(Fields(e));
    if e.Approval? {
      ApprovalReads(e);
    } else {
      ConsumptionReads(e);
    }
  }
}
