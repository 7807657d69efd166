/**
 The vocabulary of the managed-SQL worklist: the `sql_manages` record, its
 status and source constants, and the table the record lives in.

 The table is kept in primary-key order (ascending `id`), the order in which
 the auto-increment counter hands out ids. A row is addressed either by its
 position or, through `Row`, by its deduplication key
 `proj_fp_source_inst_schema_md5`, which carries a unique index.
 */
module Types {

  datatype Option<T> = None | Some(value: T)

  /** Values of Go's `uint64`, the type of the occurrence counter. */
  type uint64 = x: int | 0 <= x < 0x1_0000_0000_0000_0000

  /** An instant on an abstract clock; `None` is a NULL column (a nil `*time.Time`). */
  type Timestamp = Option<int>

  /** The audit findings, held as the JSON document the column stores; never inspected here. */
  type AuditResults = string

  const StatusUnhandled: string := "unhandled"
  const StatusSolved: string := "solved"
  const StatusIgnored: string := "ignored"

  const SourceAuditPlan: string := "audit_plan"
  const SourceSqlAuditRecord: string := "sql_audit_record"

  /**
   One row of `sql_manages`. `deleted` stands for `deleted_at IS NOT NULL`
   (the row is soft-deleted); `assignees` holds the login names reached
   through the `sql_manage_assignees` relation.
   */
  datatype SqlManage = SqlManage(
    id: nat,
    deleted: bool,
    sqlFingerprint: string,
    key: string,
    sqlText: string,
    source: string,
    auditLevel: string,
    auditResults: AuditResults,
    fpCount: uint64,
    firstAppearTimestamp: Timestamp,
    lastReceiveTimestamp: Timestamp,
    instanceName: string,
    schemaName: string,
    assignees: set<string>,
    status: string,
    remark: string,
    projectId: nat,
    auditPlanId: nat,
    sqlAuditRecordId: nat
  )

  /** The `sql_manages` table and its auto-increment counter. */
  datatype Store = Store(rows: seq<SqlManage>, nextId: nat)

  /** The unique index on the deduplication key. */
  predicate KeysUnique(rows: seq<SqlManage>) {
    forall i, j :: 0 <= i < j < |rows| ==> rows[i].key != rows[j].key
  }

  /** Rows are stored in primary-key order. */
  predicate IdsAscending(rows: seq<SqlManage>) {
    forall i, j :: 0 <= i < j < |rows| ==> rows[i].id < rows[j].id
  }

  /** Every id handed out so far lies below the auto-increment counter. */
  predicate IdsBelow(rows: seq<SqlManage>, bound: nat) {
    forall i :: 0 <= i < |rows| ==> rows[i].id < bound
  }

  /** The invariant every state of the table keeps. */
  predicate Valid(s: Store) {
    KeysUnique(s.rows) && IdsAscending(s.rows) && IdsBelow(s.rows, s.nextId)
  }

  /** Position of the first row carrying `key`, if any. */
  function Find(rows: seq<SqlManage>, key: string): (r: Option<nat>)
    ensures r.Some? ==> r.value < |rows| && rows[r.value].key == key
    ensures r.Some? ==> forall i :: 0 <= i < r.value ==> rows[i].key != key
    ensures r.None? <==> forall i :: 0 <= i < |rows| ==> rows[i].key != key
  {
    if rows == [] then None
    else if rows[0].key == key then Some(0)
    else
      match Find(rows[1..], key)
      case None => None
      case Some(j) => Some(j + 1)
  }

  /** The row stored under `key`: the table seen as a map from key to row. */
  function Row(rows: seq<SqlManage>, key: string): (r: Option<SqlManage>)
    ensures r.Some? ==> r.value in rows && r.value.key == key
    ensures r.None? <==> forall i :: 0 <= i < |rows| ==> rows[i].key != key
  {
    match Find(rows, key)
    case None => None
    case Some(i) => Some(rows[i])
  }

  /** Under the unique index, the row at any position is the row stored under its key. */
  lemma RowAt(rows: seq<SqlManage>, i: nat)
    requires KeysUnique(rows)
    requires i < |rows|
    ensures Row(rows, rows[i].key) == Some(rows[i])
  {
    var j := Find(rows, rows[i].key).value;
    assert rows[j].key == rows[i].key;
  }

  /** Two tables whose keys agree position by position locate every key at the same position. */
  lemma {:induction false} FindFollowsKeys(a: seq<SqlManage>, b: seq<SqlManage>, key: string)
    requires |a| == |b|
    requires forall i :: 0 <= i < |a| ==> a[i].key == b[i].key
    ensures Find(a, key) == Find(b, key)
  {
    if a != [] && a[0].key != key {
      FindFollowsKeys(a[1..], b[1..], key);
    }
  }
}
