/**
 `InsertOrUpdateSqlManage`: one multi-row `INSERT … ON DUPLICATE KEY UPDATE`
 over `sql_manages`. Rows are applied left to right; a row whose key is new
 is inserted under a fresh id, a row whose key is already stored (possibly by
 an earlier row of the same batch) overwrites exactly the eight columns named
 in the update list and leaves every other column alone.
 */
module Upsert {
  import opened Types

  /**
   The row an INSERT creates: the sixteen listed columns taken from `m`, the
   next auto-increment id, not soft-deleted and with no assignees (the
   statement never writes the assignee relation).
   */
  function NewRow(m: SqlManage, id: nat): SqlManage {
    m.(id := id, deleted := false, assignees := {})
  }

  /** The eight columns the ON DUPLICATE KEY UPDATE list takes from the incoming row. */
  predicate UpdatedFrom(r: SqlManage, m: SqlManage) {
    && r.sqlText == m.sqlText
    && r.auditPlanId == m.auditPlanId
    && r.sqlAuditRecordId == m.sqlAuditRecordId
    && r.auditLevel == m.auditLevel
    && r.auditResults == m.auditResults
    && r.fpCount == m.fpCount
    && r.firstAppearTimestamp == m.firstAppearTimestamp
    && r.lastReceiveTimestamp == m.lastReceiveTimestamp
  }

  /** Every column the update list does not name: identity, grouping, soft-delete and workflow state. */
  predicate KeptFrom(r: SqlManage, prev: SqlManage) {
    && r.id == prev.id
    && r.deleted == prev.deleted
    && r.key == prev.key
    && r.sqlFingerprint == prev.sqlFingerprint
    && r.source == prev.source
    && r.instanceName == prev.instanceName
    && r.schemaName == prev.schemaName
    && r.projectId == prev.projectId
    && r.status == prev.status
    && r.remark == prev.remark
    && r.assignees == prev.assignees
  }

  /** The conflict branch: the stored row `prev` after a duplicate-key hit by the incoming row `m`. */
  function Merge(prev: SqlManage, m: SqlManage): (r: SqlManage)
    ensures UpdatedFrom(r, m) && KeptFrom(r, prev)
    ensures forall x :: UpdatedFrom(x, m) && KeptFrom(x, prev) ==> x == r
  {
    prev.(sqlText := m.sqlText, auditPlanId := m.auditPlanId, sqlAuditRecordId := m.sqlAuditRecordId,
         auditLevel := m.auditLevel, auditResults := m.auditResults, fpCount := m.fpCount,
         firstAppearTimestamp := m.firstAppearTimestamp, lastReceiveTimestamp := m.lastReceiveTimestamp)
  }

  /** Rows already stored keep their position, key and id: `b` extends `a`. */
  predicate Extends(a: seq<SqlManage>, b: seq<SqlManage>) {
    |a| <= |b| && forall i :: 0 <= i < |a| ==> b[i].key == a[i].key && b[i].id == a[i].id
  }

  /** One row of the VALUES list. */
  function UpsertOne(s: Store, m: SqlManage): Store {
    match Find(s.rows, m.key)
    case Some(i) => Store(s.rows[i := Merge(s.rows[i], m)], s.nextId)
    case None => Store(s.rows + [NewRow(m, s.nextId)], s.nextId + 1)
  }

  /** Appending a row leaves the position of every key already present unchanged. */
  lemma FindAppend(rows: seq<SqlManage>, x: SqlManage, key: string)
    ensures Find(rows + [x], key) ==
            (if Find(rows, key).Some? then Find(rows, key)
             else if x.key == key then Some(|rows|) else None)
  {
    var a := rows + [x];
    assert a[|rows|] == x;
    assert forall i :: 0 <= i < |rows| ==> a[i] == rows[i];
    if Find(rows, key).Some? {
      assert a[Find(rows, key).value].key == key;
    }
  }

  /** What a single VALUES row does to the table, seen as a map from key to row. */
  lemma UpsertOneRow(s: Store, m: SqlManage, k: string)
    ensures Row(UpsertOne(s, m).rows, k) ==
            (if k != m.key then Row(s.rows, k)
             else match Row(s.rows, k)
                  case Some(prev) => Some(Merge(prev, m))
                  case None => Some(NewRow(m, s.nextId)))
  {
    var r := UpsertOne(s, m);
    match Find(s.rows, m.key)
    case Some(i) =>
      FindFollowsKeys(r.rows, s.rows, k);
    case None =>
      FindAppend(s.rows, NewRow(m, s.nextId), k);
  }

  /** A single VALUES row keeps the table invariant and never moves or renumbers a stored row. */
  lemma UpsertOneKeeps(s: Store, m: SqlManage)
    ensures KeysUnique(s.rows) ==> KeysUnique(UpsertOne(s, m).rows)
    ensures Valid(s) ==> Valid(UpsertOne(s, m))
    ensures Extends(s.rows, UpsertOne(s, m).rows)
    ensures s.nextId <= UpsertOne(s, m).nextId
    ensures |UpsertOne(s, m).rows| - |s.rows| == UpsertOne(s, m).nextId - s.nextId
  {
    var r := UpsertOne(s, m);
    match Find(s.rows, m.key)
    case Some(i) =>
      assert forall j :: 0 <= j < |s.rows| ==> r.rows[j].key == s.rows[j].key && r.rows[j].id == s.rows[j].id;
    case None =>
      assert forall j :: 0 <= j < |s.rows| ==> r.rows[j] == s.rows[j];
      assert r.rows[|s.rows|].key == m.key && r.rows[|s.rows|].id == s.nextId;
  }

  /**
   The whole statement: the VALUES rows applied in order, each seeing the
   effect of the ones before it.
   */
  function InsertOrUpdateSqlManage(s: Store, batch: seq<SqlManage>): Store
    decreases |batch|
  {
    if batch == [] then s
    else InsertOrUpdateSqlManage(UpsertOne(s, batch[0]), batch[1..])
  }

  /**
   The statement keeps the unique index and the id order, never moves or
   renumbers a stored row, consumes one id per inserted row, and leaves every
   key of the batch stored.
   */
  lemma {:induction false} BatchKeepsTable(s: Store, batch: seq<SqlManage>)
    ensures var r := InsertOrUpdateSqlManage(s, batch);
            && (KeysUnique(s.rows) ==> KeysUnique(r.rows))
            && (Valid(s) ==> Valid(r))
            && Extends(s.rows, r.rows)
            && s.nextId <= r.nextId
            && |r.rows| - |s.rows| == r.nextId - s.nextId
            && forall i :: 0 <= i < |batch| ==> Row(r.rows, batch[i].key).Some?
    decreases |batch|
  {
    if batch != [] {
      var s1 := UpsertOne(s, batch[0]);
      UpsertOneKeeps(s, batch[0]);
      BatchKeepsTable(s1, batch[1..]);
      BatchStepCovers(s, batch, InsertOrUpdateSqlManage(s, batch));
    }
  }

  /** The first row's key survives the rest of the batch, so every key of the batch ends up stored. */
  lemma BatchStepCovers(s: Store, batch: seq<SqlManage>, r: Store)
    requires batch != []
    requires Extends(UpsertOne(s, batch[0]).rows, r.rows)
    requires forall i :: 0 <= i < |batch[1..]| ==> Row(r.rows, batch[1..][i].key).Some?
    ensures forall i :: 0 <= i < |batch| ==> Row(r.rows, batch[i].key).Some?
  {
    var s1 := UpsertOne(s, batch[0]);
    UpsertOneRow(s, batch[0], batch[0].key);
    var j := Find(s1.rows, batch[0].key).value;
    assert r.rows[j].key == batch[0].key;
    assert forall i :: 0 < i < |batch| ==> batch[i] == batch[1..][i - 1];
  }

  /** Position of the last row of `batch` carrying `key`, if any. */
  function FindLast(batch: seq<SqlManage>, key: string): (r: Option<nat>)
    ensures r.Some? ==> r.value < |batch| && batch[r.value].key == key
    ensures r.Some? ==> forall i :: r.value < i < |batch| ==> batch[i].key != key
    ensures r.None? <==> forall i :: 0 <= i < |batch| ==> batch[i].key != key
  {
    if batch == [] then None
    else if batch[|batch| - 1].key == key then Some(|batch| - 1)
    else FindLast(batch[..|batch| - 1], key)
  }

  /** The first row of the batch with key `key`: the one that inserts it when it is new. */
  function FirstWithKey(batch: seq<SqlManage>, key: string): Option<SqlManage> {
    match Find(batch, key)
    case None => None
    case Some(i) => Some(batch[i])
  }

  /** The last row of the batch with key `key`: the one whose columns win. */
  function LastWithKey(batch: seq<SqlManage>, key: string): Option<SqlManage> {
    match FindLast(batch, key)
    case None => None
    case Some(i) => Some(batch[i])
  }

  /** `LastWithKey` read from the front of the batch. */
  lemma LastWithKeyStep(batch: seq<SqlManage>, key: string)
    requires batch != []
    ensures LastWithKey(batch, key) ==
            (if LastWithKey(batch[1..], key).Some? then LastWithKey(batch[1..], key)
             else if batch[0].key == key then Some(batch[0]) else None)
  {
    var rest := batch[1..];
    assert forall i :: 1 <= i < |batch| ==> batch[i] == rest[i - 1];
    match FindLast(rest, key)
    case Some(j) =>
      assert batch[j + 1].key == key;
    case None =>
  }

  /** A key that no row of the batch carries is left exactly as it was. */
  lemma {:induction false} UntouchedKeyUnchanged(s: Store, batch: seq<SqlManage>, k: string)
    requires forall i :: 0 <= i < |batch| ==> batch[i].key != k
    ensures Row(InsertOrUpdateSqlManage(s, batch).rows, k) == Row(s.rows, k)
    decreases |batch|
  {
    if batch != [] {
      UpsertOneRow(s, batch[0], k);
      assert forall i :: 0 <= i < |batch[1..]| ==> batch[1..][i] == batch[i + 1];
      UntouchedKeyUnchanged(UpsertOne(s, batch[0]), batch[1..], k);
    }
  }

  /**
   A key already stored ends up as the stored row with the eight update
   columns of the LAST batch row carrying that key: earlier rows with the
   same key are overwritten in turn.
   */
  lemma {:induction false} ExistingKeyMerged(s: Store, batch: seq<SqlManage>, k: string, prev: SqlManage)
    requires Row(s.rows, k) == Some(prev)
    requires LastWithKey(batch, k).Some?
    ensures Row(InsertOrUpdateSqlManage(s, batch).rows, k) == Some(Merge(prev, LastWithKey(batch, k).value))
    decreases |batch|
  {
    var s1 := UpsertOne(s, batch[0]);
    var rest := batch[1..];
    UpsertOneRow(s, batch[0], k);
    LastWithKeyStep(batch, k);
    var row1 := if batch[0].key == k then Merge(prev, batch[0]) else prev;
    assert Row(s1.rows, k) == Some(row1);
    if LastWithKey(rest, k).Some? {
      ExistingKeyMerged(s1, rest, k, row1);
    } else {
      assert forall i :: 0 <= i < |rest| ==> rest[i].key != k;
      UntouchedKeyUnchanged(s1, rest, k);
    }
  }

  /**
   A key not yet stored ends up as one new row under a fresh id: the columns
   of the FIRST batch row carrying it (status, remark, fingerprint, source,
   instance, schema, project), with the eight update columns of the LAST.
   */
  lemma {:induction false} NewKeyInserted(s: Store, batch: seq<SqlManage>, k: string)
    requires Row(s.rows, k).None?
    requires FirstWithKey(batch, k).Some?
    ensures LastWithKey(batch, k).Some?
    ensures var r := Row(InsertOrUpdateSqlManage(s, batch).rows, k);
            && r.Some?
            && r.value == Merge(NewRow(FirstWithKey(batch, k).value, r.value.id), LastWithKey(batch, k).value)
            && s.nextId <= r.value.id
    decreases |batch|
  {
    var s1 := UpsertOne(s, batch[0]);
    var rest := batch[1..];
    var f := FirstWithKey(batch, k).value;
    UpsertOneRow(s, batch[0], k);
    LastWithKeyStep(batch, k);
    if batch[0].key == k {
      assert f == batch[0];
      var row1 := NewRow(batch[0], s.nextId);
      if LastWithKey(rest, k).Some? {
        ExistingKeyMerged(s1, rest, k, row1);
      } else {
        assert forall i :: 0 <= i < |rest| ==> rest[i].key != k;
        UntouchedKeyUnchanged(s1, rest, k);
      }
    } else {
      assert FirstWithKey(rest, k) == FirstWithKey(batch, k);
      NewKeyInserted(s1, rest, k);
    }
  }

  /** A stored row keeps its identity, grouping columns and human workflow state through any upsert. */
  lemma WorkflowStateKept(s: Store, batch: seq<SqlManage>, k: string, prev: SqlManage)
    requires Row(s.rows, k) == Some(prev)
    ensures var r := Row(InsertOrUpdateSqlManage(s, batch).rows, k);
            r.Some? && KeptFrom(r.value, prev)
  {
    if LastWithKey(batch, k).Some? {
      ExistingKeyMerged(s, batch, k, prev);
    } else {
      UntouchedKeyUnchanged(s, batch, k);
    }
  }

  /** In particular an upsert never reverts a row that was marked solved. */
  lemma SolvedStaysSolved(s: Store, batch: seq<SqlManage>, k: string)
    requires Row(s.rows, k).Some? && Row(s.rows, k).value.status == StatusSolved
    ensures Row(InsertOrUpdateSqlManage(s, batch).rows, k).Some?
    ensures Row(InsertOrUpdateSqlManage(s, batch).rows, k).value.status == StatusSolved
  {
    WorkflowStateKept(s, batch, k, Row(s.rows, k).value);
  }

  /** A key that occurs once in the batch and is new is stored with exactly that row's columns. */
  lemma SingleNewKeyInsertedVerbatim(s: Store, batch: seq<SqlManage>, i: nat)
    requires i < |batch|
    requires Row(s.rows, batch[i].key).None?
    requires forall j :: 0 <= j < |batch| && j != i ==> batch[j].key != batch[i].key
    ensures var r := Row(InsertOrUpdateSqlManage(s, batch).rows, batch[i].key);
            r.Some? && r.value == NewRow(batch[i], r.value.id) && s.nextId <= r.value.id
  {
    var k := batch[i].key;
    NewKeyInserted(s, batch, k);
    assert Find(batch, k) == Some(i);
    assert FindLast(batch, k) == Some(i);
  }

  /** When every key of the batch is already stored, nothing is inserted. */
  lemma {:induction false} NoNewKeysNoInsert(s: Store, batch: seq<SqlManage>)
    requires forall i :: 0 <= i < |batch| ==> Row(s.rows, batch[i].key).Some?
    ensures InsertOrUpdateSqlManage(s, batch).nextId == s.nextId
    ensures |InsertOrUpdateSqlManage(s, batch).rows| == |s.rows|
    decreases |batch|
  {
    if batch != [] {
      var s1 := UpsertOne(s, batch[0]);
      assert s1.nextId == s.nextId && |s1.rows| == |s.rows|;
      forall i | 0 <= i < |batch[1..]|
        ensures Row(s1.rows, batch[1..][i].key).Some?
      {
        UpsertOneRow(s, batch[0], batch[1..][i].key);
        assert batch[1..][i] == batch[i + 1];
      }
      NoNewKeysNoInsert(s1, batch[1..]);
    }
  }

  /** The row stored under `k` after an upsert that touched `k` carries that key's last batch columns. */
  lemma TouchedKeyAbsorbs(s: Store, batch: seq<SqlManage>, k: string)
    requires LastWithKey(batch, k).Some?
    ensures var r := Row(InsertOrUpdateSqlManage(s, batch).rows, k);
            r.Some? && Merge(r.value, LastWithKey(batch, k).value) == r.value
  {
    match Row(s.rows, k)
    case Some(prev) =>
      ExistingKeyMerged(s, batch, k, prev);
    case None =>
      NewKeyInserted(s, batch, k);
  }

  /**
   Re-running the same batch changes nothing: the update list overwrites the
   counter and both timestamps instead of accumulating them, so a repeated
   delivery of a batch is not double-counted.
   */
  lemma UpsertIdempotent(s: Store, batch: seq<SqlManage>)
    requires KeysUnique(s.rows)
    ensures InsertOrUpdateSqlManage(InsertOrUpdateSqlManage(s, batch), batch).rows == InsertOrUpdateSqlManage(s, batch).rows
    ensures InsertOrUpdateSqlManage(InsertOrUpdateSqlManage(s, batch), batch).nextId == InsertOrUpdateSqlManage(s, batch).nextId
  {
    var r1 := InsertOrUpdateSqlManage(s, batch);
    var r2 := InsertOrUpdateSqlManage(r1, batch);
    BatchKeepsTable(s, batch);
    BatchKeepsTable(r1, batch);
    NoNewKeysNoInsert(r1, batch);
    forall i | 0 <= i < |r1.rows|
      ensures r2.rows[i] == r1.rows[i]
    {
      var k := r1.rows[i].key;
      RowAt(r1.rows, i);
      RowAt(r2.rows, i);
      if LastWithKey(batch, k).Some? {
        TouchedKeyAbsorbs(s, batch, k);
        ExistingKeyMerged(r1, batch, k, r1.rows[i]);
      } else {
        assert forall j :: 0 <= j < |batch| ==> batch[j].key != k;
        UntouchedKeyUnchanged(r1, batch, k);
      }
    }
    assert r2.rows == r1.rows;
  }
}
