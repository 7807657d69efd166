/**
 `GetSqlManageByFingerprintSourceInstNameSchemaMd5`: fetch the row stored
 under a deduplication key. The lookup goes through the ORM, whose default
 soft-delete scope adds `deleted_at IS NULL`, so a soft-deleted row is not
 found even though its key still occupies the unique index. The query
 preloads no association, so the many-to-many assignee list of the row it
 returns is left empty.
 */
module Lookup {
  import opened Types
  import opened Upsert

  /** The zero value of the Go struct, returned alongside `found = false`. */
  const ZeroSqlManage: SqlManage :=
    SqlManage(0, false, "", "", "", "", "", "", 0, None, None, "", "", {}, "", "", 0, 0, 0)

  datatype LookupResult = LookupResult(row: SqlManage, found: bool)

  /** Is there a live (not soft-deleted) row stored under `key`? */
  predicate LiveRowWithKey(rows: seq<SqlManage>, key: string) {
    exists i :: 0 <= i < |rows| && rows[i].key == key && !rows[i].deleted
  }

  function GetSqlManageByFingerprintSourceInstNameSchemaMd5(s: Store, key: string): (r: LookupResult)
    ensures r.found ==> Row(s.rows, key).Some? && r.row == Row(s.rows, key).value.(assignees := {})
    ensures r.found ==> r.row.key == key && !r.row.deleted
    ensures !r.found ==> r.row == ZeroSqlManage
    ensures r.found <==> Row(s.rows, key).Some? && !Row(s.rows, key).value.deleted
    ensures r.row.assignees == {}
  {
    match Find(s.rows, key)
    case Some(i) =>
      if s.rows[i].deleted then
        LookupResult(ZeroSqlManage, false)
      else
        LookupResult(s.rows[i].(assignees := {}), true)
    case None => LookupResult(ZeroSqlManage, false)
  }

  /**
   Under the unique index the lookup finds a key exactly when some live row
   carries it; a key no row carries is never found.
   */
  lemma LookupFindsLiveRows(s: Store, key: string)
    ensures !LiveRowWithKey(s.rows, key) ==> !GetSqlManageByFingerprintSourceInstNameSchemaMd5(s, key).found
    ensures KeysUnique(s.rows) ==>
              (GetSqlManageByFingerprintSourceInstNameSchemaMd5(s, key).found <==> LiveRowWithKey(s.rows, key))
  {
  }

  /**
   After an upsert, every key of the batch is found, carrying the update
   columns of its last batch row, unless the key belonged to a row that was
   already soft-deleted.
   */
  lemma FoundAfterUpsert(s: Store, batch: seq<SqlManage>, i: nat)
    requires KeysUnique(s.rows)
    requires i < |batch|
    requires Row(s.rows, batch[i].key).None? || !Row(s.rows, batch[i].key).value.deleted
    ensures var k := batch[i].key;
            var r := GetSqlManageByFingerprintSourceInstNameSchemaMd5(InsertOrUpdateSqlManage(s, batch), k);
            r.found && r.row.key == k && UpdatedFrom(r.row, LastWithKey(batch, k).value)
  {
    var k := batch[i].key;
    var after := InsertOrUpdateSqlManage(s, batch);
    assert LastWithKey(batch, k).Some?;
    TouchedKeyAbsorbs(s, batch, k);
    match Row(s.rows, k)
    case Some(prev) =>
      ExistingKeyMerged(s, batch, k, prev);
    case None =>
      NewKeyInserted(s, batch, k);
  }

  /** A soft-deleted row stays soft-deleted through any upsert, so its key is never found again. */
  lemma DeletedStaysHidden(s: Store, batch: seq<SqlManage>, k: string)
    requires Row(s.rows, k).Some? && Row(s.rows, k).value.deleted
    ensures !GetSqlManageByFingerprintSourceInstNameSchemaMd5(InsertOrUpdateSqlManage(s, batch), k).found
  {
    WorkflowStateKept(s, batch, k, Row(s.rows, k).value);
  }
}
