# Managed-SQL worklist of SQLE, modelled in Dafny

SQLE collects SQL statements surfaced by audit plans and by SQL audit
records into one managed worklist, the `sql_manages` table. Each row stands
for one deduplicated statement: one project, fingerprint, source, instance
and schema, identified by the key `proj_fp_source_inst_schema_md5`, which
carries a unique index. This project models the storage layer of that
worklist (`sqle/model/sql_manage.go`):

- `InsertOrUpdateSqlManage`: a batch upsert, one multi-row
  `INSERT … ON DUPLICATE KEY UPDATE` statement (module `Upsert`, file
  `upsert.dfy`);
- `GetSqlManageByFingerprintSourceInstNameSchemaMd5`: lookup by
  deduplication key (module `Lookup`, `lookup.dfy`);
- the list query template: project scope, soft-delete exclusion, seven
  optional filters, `ORDER BY id desc` and an optional `LIMIT/OFFSET`
  (module `Query`, `query.dfy`);
- `GetSqlManageListByReq`: the list plus its total / bad / solved counts
  (module `Summary`, `summary.dfy`);
- the record, the status and source constants, and the table (module
  `Types`, `types.dfy`), and a worked two-occurrence run (module
  `Scenario`, `scenario.dfy`).

The table is a `Store`: its rows in primary-key order (ascending `id`) and
the auto-increment counter. `Row(rows, key)` reads it as a map from key to
row. `Valid` is the invariant every state keeps: keys are unique, ids
ascend, and all ids lie below the counter. The columns that the list query
joins in (project name, audit-plan name, audit-record reference) come from
a `Catalog` of those tables.

Behaviour the model follows from the code:

- On a key conflict the update list copies `fp_count`,
  `first_appear_timestamp` and `last_receive_timestamp` from the incoming
  row. It does not add to the occurrence counter, nor keep the earliest
  first-appearance or the latest last-receive time. Any accumulation has
  to happen before the batch is built; the callers that do it are not part
  of this model, so the model presumes nothing about them. As a result,
  re-running the same batch leaves every row as it was (`UpsertIdempotent`).
- A new key is inserted with the incoming `status` and `remark` exactly as
  given. The column list names `status` explicitly, so the column default
  `unhandled` does not apply. The new row has no assignees.
- The unique index does not look at `deleted_at`. A soft-deleted row
  therefore still absorbs new occurrences of its key and stays deleted.
  The key lookup goes through the ORM's soft-delete scope and reports such
  a key as not found (`DeletedStaysHidden`). The lookup preloads no
  association, so the row it returns has an empty assignee list. That scope belongs to the
  shared `Model` struct, which is not part of this model. It is assumed
  from the `deleted_at` column the query template filters on (line 126).
- The three counts are taken over the returned list. When a limit is
  given, that list is one page, not every matching row.
- A time-range filter compared with a NULL `last_receive_timestamp` is not
  true. A row with no last-receive time is therefore excluded whenever
  either bound is given.

## Model

| member | source | states |
|---|---|---|
| `Types.Find` | sqle/model/sql_manage.go:25 | locates the first row carrying a key, or reports that no row carries it |
| `Types.RowAt` | sqle/model/sql_manage.go:25 | under the unique index, the row at any position is the row stored under its key |
| `Upsert.Merge` | sqle/model/sql_manage.go:217-224 | the conflict branch takes exactly the eight listed columns (sql_text, audit_plan_id, sql_audit_record_id, audit_level, audit_results, fp_count, both timestamps) from the incoming row and keeps every other column, including id, soft-delete, status, remark and assignees; no other row satisfies both halves |
| `Upsert.UpsertOneRow` | sqle/model/sql_manage.go:204-224 | one VALUES row: an existing key becomes the merged row, a new key becomes the incoming row under the next id, and every other key is unchanged |
| `Upsert.BatchKeepsTable` | sqle/model/sql_manage.go:201-228 | the batch, applied row by row, keeps the unique index and the id order, never moves or renumbers a stored row, and stores every key of the batch; the model's id counter advances by exactly the number of inserted rows |
| `Upsert.UntouchedKeyUnchanged` | sqle/model/sql_manage.go:204-216 | a key that no batch row carries is left exactly as it was |
| `Upsert.ExistingKeyMerged` | sqle/model/sql_manage.go:217-224 | an existing key ends up as its stored row merged with the LAST batch row carrying it, even when the batch repeats the key |
| `Upsert.NewKeyInserted` | sqle/model/sql_manage.go:204-224 | a new key ends up as one row under an id at or above the old counter: the first batch row's columns with the last batch row's update columns |
| `Upsert.SingleNewKeyInsertedVerbatim` | sqle/model/sql_manage.go:206-216 | a new key that occurs once in the batch is stored with exactly that row's column values, no assignees and not deleted |
| `Upsert.WorkflowStateKept` | sqle/model/sql_manage.go:217-224 | a stored row keeps its id, soft-delete flag, fingerprint, source, instance, schema, project, status, remark and assignees through any upsert |
| `Upsert.SolvedStaysSolved` | sqle/model/sql_manage.go:36-38 | an upsert never reverts a solved row |
| `Upsert.NoNewKeysNoInsert` | sqle/model/sql_manage.go:212-217 | when every key of the batch is already stored, no row is added, and the model's id counter does not move |
| `Upsert.UpsertIdempotent` | sqle/model/sql_manage.go:217-224 | applying the same batch twice leaves exactly the rows that applying it once leaves (and the model's id counter where it was) |
| `Lookup.GetSqlManageByFingerprintSourceInstNameSchemaMd5` | sqle/model/sql_manage.go:50-58 | found exactly when the row stored under the key exists and is not soft-deleted, and then returns that row's columns with the unloaded assignee list left empty; otherwise found is false and the row is the zero value |
| `Lookup.LookupFindsLiveRows` | sqle/model/sql_manage.go:50-55 | a key that no live row carries is not found; under the unique index, found holds exactly when some live row carries the key |
| `Lookup.FoundAfterUpsert` | sqle/model/sql_manage.go:50-58 | after an upsert every batch key is found with its last batch row's update columns, unless its row was already soft-deleted |
| `Lookup.DeletedStaysHidden` | sqle/model/sql_manage.go:50-55 | a key whose row was soft-deleted is still not found after any upsert |
| `Query.Candidates` | sqle/model/sql_manage.go:115-158 | every returned row is a stored row of the named project that is not deleted and passes every non-empty filter, joined with its plan name and record reference; every such row is returned |
| `Query.CandidatesDescending` | sqle/model/sql_manage.go:107-108 | with ids ascending along the table, the result is strictly descending by id |
| `Query.Page` | sqle/model/sql_manage.go:110-112 | with a zero limit everything is returned; otherwise at most `limit` rows, the ones starting at `offset`, and none once the offset passes the end |
| `Query.GetSqlManageList` | sqle/model/sql_manage.go:86-161 | results are sound for scope and filters, complete when unpaged, and strictly descending by id; when paged, the result is the slice of the matching rows starting at `offset`, at most `limit` long |
| `Query.CandidatesIgnorePaging` | sqle/model/sql_manage.go:110-112 | the limit and offset do not change which rows match, nor their order |
| `Query.PageIsSliceOfUnpaged` | sqle/model/sql_manage.go:107-112 | a page is exactly the slice of the unpaged newest-first result that starts at `offset` and holds at most `limit` rows, empty once the offset passes the end |
| `Query.RelaxingWidens` | sqle/model/sql_manage.go:128-158 | dropping a filter, or widening the time range, never removes a row from the unpaged result and never shortens it |
| `Query.NoFilterListsProject` | sqle/model/sql_manage.go:125-126 | with no filter given, the unpaged result holds exactly the live rows of the project |
| `Query.TimeRangeInclusive` | sqle/model/sql_manage.go:148-154 | under any request, a listed row has a last-receive time within each given bound, ends included; with only the range given, a live row of the project matches exactly when its last-receive time lies in the closed range |
| `Summary.CountSummary` | sqle/model/sql_manage.go:170-182 | total is the list length; bad is the number of positions with an audit level and a status other than solved; solved is the number of positions with status solved; bad + solved ≤ total |
| `Summary.GetSqlManageListByReq` | sqle/model/sql_manage.go:163-190 | the response carries the query's list and counts that agree with that same list |
| `Summary.SolvedFilterCounts` | sqle/model/sql_manage.go:156-182 | filtering on status solved yields bad = 0 and solved = total |
| `Summary.UnsolvedLevelFilterCounts` | sqle/model/sql_manage.go:144-182 | filtering on an audit level and an unsolved status yields bad = total and solved = 0 |
| `Scenario.TwoOccurrencesMerge` | sqle/model/sql_manage.go:201-228 | two occurrences of one key, upserted in turn, leave one row with id 1, status unhandled, and the second occurrence's level, counter and last-seen time |
| `Scenario.QueryByLevelAfterMerge` | sqle/model/sql_manage.go:163-190 | querying that table by level "high" returns the one row with its plan name, counted as bad and not solved |

## Left out

- SQL text assembly: the `fmt.Sprintf` placeholder list, argument
  flattening and Go template rendering. Only the semantics they encode are
  modelled.
- Errors from the store. `getListResult` and `errors.New` are not part of
  this model, so the storage-error paths at lines 57, 166-168 and 227 are
  not modelled.
- Upsert.InsertOrUpdateSqlManage: an empty batch leaves the table as it
  was, as in the source, but the source joins no value patterns
  (lines 204-225), so its statement reads `VALUES ON DUPLICATE KEY UPDATE`
  and always fails with a syntax error; the model returns no error.
- Transactions, atomicity of the multi-row statement, and concurrent
  writers or readers. The table is a sequential value.
- Exact auto-increment values. The model hands out one id per inserted row
  from its own counter, and the statements above about that counter are
  about the model only. InnoDB treats `INSERT … ON DUPLICATE KEY UPDATE` as
  a mixed-mode insert and may allocate ids for rows that end as updates,
  so the real counter can move even when no row is added. The statements
  about rows (a new row's id is fresh and above every stored id) hold with
  such gaps too.
- How the md5 deduplication key is computed. Callers produce it, so it is
  an opaque string here. The model does not check that it agrees with the
  other columns.
- LIKE collation, case folding, and `%` / `_` acting as wildcards inside
  the fuzzy fingerprint search. The filter is a plain substring test.
- Column collation. Every string comparison is exact: the deduplication
  key in the unique index (line 25) and the lookup (line 52), and the
  project, assignee, instance, source, level and status filters
  (lines 125-157). The table's collation is not part of this model; under
  MySQL's usual case-insensitive collations, keys such as `ABC` and `abc`
  would conflict, where in the model they are distinct.
- Quoting of the fuzzy search value. Line 129 pastes it into the SQL text
  unescaped, so a `'` or `\` in it ends the string literal and the
  statement fails or its condition changes. The model treats the value as
  data.
- `GROUP_CONCAT` formatting of assignee login names. Assignees are a set of
  login names. The narrowing of that concatenation by the assignee filter
  is not modelled: a listed row carries its full assignee set.
- `created_at` / `updated_at`: the raw statement does not write them, and
  their column defaults are not part of this model.
- `GetAllSqlManageList`: a plain full-table read.
- Real time values. Timestamps are integers on an abstract clock, and NULL
  is `None`.
- The JSON content of `audit_results`. It is an opaque string.
- Go's `uint64` counters in the response: they are bounded by the list
  length and cannot wrap, so they are `nat`.
