/**
 The managed-SQL list query: the rows of one project that are not
 soft-deleted and pass every filter that was given a non-empty value, joined
 with the originating audit plan's name and audit record's reference, in
 descending id order, then cut to a page when a non-zero limit is given.
 */
module Query {
  import opened Types

  /** The other tables the query joins: project names, audit-plan names and audit-record references, by id. */
  datatype Catalog = Catalog(
    projectNames: map<nat, string>,
    auditPlanNames: map<nat, string>,
    auditRecordIds: map<nat, string>
  )

  /**
   The request parameters. A string filter that is empty, and a time bound
   that is `None`, is absent: the template's `if` drops its condition. A
   `limit` of zero means no LIMIT clause, and then `offset` is ignored.
   */
  datatype ListRequest = ListRequest(
    projectName: string,
    fuzzySearchSqlFingerprint: string,
    filterAssignee: string,
    filterInstanceName: string,
    filterSource: string,
    filterAuditLevel: string,
    filterLastAuditStartTimeFrom: Option<int>,
    filterLastAuditStartTimeTo: Option<int>,
    filterStatus: string,
    limit: nat,
    offset: nat
  )

  /** One result row: the stored row with the two columns the LEFT JOINs add (NULL when the join finds nothing). */
  datatype SqlManageDetail = SqlManageDetail(row: SqlManage, apName: Option<string>, sqlAuditRecordId: Option<string>)

  /** `s LIKE '%pat%'`, read as a plain substring test. */
  predicate Contains(s: string, pat: string)
    decreases |s|
  {
    pat <= s || (s != [] && Contains(s[1..], pat))
  }

  /** An exact-match filter guarded by the template's `if`: an empty filter value adds no condition. */
  predicate OptionalEq(filter: string, value: string) {
    filter == "" || value == filter
  }

  /** `p.name = :project_name` through the LEFT JOIN on `projects`: a row whose project is missing never matches. */
  predicate InProject(cat: Catalog, projectName: string, m: SqlManage) {
    m.projectId in cat.projectNames && cat.projectNames[m.projectId] == projectName
  }

  /**
   The WHERE clause. A range bound compared with a NULL timestamp is not
   true in SQL, so a row without a last-receive time fails either bound.
   */
  predicate Matches(cat: Catalog, q: ListRequest, m: SqlManage) {
    && InProject(cat, q.projectName, m)
    && !m.deleted
    && (q.fuzzySearchSqlFingerprint == "" || Contains(m.sqlFingerprint, q.fuzzySearchSqlFingerprint))
    && (q.filterAssignee == "" || q.filterAssignee in m.assignees)
    && OptionalEq(q.filterInstanceName, m.instanceName)
    && OptionalEq(q.filterSource, m.source)
    && OptionalEq(q.filterAuditLevel, m.auditLevel)
    && (q.filterLastAuditStartTimeFrom.None? ||
        (m.lastReceiveTimestamp.Some? && q.filterLastAuditStartTimeFrom.value <= m.lastReceiveTimestamp.value))
    && (q.filterLastAuditStartTimeTo.None? ||
        (m.lastReceiveTimestamp.Some? && m.lastReceiveTimestamp.value <= q.filterLastAuditStartTimeTo.value))
    && OptionalEq(q.filterStatus, m.status)
  }

  /** The columns the audit-plan and audit-record LEFT JOINs contribute. */
  function ToDetail(cat: Catalog, m: SqlManage): SqlManageDetail {
    SqlManageDetail(
      m,
      if m.auditPlanId in cat.auditPlanNames then Some(cat.auditPlanNames[m.auditPlanId]) else None,
      if m.sqlAuditRecordId in cat.auditRecordIds then Some(cat.auditRecordIds[m.sqlAuditRecordId]) else None)
  }

  predicate IdsDescending(r: seq<SqlManageDetail>) {
    forall i, j :: 0 <= i < j < |r| ==> r[i].row.id > r[j].row.id
  }

  /**
   The matching rows, newest first: the table is walked from its highest id
   down, which is `ORDER BY sm.id desc` when ids ascend along the table.
   */
  function Candidates(cat: Catalog, q: ListRequest, rows: seq<SqlManage>): (r: seq<SqlManageDetail>)
    ensures |r| <= |rows|
    ensures forall d :: d in r ==> d.row in rows && Matches(cat, q, d.row) && d == ToDetail(cat, d.row)
    ensures forall i :: 0 <= i < |rows| && Matches(cat, q, rows[i]) ==> ToDetail(cat, rows[i]) in r
    decreases |rows|
  {
    if rows == [] then []
    else
      var last := rows[|rows| - 1];
      var front := rows[..|rows| - 1];
      var rest := Candidates(cat, q, front);
      assert forall i :: 0 <= i < |front| ==> front[i] == rows[i];
      if Matches(cat, q, last) then [ToDetail(cat, last)] + rest else rest
  }

  /** Walking the table backwards turns ascending ids into descending ones. */
  lemma {:induction false} CandidatesDescending(cat: Catalog, q: ListRequest, rows: seq<SqlManage>)
    requires IdsAscending(rows)
    ensures IdsDescending(Candidates(cat, q, rows))
    decreases |rows|
  {
    if rows != [] {
      var last := rows[|rows| - 1];
      var front := rows[..|rows| - 1];
      CandidatesDescending(cat, q, front);
      forall d | d in Candidates(cat, q, front)
        ensures d.row.id < last.id
      {
        var i :| 0 <= i < |front| && front[i] == d.row;
        assert rows[i] == d.row;
      }
    }
  }

  function Min(a: nat, b: nat): nat {
    if a <= b then a else b
  }

  /** `LIMIT :limit OFFSET :offset`, emitted only when the limit is non-zero. */
  function Page<T>(all: seq<T>, limit: nat, offset: nat): (r: seq<T>)
    ensures limit == 0 ==> r == all
    ensures limit != 0 ==> |r| <= limit
    ensures limit != 0 ==> |r| == (if offset < |all| then Min(limit, |all| - offset) else 0)
    ensures limit != 0 ==> forall i :: 0 <= i < |r| ==> offset + i < |all| && r[i] == all[offset + i]
    ensures forall x :: x in r ==> x in all
  {
    if limit == 0 then all
    else all[Min(offset, |all|)..Min(offset + limit, |all|)]
  }

  /** The result list of the managed-SQL query. */
  function GetSqlManageList(s: Store, cat: Catalog, q: ListRequest): (r: seq<SqlManageDetail>)
    ensures forall d :: d in r ==> d.row in s.rows && Matches(cat, q, d.row) && d == ToDetail(cat, d.row)
    ensures q.limit == 0 ==> forall i :: 0 <= i < |s.rows| && Matches(cat, q, s.rows[i]) ==> ToDetail(cat, s.rows[i]) in r
    ensures q.limit != 0 ==> |r| <= q.limit
    ensures q.limit != 0 ==>
              var all := Candidates(cat, q, s.rows);
              && |r| == (if q.offset < |all| then Min(q.limit, |all| - q.offset) else 0)
              && forall i :: 0 <= i < |r| ==> q.offset + i < |all| && r[i] == all[q.offset + i]
    ensures Valid(s) ==> IdsDescending(r)
  {
    var all := Candidates(cat, q, s.rows);
    var r := Page(all, q.limit, q.offset);
    if Valid(s) then CandidatesDescending(cat, q, s.rows); r else r
  }

  /** The filters alone decide which rows are candidates; the page bounds play no part. */
  lemma {:induction false} CandidatesIgnorePaging(cat: Catalog, q: ListRequest, rows: seq<SqlManage>, limit: nat, offset: nat)
    ensures Candidates(cat, q.(limit := limit, offset := offset), rows) == Candidates(cat, q, rows)
    decreases |rows|
  {
    if rows != [] {
      CandidatesIgnorePaging(cat, q, rows[..|rows| - 1], limit, offset);
    }
  }

  /**
   A page is the slice of the unpaged, newest-first result that starts at
   the offset: at most `limit` rows, none once the offset passes the end.
   */
  lemma PageIsSliceOfUnpaged(s: Store, cat: Catalog, q: ListRequest)
    requires q.limit != 0
    ensures var r := GetSqlManageList(s, cat, q);
            var u := GetSqlManageList(s, cat, q.(limit := 0));
            && |r| == (if q.offset < |u| then Min(q.limit, |u| - q.offset) else 0)
            && forall i :: 0 <= i < |r| ==> q.offset + i < |u| && r[i] == u[q.offset + i]
  {
    CandidatesIgnorePaging(cat, q, s.rows, 0, q.offset);
  }

  /**
   `q1` asks for no more than `q2`: same project, and each filter of `q1` is
   absent or the same as in `q2`; a time bound of `q1` may also be wider.
   */
  predicate Relaxes(q1: ListRequest, q2: ListRequest) {
    && q1.projectName == q2.projectName
    && (q1.fuzzySearchSqlFingerprint == "" || q1.fuzzySearchSqlFingerprint == q2.fuzzySearchSqlFingerprint)
    && (q1.filterAssignee == "" || q1.filterAssignee == q2.filterAssignee)
    && (q1.filterInstanceName == "" || q1.filterInstanceName == q2.filterInstanceName)
    && (q1.filterSource == "" || q1.filterSource == q2.filterSource)
    && (q1.filterAuditLevel == "" || q1.filterAuditLevel == q2.filterAuditLevel)
    && (q1.filterLastAuditStartTimeFrom.None? ||
        (q2.filterLastAuditStartTimeFrom.Some? &&
         q1.filterLastAuditStartTimeFrom.value <= q2.filterLastAuditStartTimeFrom.value))
    && (q1.filterLastAuditStartTimeTo.None? ||
        (q2.filterLastAuditStartTimeTo.Some? &&
         q2.filterLastAuditStartTimeTo.value <= q1.filterLastAuditStartTimeTo.value))
    && (q1.filterStatus == "" || q1.filterStatus == q2.filterStatus)
  }

  /**
   Dropping or widening filters never shrinks the unpaged result: every row
   the narrower request returns, the wider one returns too.
   */
  lemma {:induction false} RelaxingWidens(cat: Catalog, q1: ListRequest, q2: ListRequest, rows: seq<SqlManage>)
    requires Relaxes(q1, q2)
    ensures forall d :: d in Candidates(cat, q2, rows) ==> d in Candidates(cat, q1, rows)
    ensures |Candidates(cat, q2, rows)| <= |Candidates(cat, q1, rows)|
    decreases |rows|
  {
    if rows != [] {
      var front := rows[..|rows| - 1];
      RelaxingWidens(cat, q1, q2, front);
      RelaxedMatches(cat, q1, q2, rows[|rows| - 1]);
      assert Candidates(cat, q2, rows) ==
             (if Matches(cat, q2, rows[|rows| - 1]) then [ToDetail(cat, rows[|rows| - 1])] else []) + Candidates(cat, q2, front);
      assert Candidates(cat, q1, rows) ==
             (if Matches(cat, q1, rows[|rows| - 1]) then [ToDetail(cat, rows[|rows| - 1])] else []) + Candidates(cat, q1, front);
    }
  }

  /** A row that passes the narrower request passes the wider one. */
  lemma RelaxedMatches(cat: Catalog, q1: ListRequest, q2: ListRequest, m: SqlManage)
    requires Relaxes(q1, q2)
    ensures Matches(cat, q2, m) ==> Matches(cat, q1, m)
  {
  }

  /** With no filter given, the unpaged result is exactly the live rows of the project. */
  lemma NoFilterListsProject(s: Store, cat: Catalog, q: ListRequest)
    requires q.fuzzySearchSqlFingerprint == "" && q.filterAssignee == "" && q.filterInstanceName == ""
    requires q.filterSource == "" && q.filterAuditLevel == "" && q.filterStatus == ""
    requires q.filterLastAuditStartTimeFrom.None? && q.filterLastAuditStartTimeTo.None?
    requires q.limit == 0
    ensures forall i :: 0 <= i < |s.rows| ==>
              (ToDetail(cat, s.rows[i]) in GetSqlManageList(s, cat, q) <==>
               InProject(cat, q.projectName, s.rows[i]) && !s.rows[i].deleted)
  {
    forall i | 0 <= i < |s.rows| && ToDetail(cat, s.rows[i]) in GetSqlManageList(s, cat, q)
      ensures InProject(cat, q.projectName, s.rows[i]) && !s.rows[i].deleted
    {
      assert ToDetail(cat, s.rows[i]).row == s.rows[i];
    }
  }

  /** The last-receive range is inclusive at both ends, and a row with no last-receive time never passes it. */
  lemma TimeRangeInclusive(cat: Catalog, q: ListRequest, m: SqlManage)
    ensures Matches(cat, q, m) && q.filterLastAuditStartTimeFrom.Some? ==>
              m.lastReceiveTimestamp.Some? && q.filterLastAuditStartTimeFrom.value <= m.lastReceiveTimestamp.value
    ensures Matches(cat, q, m) && q.filterLastAuditStartTimeTo.Some? ==>
              m.lastReceiveTimestamp.Some? && m.lastReceiveTimestamp.value <= q.filterLastAuditStartTimeTo.value
    ensures && InProject(cat, q.projectName, m) && !m.deleted
            && q.fuzzySearchSqlFingerprint == "" && q.filterAssignee == "" && q.filterInstanceName == ""
            && q.filterSource == "" && q.filterAuditLevel == "" && q.filterStatus == ""
            && q.filterLastAuditStartTimeFrom.Some? && q.filterLastAuditStartTimeTo.Some?
            ==> (Matches(cat, q, m) <==>
                 m.lastReceiveTimestamp.Some? &&
                 q.filterLastAuditStartTimeFrom.value <= m.lastReceiveTimestamp.value <= q.filterLastAuditStartTimeTo.value)
  {
  }
}
