/**
 `GetSqlManageListByReq`: the list query together with three counts taken
 over the rows it returned (after any LIMIT/OFFSET): the total, the "bad"
 rows (an audit level is recorded and the row is not solved) and the solved
 rows.
 */
module Summary {
  import opened Types
  import opened Query

  datatype SqlManageResp = SqlManageResp(
    sqlManageList: seq<SqlManageDetail>,
    sqlManageTotalNum: nat,
    sqlManageBadNum: nat,
    sqlManageOptimizedNum: nat
  )

  predicate IsBad(d: SqlManageDetail) {
    d.row.auditLevel != "" && d.row.status != StatusSolved
  }

  predicate IsSolved(d: SqlManageDetail) {
    d.row.status == StatusSolved
  }

  /** Positions below `n` whose row satisfies `p`. */
  function Positions(list: seq<SqlManageDetail>, n: nat, p: SqlManageDetail -> bool): set<nat>
    requires n <= |list|
  {
    set i: nat | i < n && p(list[i])
  }

  /** How many rows of the list are bad. */
  function BadNum(list: seq<SqlManageDetail>): nat {
    |Positions(list, |list|, IsBad)|
  }

  /** How many rows of the list are solved. */
  function SolvedNum(list: seq<SqlManageDetail>): nat {
    |Positions(list, |list|, IsSolved)|
  }

  /** Extending the prefix by one position adds that position exactly when its row satisfies `p`. */
  lemma PositionsStep(list: seq<SqlManageDetail>, n: nat, p: SqlManageDetail -> bool)
    requires n < |list|
    ensures |Positions(list, n + 1, p)| == |Positions(list, n, p)| + (if p(list[n]) then 1 else 0)
  {
    var extra: set<nat> := if p(list[n]) then {n} else {};
    assert n !in Positions(list, n, p);
    assert Positions(list, n + 1, p) == Positions(list, n, p) + extra;
  }

  /** When every row of the prefix satisfies `p`, all of its positions are counted. */
  lemma {:induction false} PositionsFull(list: seq<SqlManageDetail>, n: nat, p: SqlManageDetail -> bool)
    requires n <= |list|
    requires forall i :: 0 <= i < n ==> p(list[i])
    ensures |Positions(list, n, p)| == n
  {
    if n > 0 {
      PositionsFull(list, n - 1, p);
      PositionsStep(list, n - 1, p);
    }
  }

  /** When no row of the prefix satisfies `p`, nothing is counted. */
  lemma PositionsNone(list: seq<SqlManageDetail>, n: nat, p: SqlManageDetail -> bool)
    requires n <= |list|
    requires forall i :: 0 <= i < n ==> !p(list[i])
    ensures |Positions(list, n, p)| == 0
  {
    assert Positions(list, n, p) == {};
  }

  /** The counting loop over the returned list. */
  method CountSummary(list: seq<SqlManageDetail>) returns (total: nat, bad: nat, solved: nat)
    ensures total == |list|
    ensures bad == BadNum(list)
    ensures solved == SolvedNum(list)
    ensures bad + solved <= total
  {
    total := |list|;
    bad, solved := 0, 0;
    var i := 0;
    while i < |list|
      invariant i <= |list|
      invariant bad == |Positions(list, i, IsBad)|
      invariant solved == |Positions(list, i, IsSolved)|
      invariant bad + solved <= i
    {
      var d := list[i];
      PositionsStep(list, i, IsBad);
      PositionsStep(list, i, IsSolved);
      if d.row.auditLevel != "" && d.row.status != StatusSolved {
        bad := bad + 1;
      }
      if d.row.status == StatusSolved {
        solved := solved + 1;
      }
      i := i + 1;
    }
  }

  method GetSqlManageListByReq(s: Store, cat: Catalog, q: ListRequest) returns (resp: SqlManageResp)
    ensures resp.sqlManageList == GetSqlManageList(s, cat, q)
    ensures resp.sqlManageTotalNum == |resp.sqlManageList|
    ensures resp.sqlManageBadNum == BadNum(resp.sqlManageList)
    ensures resp.sqlManageOptimizedNum == SolvedNum(resp.sqlManageList)
    ensures resp.sqlManageBadNum + resp.sqlManageOptimizedNum <= resp.sqlManageTotalNum
  {
    var list := GetSqlManageList(s, cat, q);
    var total, bad, solved := CountSummary(list);
    resp := SqlManageResp(list, total, bad, solved);
  }

  /** Filtering on status "solved" makes every listed row solved and none bad. */
  lemma SolvedFilterCounts(s: Store, cat: Catalog, q: ListRequest)
    requires q.filterStatus == StatusSolved
    ensures BadNum(GetSqlManageList(s, cat, q)) == 0
    ensures SolvedNum(GetSqlManageList(s, cat, q)) == |GetSqlManageList(s, cat, q)|
  {
    var list := GetSqlManageList(s, cat, q);
    assert forall i :: 0 <= i < |list| ==> list[i] in list && IsSolved(list[i]) && !IsBad(list[i]);
    PositionsNone(list, |list|, IsBad);
    PositionsFull(list, |list|, IsSolved);
  }

  /**
   Filtering on an audit level and on a status other than "solved" makes
   every listed row bad and none solved.
   */
  lemma UnsolvedLevelFilterCounts(s: Store, cat: Catalog, q: ListRequest)
    requires q.filterAuditLevel != ""
    requires q.filterStatus != "" && q.filterStatus != StatusSolved
    ensures BadNum(GetSqlManageList(s, cat, q)) == |GetSqlManageList(s, cat, q)|
    ensures SolvedNum(GetSqlManageList(s, cat, q)) == 0
  {
    var list := GetSqlManageList(s, cat, q);
    assert forall i :: 0 <= i < |list| ==> list[i] in list && IsBad(list[i]) && !IsSolved(list[i]);
    PositionsNone(list, |list|, IsSolved);
    PositionsFull(list, |list|, IsBad);
  }
}
