/**
 A worked run through the whole worklist: two occurrences of the same
 statement are upserted one after the other and the list is then queried by
 audit level.
 */
module Scenario {
  import opened Types
  import opened Upsert
  import opened Query
  import opened Summary

  const Key: string := "md5(P,SELECT *,audit_plan,I1,S1)"

  /**
   One occurrence as a producer hands it over. The producer has already
   accumulated the counter and kept the first-appearance time (t = 10); the
   upsert copies both as given.
   */
  function Occurrence(level: string, count: uint64, seen: int): SqlManage {
    SqlManage(0, false, "SELECT *", Key, "SELECT * FROM t", SourceAuditPlan, level, "[]", count,
              Some(10), Some(seen), "I1", "S1", {}, StatusUnhandled, "", 1, 7, 0)
  }

  const Projects: Catalog := Catalog(map[1 := "P"], map[7 := "plan"], map[])

  const HighLevel: ListRequest := ListRequest("P", "", "", "", "", "high", None, None, "", 0, 0)

  /** The single row both occurrences leave behind. */
  function Merged(): SqlManage {
    Merge(NewRow(Occurrence("", 1, 10), 1), Occurrence("high", 2, 20))
  }

  /**
   The first occurrence creates row 1; the second, with level "high", merges
   into it: still one row, status unhandled, counter 2, first seen at 10,
   last seen at 20.
   */
  lemma TwoOccurrencesMerge()
    ensures InsertOrUpdateSqlManage(InsertOrUpdateSqlManage(Store([], 1), [Occurrence("", 1, 10)]),
                                    [Occurrence("high", 2, 20)]) == Store([Merged()], 2)
    ensures Merged().id == 1 && Merged().status == StatusUnhandled && Merged().fpCount == 2
    ensures Merged().auditLevel == "high"
    ensures Merged().firstAppearTimestamp == Some(10) && Merged().lastReceiveTimestamp == Some(20)
  {
    var f1 := Occurrence("", 1, 10);
    var f2 := Occurrence("high", 2, 20);
    var s1 := InsertOrUpdateSqlManage(Store([], 1), [f1]);
    assert [f1][1..] == [] && [f2][1..] == [];
    assert InsertOrUpdateSqlManage(UpsertOne(Store([], 1), f1), []) == UpsertOne(Store([], 1), f1);
    assert s1 == UpsertOne(Store([], 1), f1);
    assert s1 == Store([NewRow(f1, 1)], 2);
    assert Find(s1.rows, Key) == Some(0);
    var s2 := InsertOrUpdateSqlManage(s1, [f2]);
    assert InsertOrUpdateSqlManage(UpsertOne(s1, f2), []) == UpsertOne(s1, f2);
    assert s2 == UpsertOne(s1, f2);
  }

  /**
   Querying that table on level "high" returns the row alone, joined with
   its audit plan's name; it counts as bad and not solved.
   */
  lemma QueryByLevelAfterMerge()
    ensures GetSqlManageList(Store([Merged()], 2), Projects, HighLevel) ==
            [SqlManageDetail(Merged(), Some("plan"), None)]
    ensures BadNum(GetSqlManageList(Store([Merged()], 2), Projects, HighLevel)) == 1
    ensures SolvedNum(GetSqlManageList(Store([Merged()], 2), Projects, HighLevel)) == 0
  {
    var rows := [Merged()];
    assert rows[..0] == [];
    assert Matches(Projects, HighLevel, Merged());
    var list := GetSqlManageList(Store(rows, 2), Projects, HighLevel);
    assert list == [SqlManageDetail(Merged(), Some("plan"), None)];
    PositionsStep(list, 0, IsBad);
    PositionsStep(list, 0, IsSolved);
    PositionsNone(list, 0, IsBad);
    PositionsNone(list, 0, IsSolved);
  }
}
