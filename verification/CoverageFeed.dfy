/** The coverage map of coverage_store.py and postgres_coverage.py: an upsert keyed by six columns, a
    paged listing of one asset, and per-status totals. Times are instants. */
module CoverageFeed {
  import opened Wrappers
  import opened Keyset
  import opened CoverageKey
  import TextOrder
  import Tokens

  datatype CoverageStatus = Completed | Blocked | Unreachable

  datatype CoverageRecord = CoverageRecord(
    organizationId: string, asset: string, key: RowKey, status: CoverageStatus, scannerVersion: string,
    firstObservedAt: int, lastObservedAt: int,
    checkVersion: Option<string>, lastScanId: Option<string>, lastFindingId: Option<string>)

  predicate SameRow(a: CoverageRecord, b: CoverageRecord) {
    a.organizationId == b.organizationId && a.asset == b.asset && a.key == b.key
  }

  /** At most one row per (organization, asset, path, method, identity, check). */
  ghost predicate OneRowPerKey(records: seq<CoverageRecord>) {
    forall i, j :: 0 <= i < j < |records| ==> !SameRow(records[i], records[j])
  }

  // ---- Upsert ----

  function RowIndex(records: seq<CoverageRecord>, r: CoverageRecord): (i: nat)
    ensures i <= |records|
    ensures i < |records| ==> SameRow(records[i], r)
    ensures forall j :: 0 <= j < i ==> !SameRow(records[j], r)
  {
    if |records| == 0 || SameRow(records[0], r) then 0
    else
      var i := RowIndex(records[1..], r) + 1;
      assert forall j :: 1 <= j < i ==> records[j] == records[1..][j - 1];
      i
  }

  /** Replace the row of the same key, keeping when it was first observed, or add it at the end. */
  function Upserted(records: seq<CoverageRecord>, r: CoverageRecord): seq<CoverageRecord> {
    var i := RowIndex(records, r);
    if i < |records| then records[i := r.(firstObservedAt := records[i].firstObservedAt)] else records + [r]
  }

  /** The SQL form: ON CONFLICT DO UPDATE touches six named columns of the stored row. */
  function SqlUpserted(records: seq<CoverageRecord>, r: CoverageRecord): seq<CoverageRecord> {
    var i := RowIndex(records, r);
    if i == |records| then records + [r]
    else records[i := records[i].(status := r.status, scannerVersion := r.scannerVersion, checkVersion := r.checkVersion,
                                  lastScanId := r.lastScanId, lastFindingId := r.lastFindingId, lastObservedAt := r.lastObservedAt)]
  }

  /** Both backends store the same rows after every recording, one per key, and the row recorded last
      keeps the time it was first observed. */
  lemma UpsertsAgree(records: seq<CoverageRecord>, r: CoverageRecord)
    requires OneRowPerKey(records)
    ensures SqlUpserted(records, r) == Upserted(records, r)
    ensures OneRowPerKey(Upserted(records, r))
    ensures |Upserted(records, r)| == |records| + (if exists i :: 0 <= i < |records| && SameRow(records[i], r) then 0 else 1)
    ensures forall i :: 0 <= i < |records| ==>
              var s := Upserted(records, r)[i];
              SameRow(s, records[i]) && s.firstObservedAt == records[i].firstObservedAt && (!SameRow(records[i], r) ==> s == records[i])
  {
  }

  // ---- Orders and cursors ----

  /** `(last_observed_at, coverage_cursor_key)`: the in-memory sort, and both backends' cursor. */
  predicate PositionLess(r: CoverageRecord, at: int, joined: string) {
    r.lastObservedAt < at || (r.lastObservedAt == at && TextOrder.Less(Joined(r.key), joined))
  }

  predicate MemoryLess(a: CoverageRecord, b: CoverageRecord) {
    PositionLess(a, b.lastObservedAt, Joined(b.key))
  }

  /** The SQL ORDER BY: time, then the four columns. */
  predicate SqlLess(a: CoverageRecord, b: CoverageRecord) {
    a.lastObservedAt < b.lastObservedAt
    || (a.lastObservedAt == b.lastObservedAt && TupleLess(Components(a.key), Components(b.key)))
  }

  function ForAsset(records: seq<CoverageRecord>, organizationId: string, asset: string): seq<CoverageRecord> {
    if |records| == 0 then []
    else
      var front, last := ForAsset(records[..|records| - 1], organizationId, asset), records[|records| - 1];
      if last.organizationId == organizationId && last.asset == asset then front + [last] else front
  }

  predicate Follows(r: CoverageRecord, after: Option<(int, string)>) {
    after.Some? ==> PositionLess(r, after.value.0, after.value.1)
  }

  function AfterCursor(rows: seq<CoverageRecord>, after: Option<(int, string)>): seq<CoverageRecord> {
    if |rows| == 0 then []
    else if Follows(rows[0], after) then [rows[0]] + AfterCursor(rows[1..], after)
    else AfterCursor(rows[1..], after)
  }

  /** In memory: sort everything, then drop what is not after the cursor. */
  function MemoryPage(rows: seq<CoverageRecord>, limit: nat, after: Option<(int, string)>): Page<CoverageRecord> {
    FirstPage(AfterCursor(SortDesc(rows, MemoryLess), after), limit)
  }

  /** In SQL: the cursor predicate on the joined key, then ORDER BY on the columns. */
  function SqlPage(rows: seq<CoverageRecord>, limit: nat, after: Option<(int, string)>): Page<CoverageRecord> {
    FirstPage(SortDesc(AfterCursor(rows, after), SqlLess), limit)
  }

  function CountOf(rows: seq<CoverageRecord>, status: CoverageStatus): nat {
    if |rows| == 0 then 0
    else CountOf(rows[..|rows| - 1], status) + (if rows[|rows| - 1].status == status then 1 else 0)
  }

  /** The asset's rows of one status, as positions in the table. */
  function RowsWith(records: seq<CoverageRecord>, organizationId: string, asset: string, status: CoverageStatus): set<int> {
    set i | 0 <= i < |records| && IsRowWith(records[i], organizationId, asset, status)
  }

  predicate IsRowWith(r: CoverageRecord, organizationId: string, asset: string, status: CoverageStatus) {
    r.organizationId == organizationId && r.asset == asset && r.status == status
  }

  lemma RowsStep(records: seq<CoverageRecord>, organizationId: string, asset: string, status: CoverageStatus)
    requires |records| > 0
    ensures var n := |records| - 1;
            |RowsWith(records, organizationId, asset, status)|
            == |RowsWith(records[..n], organizationId, asset, status)| + (if IsRowWith(records[n], organizationId, asset, status) then 1 else 0)
  {
    var n := |records| - 1;
    var front := records[..n];
    var before, now := RowsWith(front, organizationId, asset, status), RowsWith(records, organizationId, asset, status);
    assert forall i :: 0 <= i < n ==> front[i] == records[i];
    assert n !in before;
    assert now == if IsRowWith(records[n], organizationId, asset, status) then before + {n} else before;
  }

  lemma {:induction false} CountsTheRows(records: seq<CoverageRecord>, organizationId: string, asset: string, status: CoverageStatus)
    ensures CountOf(ForAsset(records, organizationId, asset), status) == |RowsWith(records, organizationId, asset, status)|
  {
    if |records| > 0 {
      var n := |records| - 1;
      CountsTheRows(records[..n], organizationId, asset, status);
      CountAppend(ForAsset(records[..n], organizationId, asset), records[n], status);
      RowsStep(records, organizationId, asset, status);
    }
  }

  lemma CountAppend(rows: seq<CoverageRecord>, r: CoverageRecord, status: CoverageStatus)
    ensures CountOf(rows + [r], status) == CountOf(rows, status) + (if r.status == status then 1 else 0)
  {
    assert (rows + [r])[..|rows|] == rows;
  }

  class InMemoryCoverageRepository {
    /** The dictionary in insertion order: updating an entry keeps its place. */
    var records: seq<CoverageRecord>

    ghost predicate Valid()
      reads this
    {
      OneRowPerKey(records)
    }

    constructor ()
      ensures Valid() && records == []
    {
      records := [];
    }

    method RecordCoverage(organizationId: string, asset: string, key: RowKey, status: CoverageStatus, scannerVersion: string,
                          now: int, checkVersion: Option<string>, scanId: Option<string>, findingId: Option<string>)
      returns (r: CoverageRecord)
      requires Valid()
      modifies this`records
      ensures Valid()
      ensures records == Upserted(old(records),
                                  CoverageRecord(organizationId, asset, key, status, scannerVersion, now, now, checkVersion, scanId, findingId))
      ensures r in records && r.organizationId == organizationId && r.asset == asset && r.key == key
              && r.status == status && r.scannerVersion == scannerVersion && r.lastObservedAt == now
              && r.checkVersion == checkVersion && r.lastScanId == scanId && r.lastFindingId == findingId
      ensures forall i :: 0 <= i < |old(records)| ==>
                var was := old(records)[i];
                && i < |records|
                && (if was.organizationId == organizationId && was.asset == asset && was.key == key
                    then records[i] == r && r.firstObservedAt == was.firstObservedAt else records[i] == was)
      ensures (forall i :: 0 <= i < |old(records)| ==>
                 !(old(records)[i].organizationId == organizationId && old(records)[i].asset == asset && old(records)[i].key == key))
              ==> records == old(records) + [r] && r.firstObservedAt == now
    {
      r := CoverageRecord(organizationId, asset, key, status, scannerVersion, now, now, checkVersion, scanId, findingId);
      UpsertsAgree(records, r);
      var i := RowIndex(records, r);
      if i < |records| {
        r := r.(firstObservedAt := records[i].firstObservedAt);
        records := records[i := r];
        assert records[i] == r;
      } else {
        records := records + [r];
        assert records[|records| - 1] == r;
      }
    }

    method ListCoverageForAssetPage(organizationId: string, asset: string, limit: nat, after: Option<(int, string)>)
      returns (page: Page<CoverageRecord>)
      requires Valid()
      ensures page == MemoryPage(ForAsset(records, organizationId, asset), limit, after)
      ensures |page.rows| <= limit && (page.hasMore ==> |page.rows| == limit)
      ensures forall i, j :: 0 <= i < j < |page.rows| ==>
                var x, y := page.rows[i], page.rows[j];
                x.lastObservedAt > y.lastObservedAt || (x.lastObservedAt == y.lastObservedAt && !TextOrder.Less(Joined(x.key), Joined(y.key)))
      ensures forall x :: x in page.rows ==>
                && x in records && x.organizationId == organizationId && x.asset == asset
                && (after.Some? ==> x.lastObservedAt < after.value.0 || (x.lastObservedAt == after.value.0 && TextOrder.Less(Joined(x.key), after.value.1)))
      ensures forall x :: x in records && x.organizationId == organizationId && x.asset == asset
                && (after.Some? ==> x.lastObservedAt < after.value.0 || (x.lastObservedAt == after.value.0 && TextOrder.Less(Joined(x.key), after.value.1)))
                ==> x in page.rows
                    || (page.hasMore && forall y :: y in page.rows ==>
                          y.lastObservedAt > x.lastObservedAt || (y.lastObservedAt == x.lastObservedAt && !TextOrder.Less(Joined(y.key), Joined(x.key))))
    {
      AssetRows(records, organizationId, asset);
      MemoryPageFacts(ForAsset(records, organizationId, asset), limit, after);
      var values := SortDesc(ForAsset(records, organizationId, asset), MemoryLess);
      values := AfterCursor(values, after);
      page := FirstPage(values, limit);
    }

    method CountCoverageByStatus(organizationId: string, asset: string) returns (counts: map<CoverageStatus, nat>)
      requires Valid()
      ensures forall s :: s in counts <==> CountOf(ForAsset(records, organizationId, asset), s) > 0
      ensures forall s :: s in counts ==> counts[s] == CountOf(ForAsset(records, organizationId, asset), s)
      ensures forall s :: CountOf(ForAsset(records, organizationId, asset), s) == |RowsWith(records, organizationId, asset, s)|
    {
      forall s ensures CountOf(ForAsset(records, organizationId, asset), s) == |RowsWith(records, organizationId, asset, s)| {
        CountsTheRows(records, organizationId, asset, s);
      }
      var values := ForAsset(records, organizationId, asset);
      counts := map[];
      for i := 0 to |values|
        invariant forall s :: s in counts <==> CountOf(values[..i], s) > 0
        invariant forall s :: s in counts ==> counts[s] == CountOf(values[..i], s)
      {
        var status := values[i].status;
        assert values[..i + 1][..i] == values[..i];
        counts := counts[status := (if status in counts then counts[status] else 0) + 1];
      }
      assert values[..|values|] == values;
    }
  }

  // ---- Rows of one asset ----

  ghost predicate DistinctKeys(rows: seq<CoverageRecord>) {
    forall i, j :: 0 <= i < j < |rows| ==> rows[i].key != rows[j].key
  }

  ghost predicate AllSeparatorFree(rows: seq<CoverageRecord>) {
    forall i :: 0 <= i < |rows| ==> SeparatorFree(Components(rows[i].key))
  }

  ghost predicate AllPrintable(rows: seq<CoverageRecord>) {
    forall i :: 0 <= i < |rows| ==> Printable(Components(rows[i].key))
  }

  lemma {:induction false} AssetRows(records: seq<CoverageRecord>, organizationId: string, asset: string)
    requires OneRowPerKey(records)
    ensures DistinctKeys(ForAsset(records, organizationId, asset))
    ensures forall x :: x in ForAsset(records, organizationId, asset)
                   <==> x in records && x.organizationId == organizationId && x.asset == asset
  {
    if |records| > 0 {
      var front, last := records[..|records| - 1], records[|records| - 1];
      AssetRows(front, organizationId, asset);
      assert records == front + [last];
      var rows := ForAsset(front, organizationId, asset);
      assert forall i :: 0 <= i < |rows| ==> rows[i] in rows && rows[i] in front;
      assert forall x :: x in front ==> !SameRow(x, last);
    }
  }

  lemma JoinedInjective(a: RowKey, b: RowKey)
    requires SeparatorFree(Components(a)) && SeparatorFree(Components(b)) && Joined(a) == Joined(b)
    ensures a == b
  {
    var x, y := Components(a), Components(b);
    JoinInjective(x, y);
    ComponentsInjective(a, b);
  }

  /** Whatever the components, the order of the sort key is strict, and ties are an equivalence. */
  lemma MemoryOrderFacts()
    ensures Weak(MemoryLess)
    ensures forall a :: !MemoryLess(a, a)
    ensures forall a, b :: MemoryLess(a, b) ==> !MemoryLess(b, a)
    ensures forall a, b, c :: MemoryLess(a, b) && MemoryLess(b, c) ==> MemoryLess(a, c)
  {
    forall a ensures !MemoryLess(a, a) {
      TextOrder.Irreflexive(Joined(a.key));
    }
    forall a, b, c | MemoryLess(a, b) && MemoryLess(b, c) ensures MemoryLess(a, c) {
      MemoryLessTransitive(a, b, c);
    }
    forall a, b, c | MemoryLess(a, b) ensures MemoryLess(a, c) || MemoryLess(c, b) {
      MemoryLessSplits(a, b, c);
    }
  }

  lemma MemoryLessTransitive(a: CoverageRecord, b: CoverageRecord, c: CoverageRecord)
    requires MemoryLess(a, b) && MemoryLess(b, c)
    ensures MemoryLess(a, c)
  {
    if a.lastObservedAt == b.lastObservedAt == c.lastObservedAt {
      TextOrder.Transitive(Joined(a.key), Joined(b.key), Joined(c.key));
    }
  }

  lemma MemoryLessSplits(a: CoverageRecord, b: CoverageRecord, c: CoverageRecord)
    requires MemoryLess(a, b)
    ensures MemoryLess(a, c) || MemoryLess(c, b)
  {
    TextOrder.Trichotomy(Joined(a.key), Joined(c.key));
    if TextOrder.Less(Joined(c.key), Joined(a.key)) && a.lastObservedAt == b.lastObservedAt {
      TextOrder.Transitive(Joined(c.key), Joined(a.key), Joined(b.key));
    }
  }

  /** Two different rows that the sort key cannot tell apart. */
  predicate Tied(a: CoverageRecord, b: CoverageRecord) {
    a != b && a.lastObservedAt == b.lastObservedAt && Joined(a.key) == Joined(b.key)
  }

  lemma TotalIffUntied(rows: seq<CoverageRecord>)
    ensures StrictOn(rows, MemoryLess)
    ensures TotalOn(rows, MemoryLess) <==> forall a, b :: a in rows && b in rows ==> !Tied(a, b)
  {
    MemoryOrderFacts();
    forall a, b | a in rows && b in rows && a != b ensures MemoryLess(a, b) || MemoryLess(b, a) <==> !Tied(a, b) {
      TextOrder.Trichotomy(Joined(a.key), Joined(b.key));
      TextOrder.Irreflexive(Joined(a.key));
    }
  }

  lemma MemoryOrderIsTotal(rows: seq<CoverageRecord>)
    requires DistinctKeys(rows) && AllSeparatorFree(rows)
    ensures TotalOn(rows, MemoryLess) && NoDup(rows)
  {
    TotalIffUntied(rows);
    forall a, b | a in rows && b in rows ensures !Tied(a, b) {
      if Joined(a.key) == Joined(b.key) {
        JoinedInjective(a.key, b.key);
      }
    }
  }

  lemma SqlOrderIsTotal(rows: seq<CoverageRecord>)
    requires DistinctKeys(rows)
    ensures TotalOn(rows, SqlLess) && NoDup(rows)
  {
    forall a ensures !SqlLess(a, a) {
      TupleOrderFacts(Components(a.key), Components(a.key), Components(a.key));
    }
    forall a, b, c | SqlLess(a, b) && SqlLess(b, c) ensures SqlLess(a, c) {
      TupleOrderFacts(Components(a.key), Components(b.key), Components(c.key));
    }
    forall a, b | a in rows && b in rows && a != b ensures SqlLess(a, b) || SqlLess(b, a) {
      var x, y := Components(a.key), Components(b.key);
      TupleOrderFacts(x, y, x);
      ComponentsInjective(a.key, b.key);
    }
  }

  // ---- Pages as keyset pages ----

  function CursorOf(cursor: Option<CoverageRecord>): Option<(int, string)> {
    match cursor
    case None => None
    case Some(r) => Some((r.lastObservedAt, Joined(r.key)))
  }

  lemma {:induction false} AfterIsBelow(rows: seq<CoverageRecord>, cursor: Option<CoverageRecord>)
    ensures AfterCursor(rows, CursorOf(cursor)) == Below(rows, MemoryLess, cursor)
  {
    if |rows| > 0 {
      AfterIsBelow(rows[1..], cursor);
    }
  }

  /** Sorting then cutting is cutting then sorting, whatever the components. */
  lemma MemoryPageIsFetch(rows: seq<CoverageRecord>, limit: nat, cursor: Option<CoverageRecord>)
    ensures MemoryPage(rows, limit, CursorOf(cursor)) == FetchPage(rows, MemoryLess, MemoryLess, limit, cursor)
  {
    MemoryOrderFacts();
    AfterIsBelow(SortDesc(rows, MemoryLess), cursor);
    CutSorted(rows, MemoryLess, cursor);
  }

  lemma SqlPageIsFetch(rows: seq<CoverageRecord>, limit: nat, cursor: Option<CoverageRecord>)
    ensures SqlPage(rows, limit, CursorOf(cursor)) == FetchPage(rows, MemoryLess, SqlLess, limit, cursor)
  {
    AfterIsBelow(rows, cursor);
  }

  lemma {:induction false} AfterCursorFacts(rows: seq<CoverageRecord>, after: Option<(int, string)>)
    requires NotAscending(rows, MemoryLess)
    ensures NotAscending(AfterCursor(rows, after), MemoryLess)
    ensures forall x :: x in AfterCursor(rows, after) <==> x in rows && Follows(x, after)
  {
    if |rows| > 0 {
      assert rows == [rows[0]] + rows[1..];
      AfterCursorFacts(rows[1..], after);
      if Follows(rows[0], after) {
        ConsNotAscending(rows[0], AfterCursor(rows[1..], after), MemoryLess);
      }
    }
  }

  /** What one in-memory page promises for any cursor position, ties included. */
  lemma MemoryPageFacts(rows: seq<CoverageRecord>, limit: nat, after: Option<(int, string)>)
    ensures var page := MemoryPage(rows, limit, after);
            && |page.rows| <= limit && (page.hasMore ==> |page.rows| == limit) && NotAscending(page.rows, MemoryLess)
            && (forall x :: x in page.rows ==> x in rows && Follows(x, after))
            && (forall x :: x in rows && Follows(x, after)
                  ==> x in page.rows || (page.hasMore && forall y :: y in page.rows ==> !MemoryLess(y, x)))
  {
    MemoryOrderFacts();
    SortMembers(rows, MemoryLess);
    SortNotAscending(rows, MemoryLess);
    AfterCursorFacts(SortDesc(rows, MemoryLess), after);
    HeadFacts(AfterCursor(SortDesc(rows, MemoryLess), after), limit);
  }

  lemma HeadFacts(all: seq<CoverageRecord>, limit: nat)
    requires NotAscending(all, MemoryLess)
    ensures var page := FirstPage(all, limit);
            && NotAscending(page.rows, MemoryLess) && (forall x :: x in page.rows ==> x in all)
            && (forall x :: x in all ==> x in page.rows || (page.hasMore && forall y :: y in page.rows ==> !MemoryLess(y, x)))
  {
    if |all| > limit {
      var head := all[..limit];
      assert forall k :: 0 <= k < limit ==> head[k] == all[k] && all[k] in head;
      forall x | x in all && x !in head ensures forall y :: y in head ==> !MemoryLess(y, x) {
        var i :| 0 <= i < |all| && all[i] == x;
        assert i >= limit;
      }
    }
  }

  /** What one SQL page promises, by the columns: time descending, then the four columns descending; rows after
      the cursor only; full when there is more; and what it leaves out comes after everything on it. */
  lemma SqlPageFacts(rows: seq<CoverageRecord>, limit: nat, after: Option<(int, string)>)
    requires DistinctKeys(rows)
    ensures var page := SqlPage(rows, limit, after);
            && |page.rows| <= limit && (page.hasMore ==> |page.rows| == limit)
            && (forall i, j :: 0 <= i < j < |page.rows| ==> ColumnsBelow(page.rows[j], page.rows[i]))
            && (forall x :: x in page.rows ==> x in rows && Follows(x, after))
            && (forall x :: x in rows && Follows(x, after)
                  ==> x in page.rows || (page.hasMore && forall y :: y in page.rows ==> ColumnsBelow(x, y)))
  {
    var cut := AfterCursor(rows, after);
    AfterCursorMembers(rows, after);
    SqlOrderIsTotal(rows);
    TotalSubset(rows, cut, SqlLess);
    SortFacts(cut, SqlLess);
    var all := SortDesc(cut, SqlLess);
    forall a, b | SqlLess(a, b) ensures ColumnsBelow(a, b) {
      ColumnOrder(a.key, b.key);
    }
    if |all| > limit {
      var head := all[..limit];
      assert forall k :: 0 <= k < limit ==> head[k] == all[k] && all[k] in head;
      assert forall x :: x in head ==> x in all;
      forall x | x in all && x !in head ensures forall y :: y in head ==> SqlLess(x, y) {
        var i :| 0 <= i < |all| && all[i] == x;
        assert i >= limit;
      }
    }
  }

  /** Earlier, or at the same time and below in path, then method, then identity, then check. */
  predicate ColumnsBelow(a: CoverageRecord, b: CoverageRecord) {
    var k, m := a.key, b.key;
    || a.lastObservedAt < b.lastObservedAt
    || (a.lastObservedAt == b.lastObservedAt
        && (|| TextOrder.Less(k.path, m.path)
            || (k.path == m.path && TextOrder.Less(k.httpMethod, m.httpMethod))
            || (k.path == m.path && k.httpMethod == m.httpMethod && TextOrder.Less(k.identityLabel, m.identityLabel))
            || (k.path == m.path && k.httpMethod == m.httpMethod && k.identityLabel == m.identityLabel && TextOrder.Less(k.checkId, m.checkId))))
  }

  lemma {:induction false} AfterCursorMembers(rows: seq<CoverageRecord>, after: Option<(int, string)>)
    ensures forall x :: x in AfterCursor(rows, after) <==> x in rows && Follows(x, after)
    ensures NoDup(rows) ==> NoDup(AfterCursor(rows, after))
  {
    if |rows| > 0 {
      assert rows == [rows[0]] + rows[1..];
      AfterCursorMembers(rows[1..], after);
      assert NoDup(rows) ==> rows[0] !in rows[1..];
    }
  }

  // ---- The walk over the pages a backend returns ----

  datatype Backend = Memory | Sql

  function FeedPage(backend: Backend, rows: seq<CoverageRecord>, limit: nat, after: Option<(int, string)>): Page<CoverageRecord> {
    match backend
    case Memory => MemoryPage(rows, limit, after)
    case Sql => SqlPage(rows, limit, after)
  }

  function OrderOf(backend: Backend): (CoverageRecord, CoverageRecord) -> bool {
    match backend
    case Memory => MemoryLess
    case Sql => SqlLess
  }

  lemma FeedPageIsFetch(backend: Backend, rows: seq<CoverageRecord>, limit: nat, cursor: Option<CoverageRecord>)
    ensures FeedPage(backend, rows, limit, CursorOf(cursor)) == FetchPage(rows, MemoryLess, OrderOf(backend), limit, cursor)
  {
    MemoryPageIsFetch(rows, limit, cursor);
    SqlPageIsFetch(rows, limit, cursor);
  }

  lemma FeedAdvances(backend: Backend, rows: seq<CoverageRecord>, limit: nat, cursor: Option<CoverageRecord>)
    requires limit >= 1 && (cursor.Some? ==> cursor.value in rows)
    requires FeedPage(backend, rows, limit, CursorOf(cursor)).hasMore
    ensures var page := FeedPage(backend, rows, limit, CursorOf(cursor));
            && |page.rows| == limit && page.rows[limit - 1] in rows
            && |Below(rows, MemoryLess, Some(page.rows[limit - 1]))| < |Below(rows, MemoryLess, cursor)|
  {
    FeedPageIsFetch(backend, rows, limit, cursor);
    TotalIffUntied(rows);
    WalkUnfolds(rows, MemoryLess, OrderOf(backend), limit, cursor);
  }

  /** Feeding each page's last row back as the cursor, until a page says there is no more. */
  ghost function FeedWalk(backend: Backend, rows: seq<CoverageRecord>, limit: nat, cursor: Option<CoverageRecord>): seq<Page<CoverageRecord>>
    requires limit >= 1 && (cursor.Some? ==> cursor.value in rows)
    decreases |Below(rows, MemoryLess, cursor)|
  {
    var page := FeedPage(backend, rows, limit, CursorOf(cursor));
    if !page.hasMore then [page]
    else
      FeedAdvances(backend, rows, limit, cursor);
      [page] + FeedWalk(backend, rows, limit, Some(page.rows[limit - 1]))
  }

  lemma {:induction false} FeedWalkIsWalk(backend: Backend, rows: seq<CoverageRecord>, limit: nat, cursor: Option<CoverageRecord>)
    requires limit >= 1 && (cursor.Some? ==> cursor.value in rows)
    ensures StrictOn(rows, MemoryLess)
    ensures FeedWalk(backend, rows, limit, cursor) == Walk(rows, MemoryLess, OrderOf(backend), limit, cursor)
    decreases |Below(rows, MemoryLess, cursor)|
  {
    TotalIffUntied(rows);
    FeedPageIsFetch(backend, rows, limit, cursor);
    WalkUnfolds(rows, MemoryLess, OrderOf(backend), limit, cursor);
    var m := Remaining(rows, MemoryLess, OrderOf(backend), cursor);
    if |m| > limit {
      assert m[..limit][limit - 1] == m[limit - 1];
      FeedWalkIsWalk(backend, rows, limit, Some(m[limit - 1]));
    }
  }

  ghost predicate FeedExactAt(backend: Backend, rows: seq<CoverageRecord>, limit: nat) {
    limit >= 1 ==> Flatten(FeedWalk(backend, rows, limit, None)) == SortDesc(rows, OrderOf(backend))
  }

  /** The walk over the backend's pages returns every row, in order, at every page size. */
  ghost predicate FeedExact(backend: Backend, rows: seq<CoverageRecord>) {
    forall limit: nat :: FeedExactAt(backend, rows, limit)
  }

  lemma FeedExactIsExact(backend: Backend, rows: seq<CoverageRecord>)
    ensures StrictOn(rows, MemoryLess)
    ensures FeedExact(backend, rows) <==> forall limit: nat :: ExactAt(rows, MemoryLess, OrderOf(backend), limit)
  {
    TotalIffUntied(rows);
    forall limit: nat ensures FeedExactAt(backend, rows, limit) <==> ExactAt(rows, MemoryLess, OrderOf(backend), limit) {
      if limit >= 1 {
        FeedWalkIsWalk(backend, rows, limit, None);
      }
    }
  }

  lemma MemoryExactIffTotal(rows: seq<CoverageRecord>)
    requires NoDup(rows)
    ensures FeedExact(Memory, rows) <==> TotalOn(rows, MemoryLess)
  {
    FeedExactIsExact(Memory, rows);
    assert OrderOf(Memory) == MemoryLess;
    WalkExactIffTotal(rows, MemoryLess);
  }

  lemma SqlExactIffAgree(rows: seq<CoverageRecord>)
    requires DistinctKeys(rows)
    ensures FeedExact(Sql, rows) <==> Agree(rows, MemoryLess, SqlLess)
  {
    FeedExactIsExact(Sql, rows);
    assert OrderOf(Sql) == SqlLess;
    SqlOrderIsTotal(rows);
    WalkExactIffOrdersAgree(rows, MemoryLess, SqlLess);
  }

  lemma AgreeIffOrdered(rows: seq<CoverageRecord>)
    ensures Agree(rows, MemoryLess, SqlLess) <==> forall a, b :: a in rows && b in rows ==> !Disordered(a, b)
  {
    forall a, b ensures (MemoryLess(a, b) <==> SqlLess(a, b)) <==> !Disordered(a, b) {
    }
  }

  // ---- Main results ----

  lemma {:induction false} CountsSum(rows: seq<CoverageRecord>)
    ensures CountOf(rows, Completed) + CountOf(rows, Blocked) + CountOf(rows, Unreachable) == |rows|
  {
    if |rows| > 0 {
      CountsSum(rows[..|rows| - 1]);
    }
  }

  /** Over an unchanged store whose key components contain no U+001F, at every page size: feeding each
      page's last row back as the cursor ends, the pages concatenate to exactly the asset's rows in
      descending order, only the last page reports no more, and the status totals sum to the rows walked. */
  lemma MemoryWalkIsExact(records: seq<CoverageRecord>, organizationId: string, asset: string, limit: nat)
    requires OneRowPerKey(records) && AllSeparatorFree(ForAsset(records, organizationId, asset)) && limit >= 1
    ensures var rows := ForAsset(records, organizationId, asset);
            var pages := FeedWalk(Memory, rows, limit, None);
            && Flatten(pages) == SortDesc(rows, MemoryLess)
            && Descending(Flatten(pages), MemoryLess) && SameMembers(Flatten(pages), rows)
            && WellPaged(pages, limit)
            && CountOf(rows, Completed) + CountOf(rows, Blocked) + CountOf(rows, Unreachable) == |Flatten(pages)|
  {
    var rows := ForAsset(records, organizationId, asset);
    AssetRows(records, organizationId, asset);
    MemoryOrderIsTotal(rows);
    BelowNone(rows, MemoryLess);
    FeedWalkIsWalk(Memory, rows, limit, None);
    WalkIsExact(rows, MemoryLess, MemoryLess, limit, None);
    WalkIsWellPaged(rows, MemoryLess, MemoryLess, limit, None);
    SortFacts(rows, MemoryLess);
    CountsSum(rows);
  }

  /** For any components, the in-memory feed returns every row in order, at every page size, if and only if
      no two rows of one instant share a joined key. */
  lemma MemoryWalkExactly(records: seq<CoverageRecord>, organizationId: string, asset: string)
    requires OneRowPerKey(records)
    ensures var rows := ForAsset(records, organizationId, asset);
            FeedExact(Memory, rows) <==> forall a, b :: a in rows && b in rows ==> !Tied(a, b)
  {
    var rows := ForAsset(records, organizationId, asset);
    AssetRows(records, organizationId, asset);
    TotalIffUntied(rows);
    MemoryExactIffTotal(rows);
  }

  lemma Regroup(p: string, q: string, r: string, rest: string)
    ensures p + [SEPARATOR] + ((q + [SEPARATOR] + r) + [SEPARATOR] + rest) == (p + [SEPARATOR] + q) + [SEPARATOR] + (r + [SEPARATOR] + rest)
  {
  }

  lemma JoinTwo(head: string, next: string, tail: seq<string>)
    requires |tail| > 0
    ensures Tokens.Join([head] + ([next] + tail), SEPARATOR) == head + [SEPARATOR] + (next + [SEPARATOR] + Tokens.Join(tail, SEPARATOR))
  {
    Tokens.JoinStep(next, tail, SEPARATOR);
    Tokens.JoinStep(head, [next] + tail, SEPARATOR);
  }

  /** A separator inside a component can be read on either side of a joint. */
  lemma SplitEitherWay(p: string, q: string, r: string, tail: seq<string>)
    requires |tail| > 0
    ensures Tokens.Join([p] + ([q + [SEPARATOR] + r] + tail), SEPARATOR) == Tokens.Join([p + [SEPARATOR] + q] + ([r] + tail), SEPARATOR)
  {
    JoinTwo(p, q + [SEPARATOR] + r, tail);
    JoinTwo(p + [SEPARATOR] + q, r, tail);
    Regroup(p, q, r, Tokens.Join(tail, SEPARATOR));
  }

  /** With U+001F inside a component two keys can join to one text, and the in-memory feed loses a row: the
      first page announces more, and the next page is empty. */
  lemma MemoryFeedCanLoseARow(org: string, asset: string, version: string)
    ensures var x := CoverageRecord(org, asset, RowKey("a", "b\U{1F}c", "u", "k"), Completed, version, 0, 0, None, None, None);
            var y := x.(key := RowKey("a\U{1F}b", "c", "u", "k"));
            && x.key != y.key && Tied(x, y)
            && MemoryPage([x, y], 1, None) == Page([x], true)
            && MemoryPage([x, y], 1, CursorOf(Some(x))) == Page([], false)
  {
    var x := CoverageRecord(org, asset, RowKey("a", "b\U{1F}c", "u", "k"), Completed, version, 0, 0, None, None, None);
    var y := x.(key := RowKey("a\U{1F}b", "c", "u", "k"));
    SplitEitherWay("a", "b", "c", ["u", "k"]);
    assert "b" + [SEPARATOR] + "c" == "b\U{1F}c" && "a" + [SEPARATOR] + "b" == "a\U{1F}b";
    assert Components(x.key) == ["a"] + (["b\U{1F}c"] + ["u", "k"]) && Components(y.key) == ["a\U{1F}b"] + (["c"] + ["u", "k"]);
    assert x.key.path != y.key.path;
    TextOrder.Irreflexive(Joined(x.key));
    assert !MemoryLess(x, x) && !MemoryLess(x, y) && !MemoryLess(y, x);
    assert [x, y][1..] == [y] && [y][1..] == [];
    assert SortDesc([y], MemoryLess) == [y];
    assert SortDesc([x, y], MemoryLess) == [x, y];
    assert Below([y], MemoryLess, Some(x)) == [];
    BelowNone([x, y], MemoryLess);
    AfterIsBelow([x, y], None);
    AfterIsBelow([x, y], Some(x));
  }

  /** Two rows of one instant that the joined text and the four columns order differently. */
  predicate Disordered(a: CoverageRecord, b: CoverageRecord) {
    a.lastObservedAt == b.lastObservedAt
    && (TextOrder.Less(Joined(a.key), Joined(b.key)) != TupleLess(Components(a.key), Components(b.key)))
  }

  /** The SQL feed sorts by the columns and cuts by the joined key. For any components it returns every
      row, in order, at every page size, if and only if the two order the rows of each instant alike. */
  lemma SqlWalkByOrders(records: seq<CoverageRecord>, organizationId: string, asset: string)
    requires OneRowPerKey(records)
    ensures var rows := ForAsset(records, organizationId, asset);
            FeedExact(Sql, rows) <==> forall a, b :: a in rows && b in rows ==> !Disordered(a, b)
  {
    var rows := ForAsset(records, organizationId, asset);
    AssetRows(records, organizationId, asset);
    SqlExactIffAgree(rows);
    AgreeIffOrdered(rows);
  }

  /** Two rows of one instant whose keys the joining swaps. */
  ghost predicate Clash(a: CoverageRecord, b: CoverageRecord) {
    a.lastObservedAt == b.lastObservedAt && Swapped(Components(a.key), Components(b.key))
  }

  /** For components without U+001F that is: if and only if no two rows of one instant are swapped by the
      joining. */
  lemma SqlWalkExactly(records: seq<CoverageRecord>, organizationId: string, asset: string)
    requires OneRowPerKey(records) && AllSeparatorFree(ForAsset(records, organizationId, asset))
    ensures var rows := ForAsset(records, organizationId, asset);
            FeedExact(Sql, rows) <==> forall a, b :: a in rows && b in rows ==> !Clash(a, b)
  {
    var rows := ForAsset(records, organizationId, asset);
    SqlWalkByOrders(records, organizationId, asset);
    forall a, b | a in rows && b in rows ensures Disordered(a, b) <==> Clash(a, b) {
      JoinedOrderExact(Components(a.key), Components(b.key));
    }
  }

  lemma SortsAgree(rows: seq<CoverageRecord>)
    requires DistinctKeys(rows) && AllPrintable(rows)
    ensures AllSeparatorFree(rows) && Agree(rows, MemoryLess, SqlLess)
  {
    forall i | 0 <= i < |rows| ensures SeparatorFree(Components(rows[i].key)) {
      PrintableNeverSwapped(Components(rows[i].key), Components(rows[i].key));
    }
    forall a, b | a in rows && b in rows ensures MemoryLess(a, b) <==> SqlLess(a, b) {
      JoinedOrderIsTupleOrder(a.key, b.key);
    }
  }

  /** When every component uses only characters above U+001F, the two backends return the same page for
      every limit and every cursor taken from a stored row. */
  lemma BackendsPageAlike(rows: seq<CoverageRecord>, limit: nat, cursor: Option<CoverageRecord>)
    requires DistinctKeys(rows) && AllPrintable(rows)
    ensures MemoryPage(rows, limit, CursorOf(cursor)) == SqlPage(rows, limit, CursorOf(cursor))
  {
    SortsAgree(rows);
    MemoryOrderIsTotal(rows);
    SqlOrderIsTotal(rows);
    MemoryPageIsFetch(rows, limit, cursor);
    SqlPageIsFetch(rows, limit, cursor);
    RemainingFacts(rows, MemoryLess, MemoryLess, cursor);
    RemainingFacts(rows, MemoryLess, SqlLess, cursor);
    var m, n := Remaining(rows, MemoryLess, MemoryLess, cursor), Remaining(rows, MemoryLess, SqlLess, cursor);
    TotalSubset(rows, m, MemoryLess);
    assert Descending(n, MemoryLess) by {
      forall i, j | 0 <= i < j < |n| ensures MemoryLess(n[j], n[i]) {
        assert n[i] in n && n[j] in n;
      }
    }
    DescendingUnique(m, n, MemoryLess);
  }

  /** A control character below the separator makes the SQL feed lose a row: the first page holds the
      row of path "a" followed by U+0001 and announces more, and the next page is empty, although the row of path "a"
      was never returned. */
  lemma SqlFeedCanLoseARow(org: string, asset: string, version: string)
    ensures var low := CoverageRecord(org, asset, RowKey("a", "GET", "u", "c"), Completed, version, 0, 0, None, None, None);
            var high := low.(key := RowKey("a\U{1}", "GET", "u", "c"));
            && SqlPage([low, high], 1, None) == Page([high], true)
            && SqlPage([low, high], 1, CursorOf(Some(high))) == Page([], false)
  {
    var low := CoverageRecord(org, asset, RowKey("a", "GET", "u", "c"), Completed, version, 0, 0, None, None, None);
    var high := low.(key := RowKey("a\U{1}", "GET", "u", "c"));
    var x, y := Components(low.key), Components(high.key);
    assert TextOrder.Less("a", "a\U{1}") && !TextOrder.Less("a\U{1}", "a") by {
      assert "a"[1..] == "" && "a\U{1}"[1..] == "\U{1}";
    }
    assert [high, low][..1] == [high];
    assert !MemoryLess(high, high) by {
      TextOrder.Irreflexive(Joined(high.key));
    }
    assert !MemoryLess(low, high) by {
      assert Joined(low.key) == "a" + ([SEPARATOR] + Tokens.Join(x[1..], SEPARATOR));
      assert Joined(high.key) == "a" + (['\U{1}', SEPARATOR] + Tokens.Join(y[1..], SEPARATOR));
      CommonPrefix("a", [SEPARATOR] + Tokens.Join(x[1..], SEPARATOR), ['\U{1}', SEPARATOR] + Tokens.Join(y[1..], SEPARATOR));
    }
    assert SqlLess(low, high) && !SqlLess(high, low);
    assert [low, high][1..] == [high] && [high][1..] == [];
    assert SortDesc([high], SqlLess) == [high];
    assert Insert(low, [high], SqlLess) == [high] + Insert(low, [], SqlLess);
    assert SortDesc([low, high], SqlLess) == [high, low];
    assert Below([high], MemoryLess, Some(high)) == [];
    BelowNone([low, high], MemoryLess);
    AfterIsBelow([low, high], None);
    AfterIsBelow([low, high], Some(high));
  }
}
