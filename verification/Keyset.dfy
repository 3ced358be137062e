/** Keyset pagination: rows after a cursor, in descending order, one page at a time.

    A feed filters by the cursor with one relation (`lt`) and sorts with another (`ord`). Where the two
    are the same order the walk is exact; the last section says exactly when it is exact in general. */
module Keyset {
  import opened Wrappers

  datatype Page<T> = Page(rows: seq<T>, hasMore: bool)

  // ---- Orders on the rows of one feed ----

  /** `lt` is a strict order on the given rows; different rows may tie. */
  ghost predicate StrictOn<T(!new)>(rows: seq<T>, lt: (T, T) -> bool) {
    && (forall a :: a in rows ==> !lt(a, a))
    && (forall a, b, c :: a in rows && b in rows && c in rows && lt(a, b) && lt(b, c) ==> lt(a, c))
  }

  /** `lt` is a strict total order on the given rows. */
  ghost predicate TotalOn<T(!new)>(rows: seq<T>, lt: (T, T) -> bool) {
    && StrictOn(rows, lt)
    && (forall a, b :: a in rows && b in rows && a != b ==> lt(a, b) || lt(b, a))
  }

  ghost predicate NoDup<T>(rows: seq<T>) {
    forall i, j :: 0 <= i < j < |rows| ==> rows[i] != rows[j]
  }

  ghost predicate Descending<T>(rows: seq<T>, lt: (T, T) -> bool) {
    forall i, j :: 0 <= i < j < |rows| ==> lt(rows[j], rows[i])
  }

  ghost predicate SameMembers<T(!new)>(a: seq<T>, b: seq<T>) {
    forall x :: x in a <==> x in b
  }

  // ---- The query ----

  predicate Passes<T>(r: T, lt: (T, T) -> bool, after: Option<T>) {
    after.None? || lt(r, after.value)
  }

  /** `WHERE key < cursor`. */
  function Below<T>(rows: seq<T>, lt: (T, T) -> bool, after: Option<T>): seq<T> {
    if |rows| == 0 then []
    else if Passes(rows[0], lt, after) then [rows[0]] + Below(rows[1..], lt, after)
    else Below(rows[1..], lt, after)
  }

  /** Before the first row that is not greater. */
  function Insert<T>(r: T, sorted: seq<T>, ord: (T, T) -> bool): seq<T> {
    if |sorted| == 0 || !ord(r, sorted[0]) then [r] + sorted else [sorted[0]] + Insert(r, sorted[1..], ord)
  }

  /** `ORDER BY ... DESC`, and Python's descending sort, which leaves tied rows in their order. */
  function SortDesc<T>(rows: seq<T>, ord: (T, T) -> bool): seq<T> {
    if |rows| == 0 then [] else Insert(rows[0], SortDesc(rows[1..], ord), ord)
  }

  /** `LIMIT limit + 1`, of which the extra row only says that there is more. */
  function FirstPage<T>(sorted: seq<T>, limit: nat): Page<T> {
    if |sorted| > limit then Page(sorted[..limit], true) else Page(sorted, false)
  }

  function FetchPage<T>(rows: seq<T>, lt: (T, T) -> bool, ord: (T, T) -> bool, limit: nat, after: Option<T>): Page<T> {
    FirstPage(SortDesc(Below(rows, lt, after), ord), limit)
  }

  // ---- Filtering ----

  lemma {:induction false} BelowMembers<T(!new)>(rows: seq<T>, lt: (T, T) -> bool, after: Option<T>)
    ensures forall x :: x in Below(rows, lt, after) <==> x in rows && Passes(x, lt, after)
    ensures NoDup(rows) ==> NoDup(Below(rows, lt, after))
  {
    if |rows| > 0 {
      BelowMembers(rows[1..], lt, after);
      assert rows == [rows[0]] + rows[1..];
      assert NoDup(rows) ==> rows[0] !in rows[1..];
    }
  }

  lemma {:induction false} BelowShorter<T(!new)>(rows: seq<T>, lt: (T, T) -> bool, a: Option<T>, b: Option<T>)
    requires forall x :: x in rows && Passes(x, lt, b) ==> Passes(x, lt, a)
    ensures |Below(rows, lt, b)| <= |Below(rows, lt, a)|
    ensures (exists x :: x in rows && Passes(x, lt, a) && !Passes(x, lt, b)) ==> |Below(rows, lt, b)| < |Below(rows, lt, a)|
  {
    if |rows| > 0 {
      assert rows == [rows[0]] + rows[1..];
      BelowShorter(rows[1..], lt, a, b);
    }
  }

  lemma {:induction false} BelowNone<T>(rows: seq<T>, lt: (T, T) -> bool)
    ensures Below(rows, lt, None) == rows
  {
    if |rows| > 0 {
      BelowNone(rows[1..], lt);
    }
  }

  // ---- Sorting ----

  lemma {:induction false} InsertMembers<T(!new)>(r: T, sorted: seq<T>, ord: (T, T) -> bool)
    ensures |Insert(r, sorted, ord)| == |sorted| + 1
    ensures forall x :: x in Insert(r, sorted, ord) <==> x == r || x in sorted
  {
    if |sorted| > 0 && ord(r, sorted[0]) {
      InsertMembers(r, sorted[1..], ord);
      assert sorted == [sorted[0]] + sorted[1..];
    }
  }

  lemma {:induction false} InsertSorts<T(!new)>(r: T, sorted: seq<T>, ord: (T, T) -> bool)
    requires TotalOn([r] + sorted, ord) && Descending(sorted, ord) && r !in sorted
    ensures Descending(Insert(r, sorted, ord), ord)
  {
    if |sorted| > 0 {
      assert r in [r] + sorted && sorted[0] in [r] + sorted;
      assert forall x :: x in sorted ==> x in [r] + sorted;
      if ord(r, sorted[0]) {
        var rest := sorted[1..];
        TotalSubset([r] + sorted, [r] + rest, ord);
        InsertSorts(r, rest, ord);
        InsertMembers(r, rest, ord);
        var out := Insert(r, rest, ord);
        forall j | 0 <= j < |out| ensures ord(out[j], sorted[0]) {
          assert out[j] in out;
          if out[j] != r {
            var k :| 0 <= k < |rest| && rest[k] == out[j];
            assert sorted[k + 1] == out[j];
          }
        }
      } else {
        forall j | 0 <= j < |sorted| ensures ord(sorted[j], r) {
          assert sorted[j] in [r] + sorted;
        }
      }
    }
  }

  lemma TotalSubset<T(!new)>(rows: seq<T>, few: seq<T>, ord: (T, T) -> bool)
    requires TotalOn(rows, ord) && forall x :: x in few ==> x in rows
    ensures TotalOn(few, ord)
  {
  }

  lemma {:induction false} SortMembers<T(!new)>(rows: seq<T>, ord: (T, T) -> bool)
    ensures |SortDesc(rows, ord)| == |rows| && SameMembers(SortDesc(rows, ord), rows)
  {
    if |rows| > 0 {
      SortMembers(rows[1..], ord);
      InsertMembers(rows[0], SortDesc(rows[1..], ord), ord);
      assert rows == [rows[0]] + rows[1..];
    }
  }

  lemma {:induction false} SortFacts<T(!new)>(rows: seq<T>, ord: (T, T) -> bool)
    requires TotalOn(rows, ord) && NoDup(rows)
    ensures Descending(SortDesc(rows, ord), ord)
    ensures |SortDesc(rows, ord)| == |rows| && SameMembers(SortDesc(rows, ord), rows)
  {
    if |rows| > 0 {
      var rest := rows[1..];
      assert rows == [rows[0]] + rest;
      TotalSubset(rows, rest, ord);
      SortFacts(rest, ord);
      var sorted := SortDesc(rest, ord);
      assert rows[0] !in rest;
      assert rows[0] !in sorted;
      assert forall x :: x in [rows[0]] + sorted ==> x in rows;
      TotalSubset(rows, [rows[0]] + sorted, ord);
      InsertSorts(rows[0], sorted, ord);
      InsertMembers(rows[0], sorted, ord);
    }
  }

  /** A descending list is determined by its members. */
  lemma {:induction false} DescendingUnique<T(!new)>(a: seq<T>, b: seq<T>, ord: (T, T) -> bool)
    requires TotalOn(a, ord) && Descending(a, ord) && Descending(b, ord) && SameMembers(a, b)
    ensures a == b
  {
    assert b == [] || b[0] in b;
    if |a| > 0 {
      assert a[0] in a && a[0] in b && b[0] in b;
      FirstIsGreatest(a, b[0], ord);
      FirstIsGreatest(b, a[0], ord);
      assert a[0] == b[0];
      var x, y := a[1..], b[1..];
      assert a == [a[0]] + x && b == [b[0]] + y;
      forall z ensures z in x <==> z in y {
        DescendingTail(a, ord);
        TotalSame(a, b, ord);
        DescendingTail(b, ord);
        assert z in a <==> z in b;
      }
      TotalSubset(a, x, ord);
      DescendingUnique(x, y, ord);
    }
  }

  lemma FirstIsGreatest<T(!new)>(a: seq<T>, x: T, ord: (T, T) -> bool)
    requires Descending(a, ord) && x in a
    ensures x == a[0] || ord(x, a[0])
  {
  }

  lemma TotalSame<T(!new)>(a: seq<T>, b: seq<T>, ord: (T, T) -> bool)
    requires TotalOn(a, ord) && SameMembers(a, b)
    ensures TotalOn(b, ord)
  {
  }

  lemma DescendingTail<T(!new)>(a: seq<T>, ord: (T, T) -> bool)
    requires TotalOn(a, ord) && Descending(a, ord) && |a| > 0
    ensures a[0] !in a[1..] && Descending(a[1..], ord)
  {
    assert a[0] in a;
    assert forall i :: 0 <= i < |a[1..]| ==> ord(a[1..][i], a[0]);
  }

  // ---- One page ----

  /** The rows after a cursor, sorted: the list a page is the head of. */
  function Remaining<T>(rows: seq<T>, lt: (T, T) -> bool, ord: (T, T) -> bool, after: Option<T>): seq<T> {
    SortDesc(Below(rows, lt, after), ord)
  }

  lemma RemainingMembers<T(!new)>(rows: seq<T>, lt: (T, T) -> bool, ord: (T, T) -> bool, after: Option<T>)
    ensures var m := Remaining(rows, lt, ord, after);
            |m| == |Below(rows, lt, after)| && forall x :: x in m <==> x in rows && Passes(x, lt, after)
  {
    BelowMembers(rows, lt, after);
    SortMembers(Below(rows, lt, after), ord);
  }

  lemma RemainingFacts<T(!new)>(rows: seq<T>, lt: (T, T) -> bool, ord: (T, T) -> bool, after: Option<T>)
    requires TotalOn(rows, ord) && NoDup(rows)
    ensures var m := Remaining(rows, lt, ord, after);
            && Descending(m, ord) && |m| == |Below(rows, lt, after)|
            && (forall x :: x in m <==> x in rows && Passes(x, lt, after))
  {
    BelowMembers(rows, lt, after);
    TotalSubset(rows, Below(rows, lt, after), ord);
    SortFacts(Below(rows, lt, after), ord);
  }

  /** What one page of a same-order feed promises: it is descending, lies after the cursor, is full
      when there is more, and everything it leaves out lies after its last row. */
  lemma PageFacts<T(!new)>(rows: seq<T>, lt: (T, T) -> bool, limit: nat, after: Option<T>)
    requires TotalOn(rows, lt) && NoDup(rows) && limit >= 1
    ensures var p := FetchPage(rows, lt, lt, limit, after);
            && Descending(p.rows, lt)
            && (forall x :: x in p.rows ==> x in rows && Passes(x, lt, after))
            && (p.hasMore ==> |p.rows| == limit)
            && (p.hasMore ==> exists x :: x in rows && Passes(x, lt, after) && x !in p.rows)
            && (forall x :: x in rows && Passes(x, lt, after) ==>
                  x in p.rows || (p.hasMore && lt(x, p.rows[limit - 1])))
  {
    RemainingFacts(rows, lt, lt, after);
    var m := Remaining(rows, lt, lt, after);
    if |m| > limit {
      assert forall k :: 0 <= k < limit ==> m[..limit][k] == m[k] && m[k] in m[..limit];
      forall x | x in m && x !in m[..limit] ensures lt(x, m[limit - 1]) {
        var i :| 0 <= i < |m| && m[i] == x;
        assert i >= limit;
      }
      assert forall x :: x in m[..limit] ==> x in m;
      BeyondThePage(rows, m, lt, limit);
    }
  }

  lemma BeyondThePage<T(!new)>(rows: seq<T>, m: seq<T>, lt: (T, T) -> bool, limit: nat)
    requires TotalOn(rows, lt) && Descending(m, lt) && limit < |m| && forall x :: x in m ==> x in rows
    ensures m[limit] in m && m[limit] !in m[..limit]
  {
    forall k | 0 <= k < limit ensures m[k] != m[limit] {
      assert lt(m[limit], m[k]) && m[k] in m;
    }
  }

  // ---- A whole walk over unchanged rows ----

  lemma CursorAdvances<T(!new)>(rows: seq<T>, lt: (T, T) -> bool, after: Option<T>, next: T)
    requires StrictOn(rows, lt) && (after.Some? ==> after.value in rows)
    requires next in rows && Passes(next, lt, after)
    ensures |Below(rows, lt, Some(next))| < |Below(rows, lt, after)|
  {
    assert Passes(next, lt, after) && !Passes(next, lt, Some(next));
    BelowShorter(rows, lt, after, Some(next));
  }

  /** Feeding each page's last row back as the cursor, until a page says there is no more. */
  ghost function Walk<T(!new)>(rows: seq<T>, lt: (T, T) -> bool, ord: (T, T) -> bool, limit: nat, after: Option<T>): (pages: seq<Page<T>>)
    requires StrictOn(rows, lt) && limit >= 1
    requires after.Some? ==> after.value in rows
    ensures |pages| > 0
    decreases |Below(rows, lt, after)|
  {
    var page := FetchPage(rows, lt, ord, limit, after);
    if !page.hasMore then [page]
    else
      var last := page.rows[limit - 1];
      RemainingMembers(rows, lt, ord, after);
      assert last == Remaining(rows, lt, ord, after)[limit - 1];
      CursorAdvances(rows, lt, after, last);
      [page] + Walk(rows, lt, ord, limit, Some(last))
  }

  function Flatten<T>(pages: seq<Page<T>>): seq<T> {
    if |pages| == 0 then [] else pages[0].rows + Flatten(pages[1..])
  }

  /** The two relations order the rows alike. */
  ghost predicate Agree<T(!new)>(rows: seq<T>, lt: (T, T) -> bool, ord: (T, T) -> bool) {
    forall a, b :: a in rows && b in rows ==> (lt(a, b) <==> ord(a, b))
  }

  /** After a full page, what remains is the rest of the sorted list. */
  lemma NextRemaining<T(!new)>(rows: seq<T>, lt: (T, T) -> bool, ord: (T, T) -> bool, limit: nat, after: Option<T>)
    requires TotalOn(rows, lt) && TotalOn(rows, ord) && NoDup(rows) && Agree(rows, lt, ord)
    requires after.Some? ==> after.value in rows
    requires 1 <= limit < |Remaining(rows, lt, ord, after)|
    ensures var m := Remaining(rows, lt, ord, after);
            m[limit - 1] in rows && Remaining(rows, lt, ord, Some(m[limit - 1])) == m[limit..]
  {
    var m := Remaining(rows, lt, ord, after);
    RemainingFacts(rows, lt, ord, after);
    var cursor := m[limit - 1];
    RemainingFacts(rows, lt, ord, Some(cursor));
    var next := Remaining(rows, lt, ord, Some(cursor));
    assert forall x :: x in m[limit..] ==> x in m;
    forall k | 0 <= k < limit ensures !lt(m[k], cursor) {
      assert m[k] in m && cursor in m;
      assert k < limit - 1 ==> ord(cursor, m[k]);
    }
    forall x ensures x in m[limit..] <==> x in next {
      if x in m[limit..] {
        var i :| 0 <= i < |m[limit..]| && m[limit..][i] == x;
        assert m[limit + i] == x;
      }
      if x in next {
        assert x in rows && cursor in m && lt(x, cursor) && Passes(cursor, lt, after);
        assert x in m;
        var i :| 0 <= i < |m| && m[i] == x;
        assert i >= limit;
        assert m[limit..][i - limit] == x;
      }
    }
    TotalSubset(rows, m[limit..], ord);
    DescendingUnique(m[limit..], next, ord);
  }

  /** Every page of the walk but the last is full and announces more; the last one does not. */
  ghost predicate WellPaged<T>(pages: seq<Page<T>>, limit: nat) {
    && (forall i :: 0 <= i < |pages| - 1 ==> pages[i].hasMore && |pages[i].rows| == limit)
    && |pages| > 0 && !pages[|pages| - 1].hasMore && |pages[|pages| - 1].rows| <= limit
  }

  /** Where cursor and sort order agree, the walk over unchanged rows returns exactly the rows after
      the cursor, each once, in descending order. */
  lemma {:induction false} WalkIsExact<T(!new)>(rows: seq<T>, lt: (T, T) -> bool, ord: (T, T) -> bool, limit: nat, after: Option<T>)
    requires TotalOn(rows, lt) && TotalOn(rows, ord) && NoDup(rows) && limit >= 1 && Agree(rows, lt, ord)
    requires after.Some? ==> after.value in rows
    ensures Flatten(Walk(rows, lt, ord, limit, after)) == Remaining(rows, lt, ord, after)
    decreases |Below(rows, lt, after)|
  {
    var m := Remaining(rows, lt, ord, after);
    WalkUnfolds(rows, lt, ord, limit, after);
    if |m| <= limit {
      FlattenCons(Page(m, false), []);
    } else {
      var next := Some(m[limit - 1]);
      WalkIsExact(rows, lt, ord, limit, next);
      FlattenCons(Page(m[..limit], true), Walk(rows, lt, ord, limit, next));
      assert Flatten(Walk(rows, lt, ord, limit, after)) == m[..limit] + Remaining(rows, lt, ord, next);
      NextRemaining(rows, lt, ord, limit, after);
      CutAt(m, limit);
    }
  }

  lemma CutAt<T>(m: seq<T>, n: nat)
    requires n <= |m|
    ensures m == m[..n] + m[n..]
  {
  }

  lemma {:induction false} WalkIsWellPaged<T(!new)>(rows: seq<T>, lt: (T, T) -> bool, ord: (T, T) -> bool, limit: nat, after: Option<T>)
    requires StrictOn(rows, lt) && limit >= 1
    requires after.Some? ==> after.value in rows
    ensures WellPaged(Walk(rows, lt, ord, limit, after), limit)
    decreases |Below(rows, lt, after)|
  {
    var m := Remaining(rows, lt, ord, after);
    WalkUnfolds(rows, lt, ord, limit, after);
    if |m| > limit {
      WalkIsWellPaged(rows, lt, ord, limit, Some(m[limit - 1]));
      WellPagedCons(Page(m[..limit], true), Walk(rows, lt, ord, limit, Some(m[limit - 1])), limit);
    }
  }

  lemma WalkUnfolds<T(!new)>(rows: seq<T>, lt: (T, T) -> bool, ord: (T, T) -> bool, limit: nat, after: Option<T>)
    requires StrictOn(rows, lt) && limit >= 1
    requires after.Some? ==> after.value in rows
    ensures var m := Remaining(rows, lt, ord, after);
            && (|m| <= limit ==> Walk(rows, lt, ord, limit, after) == [Page(m, false)] + [])
            && (|m| > limit ==>
                  && m[limit - 1] in rows
                  && |Below(rows, lt, Some(m[limit - 1]))| < |Below(rows, lt, after)|
                  && Walk(rows, lt, ord, limit, after) == [Page(m[..limit], true)] + Walk(rows, lt, ord, limit, Some(m[limit - 1])))
  {
    var m := Remaining(rows, lt, ord, after);
    RemainingMembers(rows, lt, ord, after);
    if |m| > limit {
      assert m[limit - 1] in m;
      CursorAdvances(rows, lt, after, m[limit - 1]);
      assert m[..limit][limit - 1] == m[limit - 1];
    }
  }

  lemma FlattenCons<T>(page: Page<T>, rest: seq<Page<T>>)
    ensures Flatten([page] + rest) == page.rows + Flatten(rest)
  {
    assert ([page] + rest)[1..] == rest;
  }

  lemma WellPagedCons<T>(page: Page<T>, rest: seq<Page<T>>, limit: nat)
    requires WellPaged(rest, limit) && page.hasMore && |page.rows| == limit
    ensures WellPaged([page] + rest, limit)
  {
    var pages := [page] + rest;
    forall i | 0 <= i < |pages| - 1 ensures pages[i].hasMore && |pages[i].rows| == limit {
      if i > 0 {
        assert pages[i] == rest[i - 1];
      }
    }
    assert pages[|pages| - 1] == rest[|rest| - 1];
  }

  // ---- Exactly when a walk with two orders is exact ----

  lemma {:induction false} SingleStepsDescend<T(!new)>(rows: seq<T>, lt: (T, T) -> bool, ord: (T, T) -> bool, after: Option<T>)
    requires StrictOn(rows, lt)
    requires after.Some? ==> after.value in rows
    ensures var out := Flatten(Walk(rows, lt, ord, 1, after));
            && (forall x :: x in out ==> x in rows && Passes(x, lt, after))
            && Descending(out, lt)
    decreases |Below(rows, lt, after)|
  {
    var m := Remaining(rows, lt, ord, after);
    RemainingMembers(rows, lt, ord, after);
    WalkUnfolds(rows, lt, ord, 1, after);
    if |m| <= 1 {
      FlattenCons(Page(m, false), []);
    } else {
      var rest := Walk(rows, lt, ord, 1, Some(m[0]));
      SingleStepsDescend(rows, lt, ord, Some(m[0]));
      FlattenCons(Page(m[..1], true), rest);
      assert m[..1] == [m[0]] && m[0] in m;
      ConsDescends(m[0], Flatten(rest), lt);
    }
  }

  lemma ConsDescends<T(!new)>(first: T, tail: seq<T>, lt: (T, T) -> bool)
    requires Descending(tail, lt) && forall x :: x in tail ==> lt(x, first)
    ensures Descending([first] + tail, lt)
  {
    var out := [first] + tail;
    forall i, j | 0 <= i < j < |out| ensures lt(out[j], out[i]) {
      assert out[j] == tail[j - 1] && tail[j - 1] in tail;
      if i > 0 {
        assert out[i] == tail[i - 1];
      }
    }
  }

  lemma OneByOneNeedsAgreement<T(!new)>(rows: seq<T>, lt: (T, T) -> bool, ord: (T, T) -> bool)
    requires StrictOn(rows, lt) && TotalOn(rows, ord) && NoDup(rows)
    requires Flatten(Walk(rows, lt, ord, 1, None)) == SortDesc(rows, ord)
    ensures Agree(rows, lt, ord)
  {
    SingleStepsDescend(rows, lt, ord, None);
    SortFacts(rows, ord);
    var m := SortDesc(rows, ord);
    forall a, b | a in rows && b in rows ensures lt(a, b) <==> ord(a, b) {
      assert a in m && b in m;
      var i :| 0 <= i < |m| && m[i] == a;
      var j :| 0 <= j < |m| && m[j] == b;
      if i < j {
        assert lt(b, a) && ord(b, a);
      } else if j < i {
        assert lt(a, b) && ord(a, b);
      }
    }
  }

  ghost predicate ExactAt<T(!new)>(rows: seq<T>, lt: (T, T) -> bool, ord: (T, T) -> bool, limit: nat)
    requires StrictOn(rows, lt)
  {
    limit >= 1 ==> Flatten(Walk(rows, lt, ord, limit, None)) == SortDesc(rows, ord)
  }

  /** A feed that cuts by `lt` and sorts by `ord` is walked exactly, at every page size, if and only if
      the two relations order its rows alike. */
  lemma WalkExactIffOrdersAgree<T(!new)>(rows: seq<T>, lt: (T, T) -> bool, ord: (T, T) -> bool)
    requires StrictOn(rows, lt) && TotalOn(rows, ord) && NoDup(rows)
    ensures (forall limit: nat :: ExactAt(rows, lt, ord, limit)) <==> Agree(rows, lt, ord)
  {
    if ExactAt(rows, lt, ord, 1) {
      OneByOneNeedsAgreement(rows, lt, ord);
    }
    if Agree(rows, lt, ord) {
      assert TotalOn(rows, lt);
      BelowNone(rows, lt);
      forall limit: nat ensures ExactAt(rows, lt, ord, limit) {
        if limit >= 1 {
          WalkIsExact(rows, lt, ord, limit, None);
        }
      }
    }
  }

  /** A feed that cuts and sorts by one order, in which rows may tie, is walked exactly at every page size if
      and only if no two rows tie. */
  lemma WalkExactIffTotal<T(!new)>(rows: seq<T>, lt: (T, T) -> bool)
    requires StrictOn(rows, lt) && NoDup(rows)
    ensures (forall limit: nat :: ExactAt(rows, lt, lt, limit)) <==> TotalOn(rows, lt)
  {
    if ExactAt(rows, lt, lt, 1) {
      SingleStepsDescend(rows, lt, lt, None);
      SortMembers(rows, lt);
      var m := SortDesc(rows, lt);
      forall a, b | a in rows && b in rows && a != b ensures lt(a, b) || lt(b, a) {
        assert a in m && b in m;
        var i :| 0 <= i < |m| && m[i] == a;
        var j :| 0 <= j < |m| && m[j] == b;
      }
    }
    if TotalOn(rows, lt) {
      WalkExactIffOrdersAgree(rows, lt, lt);
    }
  }

  // ---- Sorting then cutting ----

  /** Ties are an equivalence: whatever lies below one of two rows or above the other tells them apart. */
  ghost predicate Weak<T(!new)>(lt: (T, T) -> bool) {
    forall a, b, c :: lt(a, b) ==> lt(a, c) || lt(c, b)
  }

  lemma {:induction false} CutInsert<T(!new)>(r: T, sorted: seq<T>, lt: (T, T) -> bool, after: Option<T>)
    requires Weak(lt)
    ensures Below(Insert(r, sorted, lt), lt, after)
         == if Passes(r, lt, after) then Insert(r, Below(sorted, lt, after), lt) else Below(sorted, lt, after)
  {
    if |sorted| > 0 {
      if lt(r, sorted[0]) {
        CutInsert(r, sorted[1..], lt, after);
        assert ([sorted[0]] + Insert(r, sorted[1..], lt))[1..] == Insert(r, sorted[1..], lt);
      } else {
        assert ([r] + sorted)[1..] == sorted;
      }
    } else {
      assert [r][1..] == [];
    }
  }

  /** Cutting the sorted rows is sorting the cut rows, ties included. */
  lemma {:induction false} CutSorted<T(!new)>(rows: seq<T>, lt: (T, T) -> bool, after: Option<T>)
    requires Weak(lt)
    ensures Below(SortDesc(rows, lt), lt, after) == SortDesc(Below(rows, lt, after), lt)
  {
    if |rows| > 0 {
      CutSorted(rows[1..], lt, after);
      CutInsert(rows[0], SortDesc(rows[1..], lt), lt, after);
    }
  }

  /** No row is greater than an earlier one. */
  ghost predicate NotAscending<T>(rows: seq<T>, lt: (T, T) -> bool) {
    forall i, j :: 0 <= i < j < |rows| ==> !lt(rows[i], rows[j])
  }

  lemma {:induction false} InsertNotAscending<T(!new)>(r: T, sorted: seq<T>, lt: (T, T) -> bool)
    requires Weak(lt) && (forall a, b :: lt(a, b) ==> !lt(b, a)) && NotAscending(sorted, lt)
    ensures NotAscending(Insert(r, sorted, lt), lt)
  {
    if |sorted| > 0 {
      var rest := sorted[1..];
      if lt(r, sorted[0]) {
        InsertNotAscending(r, rest, lt);
        InsertMembers(r, rest, lt);
        ConsNotAscending(sorted[0], Insert(r, rest, lt), lt);
      } else {
        ConsNotAscending(r, sorted, lt);
      }
    }
  }

  lemma ConsNotAscending<T(!new)>(first: T, rest: seq<T>, lt: (T, T) -> bool)
    requires NotAscending(rest, lt) && forall x :: x in rest ==> !lt(first, x)
    ensures NotAscending([first] + rest, lt)
  {
  }

  lemma {:induction false} SortNotAscending<T(!new)>(rows: seq<T>, lt: (T, T) -> bool)
    requires Weak(lt) && forall a, b :: lt(a, b) ==> !lt(b, a)
    ensures NotAscending(SortDesc(rows, lt), lt)
  {
    if |rows| > 0 {
      SortNotAscending(rows[1..], lt);
      InsertNotAscending(rows[0], SortDesc(rows[1..], lt), lt);
    }
  }
}
