/** The pruned sliding-window log of auth_rate_limit.py: one row per accepted attempt, counted over
    the trailing window. Times are instants in microseconds. A call is one transaction: a refused
    call raises inside it, so its DELETE is rolled back with everything else. */
module SlidingLog {
  import opened Wrappers

  datatype Row = Row(bucket: string, at: int)

  /** `DELETE ... WHERE bucket_key = b AND occurred_at < line`. */
  function Pruned(rows: seq<Row>, bucket: string, line: int): seq<Row> {
    if |rows| == 0 then []
    else
      var front := Pruned(rows[..|rows| - 1], bucket, line);
      var last := rows[|rows| - 1];
      if last.bucket == bucket && last.at < line then front else front + [last]
  }

  predicate From(r: Row, bucket: string, line: int) {
    r.bucket == bucket && r.at >= line
  }

  /** `SELECT COUNT(*) ... WHERE bucket_key = b AND occurred_at >= line`. */
  function CountFrom(rows: seq<Row>, bucket: string, line: int): nat {
    if |rows| == 0 then 0
    else CountFrom(rows[..|rows| - 1], bucket, line) + (if From(rows[|rows| - 1], bucket, line) then 1 else 0)
  }

  /** The bucket's rows at or after the line, as positions. */
  function Recent(rows: seq<Row>, bucket: string, line: int): set<int> {
    set i | 0 <= i < |rows| && rows[i].bucket == bucket && rows[i].at >= line
  }

  lemma {:induction false} CountsTheRecent(rows: seq<Row>, bucket: string, line: int)
    ensures CountFrom(rows, bucket, line) == |Recent(rows, bucket, line)|
  {
    if |rows| > 0 {
      var n := |rows| - 1;
      CountsTheRecent(rows[..n], bucket, line);
      assert Recent(rows, bucket, line) == Recent(rows[..n], bucket, line) + (if From(rows[n], bucket, line) then {n} else {});
    }
  }

  predicate Within(r: Row, bucket: string, from: int, length: int) {
    r.bucket == bucket && from <= r.at <= from + length
  }

  /** The attempts of a bucket in the closed span of `length` that starts at `from`. */
  function CountWithin(rows: seq<Row>, bucket: string, from: int, length: int): nat {
    if |rows| == 0 then 0
    else CountWithin(rows[..|rows| - 1], bucket, from, length) + (if Within(rows[|rows| - 1], bucket, from, length) then 1 else 0)
  }

  datatype Config = Config(maxAttempts: int, window: int)

  predicate Accepts(c: Config, rows: seq<Row>, bucket: string, now: int) {
    CountFrom(Pruned(rows, bucket, now - c.window), bucket, now - c.window) < c.maxAttempts
  }

  function Recorded(c: Config, rows: seq<Row>, bucket: string, now: int): seq<Row> {
    if Accepts(c, rows, bucket, now) then Pruned(rows, bucket, now - c.window) + [Row(bucket, now)] else rows
  }

  class PostgresAuthRateLimiter {
    const maxAttempts: int
    const window: int
    var rows: seq<Row>

    constructor (maxAttempts: int, window: int)
      ensures this.maxAttempts == maxAttempts && this.window == window && rows == []
    {
      this.maxAttempts, this.window, rows := maxAttempts, window, [];
    }

    /** `Err` carries the retry delay: the whole window. */
    method CheckAndRecord(bucket: string, now: int) returns (r: Result<(), int>)
      modifies this`rows
      ensures r.Ok? <==> |Recent(old(rows), bucket, now - window)| < maxAttempts
      ensures r.Ok? <==> Accepts(Config(maxAttempts, window), old(rows), bucket, now)
      ensures rows == Recorded(Config(maxAttempts, window), old(rows), bucket, now)
      ensures r.Err? ==> r.error == window && rows == old(rows)
    {
      CountsTheRecent(rows, bucket, now - window);
      PruneKeepsCounts(rows, bucket, now - window, bucket, now - window);
      var windowStart := now - window;
      var kept := Pruned(rows, bucket, windowStart);
      var count := CountFrom(kept, bucket, windowStart);
      if count >= maxAttempts {
        return Err(window);
      }
      rows := kept + [Row(bucket, now)];
      return Ok(());
    }
  }

  // ---- Runs, with the full history of accepted attempts beside the pruned table ----

  datatype State = State(rows: seq<Row>, accepted: seq<Row>)

  function Next(c: Config, s: State, attempt: Row): State {
    State(Recorded(c, s.rows, attempt.bucket, attempt.at),
          if Accepts(c, s.rows, attempt.bucket, attempt.at) then s.accepted + [attempt] else s.accepted)
  }

  function After(c: Config, attempts: seq<Row>): State {
    if |attempts| == 0 then State([], [])
    else Next(c, After(c, attempts[..|attempts| - 1]), attempts[|attempts| - 1])
  }

  /** The bucket's attempts come with nondecreasing times. */
  ghost predicate Ordered(rows: seq<Row>, bucket: string) {
    forall i, j :: 0 <= i < j < |rows| && rows[i].bucket == bucket && rows[j].bucket == bucket ==> rows[i].at <= rows[j].at
  }

  /** Every row of the bucket is at or before `now`. */
  ghost predicate NotAfter(rows: seq<Row>, bucket: string, now: int) {
    forall i :: 0 <= i < |rows| && rows[i].bucket == bucket ==> rows[i].at <= now
  }

  // ---- Counting lemmas ----

  lemma {:induction false} PruneKeepsCounts(rows: seq<Row>, bucket: string, line: int, b: string, from: int)
    requires b == bucket ==> from >= line
    ensures CountFrom(Pruned(rows, bucket, line), b, from) == CountFrom(rows, b, from)
  {
    if |rows| > 0 {
      var n := |rows| - 1;
      PruneKeepsCounts(rows[..n], bucket, line, b, from);
      if !(rows[n].bucket == bucket && rows[n].at < line) {
        CountAppend(Pruned(rows[..n], bucket, line), rows[n], b, from);
      }
    }
  }

  lemma CountAppend(rows: seq<Row>, r: Row, bucket: string, line: int)
    ensures CountFrom(rows + [r], bucket, line) == CountFrom(rows, bucket, line) + (if From(r, bucket, line) then 1 else 0)
  {
    assert (rows + [r])[..|rows|] == rows;
  }

  lemma PruneAppend(rows: seq<Row>, r: Row, bucket: string, line: int)
    ensures Pruned(rows + [r], bucket, line)
         == if r.bucket == bucket && r.at < line then Pruned(rows, bucket, line) else Pruned(rows, bucket, line) + [r]
  {
    assert (rows + [r])[..|rows|] == rows;
  }

  /** The bucket's rows in the closed span, as positions. */
  function Spanned(rows: seq<Row>, bucket: string, from: int, length: int): set<int> {
    set i | 0 <= i < |rows| && rows[i].bucket == bucket && from <= rows[i].at <= from + length
  }

  lemma SpannedStep(rows: seq<Row>, bucket: string, from: int, length: int)
    requires |rows| > 0
    ensures var n := |rows| - 1;
            |Spanned(rows, bucket, from, length)| == |Spanned(rows[..n], bucket, from, length)| + (if Within(rows[n], bucket, from, length) then 1 else 0)
  {
    var n := |rows| - 1;
    var front := rows[..n];
    var before, now := Spanned(front, bucket, from, length), Spanned(rows, bucket, from, length);
    assert forall i :: 0 <= i < n ==> front[i] == rows[i];
    assert n !in before;
    assert now == if Within(rows[n], bucket, from, length) then before + {n} else before;
  }

  lemma {:induction false} CountsTheSpan(rows: seq<Row>, bucket: string, from: int, length: int)
    ensures CountWithin(rows, bucket, from, length) == |Spanned(rows, bucket, from, length)|
  {
    if |rows| > 0 {
      CountsTheSpan(rows[..|rows| - 1], bucket, from, length);
      SpannedStep(rows, bucket, from, length);
    }
  }

  lemma WithinAppend(rows: seq<Row>, r: Row, bucket: string, from: int, length: int)
    ensures CountWithin(rows + [r], bucket, from, length)
         == CountWithin(rows, bucket, from, length) + (if Within(r, bucket, from, length) then 1 else 0)
  {
    assert (rows + [r])[..|rows|] == rows;
  }

  lemma {:induction false} WithinIsFrom(rows: seq<Row>, bucket: string, from: int, length: int, line: int)
    requires line <= from
    ensures CountWithin(rows, bucket, from, length) <= CountFrom(rows, bucket, line)
  {
    if |rows| > 0 {
      WithinIsFrom(rows[..|rows| - 1], bucket, from, length, line);
    }
  }

  // ---- The table holds the survivors of the history ----

  /** No later accepted attempt of the same bucket is dated more than a window after this one. */
  ghost predicate Survives(accepted: seq<Row>, window: int, i: nat)
    requires i < |accepted|
  {
    forall j :: i < j < |accepted| && accepted[j].bucket == accepted[i].bucket ==> accepted[j].at - window <= accepted[i].at
  }

  /** The survivors among the first `n` accepted attempts. */
  ghost function Survivors(accepted: seq<Row>, window: int, n: nat): seq<Row>
    requires n <= |accepted|
  {
    if n == 0 then []
    else if Survives(accepted, window, n - 1) then Survivors(accepted, window, n - 1) + [accepted[n - 1]]
    else Survivors(accepted, window, n - 1)
  }

  lemma SurvivesAppend(accepted: seq<Row>, a: Row, window: int, i: nat)
    requires i < |accepted|
    ensures Survives(accepted + [a], window, i)
       <==> Survives(accepted, window, i) && !(accepted[i].bucket == a.bucket && accepted[i].at < a.at - window)
  {
    var more := accepted + [a];
    assert forall j :: 0 <= j < |accepted| ==> more[j] == accepted[j];
    assert more[|accepted|] == a;
  }

  lemma SurvivorsNext(accepted: seq<Row>, window: int, n: nat)
    requires n < |accepted|
    ensures Survivors(accepted, window, n + 1)
         == if Survives(accepted, window, n) then Survivors(accepted, window, n) + [accepted[n]] else Survivors(accepted, window, n)
  {
  }

  lemma {:induction false} SurvivorsAppend(accepted: seq<Row>, a: Row, window: int, n: nat)
    requires n <= |accepted|
    ensures Survivors(accepted + [a], window, n) == Pruned(Survivors(accepted, window, n), a.bucket, a.at - window)
  {
    if n > 0 {
      var more := accepted + [a];
      SurvivorsAppend(accepted, a, window, n - 1);
      SurvivorsNext(accepted, window, n - 1);
      SurvivorsNext(more, window, n - 1);
      SurvivesAppend(accepted, a, window, n - 1);
      assert more[n - 1] == accepted[n - 1];
      PruneKept(Survivors(accepted, window, n - 1), accepted[n - 1], a.bucket, a.at - window,
                Survives(accepted, window, n - 1), Survives(more, window, n - 1));
    }
  }

  lemma PruneKept(rows: seq<Row>, r: Row, bucket: string, line: int, before: bool, after: bool)
    requires after <==> before && !(r.bucket == bucket && r.at < line)
    ensures Pruned(if before then rows + [r] else rows, bucket, line)
         == if after then Pruned(rows, bucket, line) + [r] else Pruned(rows, bucket, line)
  {
    PruneAppend(rows, r, bucket, line);
  }

  /** In every run, whatever the order of its times, the table is exactly the surviving part of the history. */
  lemma {:induction false} TableIsSurvivors(c: Config, attempts: seq<Row>)
    ensures After(c, attempts).rows == Survivors(After(c, attempts).accepted, c.window, |After(c, attempts).accepted|)
  {
    if |attempts| > 0 {
      var n := |attempts| - 1;
      var s, a := After(c, attempts[..n]), attempts[n];
      TableIsSurvivors(c, attempts[..n]);
      SurvivorsAppend(s.accepted, a, c.window, |s.accepted|);
    }
  }

  /** Every attempt of the bucket at or after the line is still in the table. */
  ghost predicate NothingLost(accepted: seq<Row>, window: int, bucket: string, line: int) {
    AllSurvive(accepted, window, |accepted|, bucket, line)
  }

  ghost predicate AllSurvive(accepted: seq<Row>, window: int, n: nat, bucket: string, line: int)
    requires n <= |accepted|
  {
    forall i :: 0 <= i < n && From(accepted[i], bucket, line) ==> Survives(accepted, window, i)
  }

  lemma CountPrefix(accepted: seq<Row>, n: nat, bucket: string, line: int)
    requires 0 < n <= |accepted|
    ensures CountFrom(accepted[..n], bucket, line)
         == CountFrom(accepted[..n - 1], bucket, line) + (if From(accepted[n - 1], bucket, line) then 1 else 0)
  {
    assert accepted[..n][..n - 1] == accepted[..n - 1];
  }

  lemma SurvivorsStep(accepted: seq<Row>, window: int, n: nat, bucket: string, line: int)
    requires 0 < n <= |accepted|
    ensures CountFrom(Survivors(accepted, window, n), bucket, line)
         == CountFrom(Survivors(accepted, window, n - 1), bucket, line)
            + (if From(accepted[n - 1], bucket, line) && Survives(accepted, window, n - 1) then 1 else 0)
    ensures AllSurvive(accepted, window, n, bucket, line)
       <==> AllSurvive(accepted, window, n - 1, bucket, line)
            && (From(accepted[n - 1], bucket, line) ==> Survives(accepted, window, n - 1))
  {
    CountAppend(Survivors(accepted, window, n - 1), accepted[n - 1], bucket, line);
  }

  lemma {:induction false} CountSurvivors(accepted: seq<Row>, window: int, n: nat, bucket: string, line: int)
    requires n <= |accepted|
    ensures CountFrom(Survivors(accepted, window, n), bucket, line) <= CountFrom(accepted[..n], bucket, line)
    ensures CountFrom(Survivors(accepted, window, n), bucket, line) == CountFrom(accepted[..n], bucket, line)
       <==> AllSurvive(accepted, window, n, bucket, line)
  {
    if n > 0 {
      CountSurvivors(accepted, window, n - 1, bucket, line);
      CountPrefix(accepted, n, bucket, line);
      SurvivorsStep(accepted, window, n, bucket, line);
    }
  }

  // ---- Main results ----

  /** What a call at `now` counts, in the table and over the full history. */
  function Counted(s: State, window: int, bucket: string, now: int): (int, int) {
    (CountFrom(Pruned(s.rows, bucket, now - window), bucket, now - window), CountFrom(s.accepted, bucket, now - window))
  }

  lemma AllSurvivors(accepted: seq<Row>, window: int, bucket: string, line: int)
    ensures var kept, full := CountFrom(Survivors(accepted, window, |accepted|), bucket, line), CountFrom(accepted, bucket, line);
            kept <= full && (kept == full <==> NothingLost(accepted, window, bucket, line))
  {
    CountSurvivors(accepted, window, |accepted|, bucket, line);
    assert accepted[..|accepted|] == accepted;
  }

  lemma SurvivorsCounted(s: State, window: int, bucket: string, now: int)
    requires s.rows == Survivors(s.accepted, window, |s.accepted|)
    ensures var (kept, full) := Counted(s, window, bucket, now);
            kept <= full && (kept == full <==> NothingLost(s.accepted, window, bucket, now - window))
  {
    AllSurvivors(s.accepted, window, bucket, now - window);
    PruneKeepsCounts(s.rows, bucket, now - window, bucket, now - window);
  }

  /** Over every run, with no order assumed: what the next call counts never exceeds the count over the
      full history, and equals it if and only if no attempt it has to count was overtaken by a later
      accepted one of its bucket dated more than a window after it. */
  lemma PrunedCountExact(c: Config, attempts: seq<Row>, bucket: string, now: int)
    ensures var s := After(c, attempts);
            var (kept, full) := Counted(s, c.window, bucket, now);
            kept <= full && (kept == full <==> NothingLost(s.accepted, c.window, bucket, now - c.window))
  {
    TableIsSurvivors(c, attempts);
    SurvivorsCounted(After(c, attempts), c.window, bucket, now);
  }

  /** The next call decides at this limit as it would over the full history. */
  ghost predicate DecidesAt(limit: int, window: int, s: State, bucket: string, now: int) {
    Accepts(Config(limit, window), s.rows, bucket, now) <==> CountFrom(s.accepted, bucket, now - window) < limit
  }

  lemma DecidesByCounts(limit: int, window: int, s: State, bucket: string, now: int)
    ensures var (kept, full) := Counted(s, window, bucket, now);
            DecidesAt(limit, window, s, bucket, now) <==> (kept < limit <==> full < limit)
  {
  }

  lemma AllLimits(window: int, s: State, bucket: string, now: int)
    requires var (kept, full) := Counted(s, window, bucket, now); kept <= full
    ensures (forall limit :: DecidesAt(limit, window, s, bucket, now))
       <==> var (kept, full) := Counted(s, window, bucket, now); kept == full
  {
    var (kept, full) := Counted(s, window, bucket, now);
    DecidesByCounts(full, window, s, bucket, now);
    if kept == full {
      forall limit ensures DecidesAt(limit, window, s, bucket, now) {
        DecidesByCounts(limit, window, s, bucket, now);
      }
    }
  }

  /** So after every run the next call decides as it would over the full history, whatever limit it
      compares with, if and only if nothing it has to count was lost. */
  lemma DecisionsExact(c: Config, attempts: seq<Row>, bucket: string, now: int)
    ensures var s := After(c, attempts);
            (forall limit :: DecidesAt(limit, c.window, s, bucket, now)) <==> NothingLost(s.accepted, c.window, bucket, now - c.window)
  {
    PrunedCountExact(c, attempts, bucket, now);
    AllLimits(c.window, After(c, attempts), bucket, now);
  }

  /** Pruning never refuses an attempt that the history admits, and where nothing was lost it admits none
      that the history refuses. */
  lemma DecisionByHistory(c: Config, attempts: seq<Row>, bucket: string, now: int)
    ensures var s := After(c, attempts);
            && (CountFrom(s.accepted, bucket, now - c.window) < c.maxAttempts ==> Accepts(c, s.rows, bucket, now))
            && (NothingLost(s.accepted, c.window, bucket, now - c.window) ==> DecidesAt(c.maxAttempts, c.window, s, bucket, now))
  {
    PrunedCountExact(c, attempts, bucket, now);
    DecidesByCounts(c.maxAttempts, c.window, After(c, attempts), bucket, now);
  }

  lemma {:induction false} AcceptedNotAfter(c: Config, attempts: seq<Row>, bucket: string, now: int)
    requires NotAfter(attempts, bucket, now)
    ensures NotAfter(After(c, attempts).accepted, bucket, now)
  {
    if |attempts| > 0 {
      AcceptedNotAfter(c, attempts[..|attempts| - 1], bucket, now);
    }
  }

  lemma DecidesByRecent(c: Config, s: State, bucket: string, now: int)
    requires DecidesAt(c.maxAttempts, c.window, s, bucket, now)
    ensures Accepts(c, s.rows, bucket, now) <==> |Recent(s.accepted, bucket, now - c.window)| < c.maxAttempts
  {
    assert c == Config(c.maxAttempts, c.window);
    CountsTheRecent(s.accepted, bucket, now - c.window);
  }

  lemma NotAfterLosesNothing(accepted: seq<Row>, window: int, bucket: string, now: int)
    requires NotAfter(accepted, bucket, now)
    ensures NothingLost(accepted, window, bucket, now - window)
  {
  }

  /** As long as no earlier attempt of the bucket is dated after this one, deleting old rows never changes
      a decision: it is accepted exactly when the full history of accepted attempts has fewer than the
      limit in the trailing window. */
  lemma PruningChangesNothing(c: Config, attempts: seq<Row>, bucket: string, now: int)
    requires NotAfter(attempts, bucket, now)
    ensures Accepts(c, After(c, attempts).rows, bucket, now)
       <==> |Recent(After(c, attempts).accepted, bucket, now - c.window)| < c.maxAttempts
  {
    AcceptedNotAfter(c, attempts, bucket, now);
    NotAfterLosesNothing(After(c, attempts).accepted, c.window, bucket, now);
    DecisionByHistory(c, attempts, bucket, now);
    DecidesByRecent(c, After(c, attempts), bucket, now);
  }

  function Capacity(c: Config): nat {
    if c.maxAttempts > 0 then c.maxAttempts else 0
  }

  ghost predicate Bounded(c: Config, accepted: seq<Row>, bucket: string) {
    forall from :: CountWithin(accepted, bucket, from, c.window) <= Capacity(c)
  }

  /** Each accepted attempt of the bucket found the part of the history it had to count complete. */
  ghost predicate NeverLost(c: Config, attempts: seq<Row>, bucket: string) {
    |attempts| > 0 ==>
      var front, last := attempts[..|attempts| - 1], attempts[|attempts| - 1];
      && NeverLost(c, front, bucket)
      && (last.bucket == bucket && Accepts(c, After(c, front).rows, bucket, last.at)
          ==> NothingLost(After(c, front).accepted, c.window, bucket, last.at - c.window))
  }

  lemma AcceptedBounded(c: Config, accepted: seq<Row>, attempt: Row, bucket: string)
    requires Bounded(c, accepted, bucket)
    requires attempt.bucket == bucket ==> CountFrom(accepted, bucket, attempt.at - c.window) < c.maxAttempts
    ensures Bounded(c, accepted + [attempt], bucket)
  {
    forall from ensures CountWithin(accepted + [attempt], bucket, from, c.window) <= Capacity(c) {
      WithinAppend(accepted, attempt, bucket, from, c.window);
      if Within(attempt, bucket, from, c.window) {
        WithinIsFrom(accepted, bucket, from, c.window, attempt.at - c.window);
      }
    }
  }

  /** One accepted attempt that missed nothing keeps the bound. */
  lemma AcceptedKeepsBound(c: Config, front: seq<Row>, last: Row, bucket: string)
    requires Bounded(c, After(c, front).accepted, bucket) && Accepts(c, After(c, front).rows, last.bucket, last.at)
    requires last.bucket == bucket ==> NothingLost(After(c, front).accepted, c.window, bucket, last.at - c.window)
    ensures Bounded(c, After(c, front).accepted + [last], bucket)
  {
    if last.bucket == bucket {
      DecisionByHistory(c, front, bucket, last.at);
    }
    AcceptedBounded(c, After(c, front).accepted, last, bucket);
  }

  /** In any order of times: if no accepted attempt missed a pruned one, every closed span of window
      length holds at most `max_attempts` accepted attempts. */
  lemma {:induction false} BoundedUnlessLost(c: Config, attempts: seq<Row>, bucket: string)
    requires NeverLost(c, attempts, bucket)
    ensures Bounded(c, After(c, attempts).accepted, bucket)
  {
    if |attempts| > 0 {
      var front, last := attempts[..|attempts| - 1], attempts[|attempts| - 1];
      BoundedUnlessLost(c, front, bucket);
      if Accepts(c, After(c, front).rows, last.bucket, last.at) {
        AcceptedKeepsBound(c, front, last, bucket);
      }
    }
  }

  lemma {:induction false} OrderedNeverLoses(c: Config, attempts: seq<Row>, bucket: string)
    requires Ordered(attempts, bucket)
    ensures NeverLost(c, attempts, bucket)
  {
    if |attempts| > 0 {
      var front, last := attempts[..|attempts| - 1], attempts[|attempts| - 1];
      assert forall i :: 0 <= i < |front| ==> front[i] == attempts[i];
      OrderedNeverLoses(c, front, bucket);
      if last.bucket == bucket {
        AcceptedNotAfter(c, front, bucket, last.at);
        NotAfterLosesNothing(After(c, front).accepted, c.window, bucket, last.at);
      }
    }
  }

  /** Times that do not go back: at most `max_attempts` attempts of the bucket are accepted in every
      closed span of window length. */
  lemma SpanNeverExceeds(c: Config, attempts: seq<Row>, bucket: string, from: int)
    requires Ordered(attempts, bucket)
    ensures CountWithin(After(c, attempts).accepted, bucket, from, c.window) <= Capacity(c)
    ensures |Spanned(After(c, attempts).accepted, bucket, from, c.window)| <= Capacity(c)
  {
    CountsTheSpan(After(c, attempts).accepted, bucket, from, c.window);
    OrderedNeverLoses(c, attempts, bucket);
    BoundedUnlessLost(c, attempts, bucket);
  }

  /** Time order is needed: an attempt from the future prunes rows an earlier-dated attempt needs, and
      three attempts of one window are then accepted under a limit of two. */
  lemma BackdatedAttemptSlipsThrough(b: string)
    ensures var c := Config(2, 10);
            var attempts := [Row(b, 0), Row(b, 1), Row(b, 100), Row(b, 5)];
            After(c, attempts).accepted == attempts && CountWithin(attempts, b, 0, 10) == 3
  {
    var c := Config(2, 10);
    var w, x, y, z := Row(b, 0), Row(b, 1), Row(b, 100), Row(b, 5);
    var s1, s2, s3 := State([w], [w]), State([w, x], [w, x]), State([y], [w, x, y]);
    assert [] + [w] == [w] && [w] + [x] == [w, x] && [w, x] + [y] == [w, x, y] && [w, x, y] + [z] == [w, x, y, z];
    CountOne(w, b, -9);
    CountOne(y, b, -5);
    PruneAll(w, x, b, 90);
    assert Next(c, State([], []), w) == s1 && Next(c, s1, x) == s2 && Next(c, s2, y) == s3;
    assert Next(c, s3, z).accepted == [w, x, y, z];
    AfterAppend(c, [], w);
    AfterAppend(c, [w], x);
    AfterAppend(c, [w, x], y);
    AfterAppend(c, [w, x, y], z);
    WithinAppend([], w, b, 0, 10);
    WithinAppend([w], x, b, 0, 10);
    WithinAppend([w, x], y, b, 0, 10);
    WithinAppend([w, x, y], z, b, 0, 10);
  }

  lemma CountOne(r: Row, bucket: string, line: int)
    requires From(r, bucket, line)
    ensures Pruned([r], bucket, line) == [r] && CountFrom([r], bucket, line) == 1
  {
    assert [r][..0] == [];
  }

  lemma PruneAll(r: Row, q: Row, bucket: string, line: int)
    requires r.bucket == q.bucket == bucket && r.at < line && q.at < line
    ensures Pruned([r, q], bucket, line) == []
  {
    assert [r, q][..1] == [r] && [r][..0] == [];
    assert Pruned([r], bucket, line) == [];
  }

  lemma AfterAppend(c: Config, attempts: seq<Row>, last: Row)
    ensures After(c, attempts + [last]) == Next(c, After(c, attempts), last)
  {
    assert (attempts + [last])[..|attempts|] == attempts;
  }
}
