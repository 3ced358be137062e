/** The SQL repository of postgres_findings.py: one table with a primary key on the id and a unique index
    on (organization, fingerprint), written by insert-or-update, and the same event log. A method is
    one serial transaction. */
module PostgresFindings {
  import opened Wrappers
  import opened Findings

  datatype Tables = Tables(findings: seq<FindingRecord>, events: seq<FindingEvent>)

  datatype SqlError = Domain(error: FindingError) | IntegrityViolation

  /** `WHERE organization_id = o AND fingerprint = f`: the row's position, or the length. */
  function ByKey(rows: seq<FindingRecord>, org: string, fingerprint: string): (i: nat)
    ensures i <= |rows|
    ensures i < |rows| ==> rows[i].organizationId == org && rows[i].fingerprint == fingerprint
    ensures forall j :: 0 <= j < i ==> !(rows[j].organizationId == org && rows[j].fingerprint == fingerprint)
  {
    if |rows| == 0 || (rows[0].organizationId == org && rows[0].fingerprint == fingerprint) then 0
    else
      var i := ByKey(rows[1..], org, fingerprint) + 1;
      assert forall j :: 1 <= j < i ==> rows[j] == rows[1..][j - 1];
      i
  }

  /** `WHERE finding_id = id`. */
  function ById(rows: seq<FindingRecord>, id: string): (i: nat)
    ensures i <= |rows|
    ensures i < |rows| ==> rows[i].findingId == id
    ensures forall j :: 0 <= j < i ==> rows[j].findingId != id
  {
    if |rows| == 0 || rows[0].findingId == id then 0
    else
      var i := ById(rows[1..], id) + 1;
      assert forall j :: 1 <= j < i ==> rows[j] == rows[1..][j - 1];
      i
  }

  predicate HasEvent(events: seq<FindingEvent>, eventId: string) {
    exists i :: 0 <= i < |events| && events[i].eventId == eventId
  }

  /** ON CONFLICT (organization_id, fingerprint) DO UPDATE: the columns it sets, with the CASE on the stored status. */
  function ConflictUpdate(stored: FindingRecord, excluded: FindingRecord): FindingRecord {
    stored.(scanId := excluded.scanId, scannerVersion := excluded.scannerVersion, severity := excluded.severity,
            confidence := excluded.confidence, lastSeenAt := excluded.lastSeenAt, checkVersion := excluded.checkVersion,
            evidence := excluded.evidence, status := if stored.status == Resolved then Reopened else stored.status)
  }

  function InsertEvent(t: Tables, e: FindingEvent): Result<Tables, SqlError> {
    if HasEvent(t.events, e.eventId) then Err(IntegrityViolation) else Ok(t.(events := t.events + [e]))
  }

  function SqlRecorded(t: Tables, d: Detection, findingId: string, eventId: string): (Tables, Result<FindingRecord, SqlError>) {
    var proposed := FirstRecord(d, findingId);
    var i := ByKey(t.findings, d.organizationId, d.fingerprint);
    if i == |t.findings| then
      if ById(t.findings, findingId) < |t.findings| then (t, Err(IntegrityViolation))
      else (t.(findings := t.findings + [proposed]), Ok(proposed))
    else
      var record := ConflictUpdate(t.findings[i], proposed);
      var u := t.(findings := t.findings[i := record]);
      if record.status == t.findings[i].status then (u, Ok(record))
      else
        match InsertEvent(u, FindingEvent(eventId, record.findingId, d.organizationId, t.findings[i].status, record.status, d.now, REDETECTED, None))
        case Err(e) => (t, Err(e))
        case Ok(v) => (v, Ok(record))
  }

  function SqlUpdated(t: Tables, c: Change, eventId: string): (Tables, Result<FindingRecord, SqlError>) {
    var i := ById(t.findings, c.findingId);
    if i == |t.findings| || t.findings[i].organizationId != c.organizationId then (t, Err(Domain(NotFound)))
    else
      var current := t.findings[i];
      if c.newStatus == current.status then (t, Ok(current))
      else if c.newStatus !in AllowedTargets(current.status) then (t, Err(Domain(TransitionInvalid)))
      else
        var updated := current.(status := c.newStatus);
        var u := t.(findings := t.findings[i := updated]);
        match InsertEvent(u, FindingEvent(eventId, c.findingId, c.organizationId, current.status, c.newStatus, c.now, c.reason, c.changedBy))
        case Err(e) => (t, Err(e))
        case Ok(v) => (v, Ok(updated))
  }

  class PostgresFindingRepository {
    var findings: seq<FindingRecord>
    var events: seq<FindingEvent>

    ghost function State(): Tables
      reads this
    {
      Tables(findings, events)
    }

    constructor ()
      ensures State() == Tables([], [])
    {
      findings, events := [], [];
    }

    /** One transaction: on a failed statement everything written before it is rolled back. */
    method RecordFinding(d: Detection, findingId: string, eventId: string) returns (r: Result<FindingRecord, SqlError>)
      modifies this
      ensures (State(), r) == SqlRecorded(old(State()), d, findingId, eventId)
    {
      var i := ByKey(findings, d.organizationId, d.fingerprint);
      var proposed := FirstRecord(d, findingId);
      if i == |findings| {
        if ById(findings, findingId) < |findings| {
          return Err(IntegrityViolation);
        }
        findings := findings + [proposed];
        return Ok(proposed);
      }
      var previous := findings[i].status;
      var record := ConflictUpdate(findings[i], proposed);
      if record.status != previous {
        var e := FindingEvent(eventId, record.findingId, d.organizationId, previous, record.status, d.now, REDETECTED, None);
        if HasEvent(events, eventId) {
          return Err(IntegrityViolation);
        }
        events := events + [e];
      }
      findings := findings[i := record];
      return Ok(record);
    }

    method UpdateStatus(c: Change, eventId: string) returns (r: Result<FindingRecord, SqlError>)
      modifies this
      ensures (State(), r) == SqlUpdated(old(State()), c, eventId)
    {
      var i := ById(findings, c.findingId);
      if i == |findings| || findings[i].organizationId != c.organizationId {
        return Err(Domain(NotFound));
      }
      var current := findings[i];
      if c.newStatus == current.status {
        return Ok(current);
      }
      if c.newStatus !in AllowedTargets(current.status) {
        return Err(Domain(TransitionInvalid));
      }
      if HasEvent(events, eventId) {
        return Err(IntegrityViolation);
      }
      findings := findings[i := current.(status := c.newStatus)];
      events := events + [FindingEvent(eventId, c.findingId, c.organizationId, current.status, c.newStatus, c.now, c.reason, c.changedBy)];
      return Ok(current.(status := c.newStatus));
    }
  }

  // ---- Runs ----

  function SqlApplied(t: Tables, call: Call): (Tables, Result<FindingRecord, SqlError>) {
    match call
    case RecordCall(d, fid, eid) => SqlRecorded(t, d, fid, eid)
    case UpdateCall(c, eid) => SqlUpdated(t, c, eid)
  }

  function SqlFinal(t: Tables, calls: seq<Call>): Tables
    decreases |calls|
  {
    if |calls| == 0 then t else SqlFinal(SqlApplied(t, calls[0]).0, calls[1..])
  }

  function SqlReplies(t: Tables, calls: seq<Call>): (replies: seq<Result<FindingRecord, SqlError>>)
    ensures |replies| == |calls|
    decreases |calls|
  {
    if |calls| == 0 then [] else [SqlApplied(t, calls[0]).1] + SqlReplies(SqlApplied(t, calls[0]).0, calls[1..])
  }

  /** The event ids drawn in a run are new and distinct. */
  ghost predicate FreshEvents(events: seq<FindingEvent>, calls: seq<Call>) {
    && (forall i :: 0 <= i < |calls| ==> !HasEvent(events, calls[i].eventId))
    && (forall i, j :: 0 <= i < j < |calls| ==> calls[i].eventId != calls[j].eventId)
  }

  /** A reply of the in-memory repository, as the SQL one words it. */
  function AsSql(reply: Reply): Result<FindingRecord, SqlError> {
    match reply
    case Recording(r) => Ok(r)
    case Updating(Ok(r)) => Ok(r)
    case Updating(Err(e)) => Err(Domain(e))
  }

  // ---- Simulation ----

  /** The table holds exactly the records of the indexes, one row per id, and the logs are equal. */
  ghost predicate Simulates(t: Tables, s: Store) {
    && t.events == s.events
    && (forall i :: 0 <= i < |t.findings| ==> t.findings[i].findingId in s.byId && s.byId[t.findings[i].findingId] == t.findings[i])
    && (forall id :: id in s.byId ==> s.byId[id] in t.findings)
    && (forall i, j :: 0 <= i < j < |t.findings| ==> t.findings[i].findingId != t.findings[j].findingId)
  }

  lemma RowOfId(t: Tables, s: Store, id: string)
    requires Simulates(t, s) && Consistent(s)
    ensures ById(t.findings, id) < |t.findings| <==> id in s.byId
    ensures id in s.byId ==> t.findings[ById(t.findings, id)] == s.byId[id]
  {
  }

  lemma RowOfKey(t: Tables, s: Store, org: string, fingerprint: string)
    requires Simulates(t, s) && Consistent(s)
    ensures ByKey(t.findings, org, fingerprint) < |t.findings| <==> (org, fingerprint) in s.byKey
    ensures (org, fingerprint) in s.byKey ==> t.findings[ByKey(t.findings, org, fingerprint)] == s.byKey[(org, fingerprint)]
  {
    var i := ByKey(t.findings, org, fingerprint);
    if i < |t.findings| {
      assert s.byId[t.findings[i].findingId] == t.findings[i];
    }
    if (org, fingerprint) in s.byKey {
      var r := s.byKey[(org, fingerprint)];
      assert r.findingId in s.byId;
      var j :| 0 <= j < |t.findings| && t.findings[j] == r;
      assert i <= j;
    }
  }

  lemma AppendRow(t: Tables, s: Store, r: FindingRecord)
    requires Simulates(t, s) && Consistent(s) && r.findingId !in s.byId
    ensures Simulates(t.(findings := t.findings + [r]), Written(s, r, s.events))
  {
    var u, v := t.(findings := t.findings + [r]), Written(s, r, s.events);
    forall i | 0 <= i < |u.findings| ensures u.findings[i].findingId in v.byId && v.byId[u.findings[i].findingId] == u.findings[i] {
      if i < |t.findings| {
        assert u.findings[i] == t.findings[i];
      }
    }
  }

  lemma ReplaceRow(t: Tables, s: Store, i: nat, r: FindingRecord, events: seq<FindingEvent>)
    requires Simulates(t, s) && Consistent(s) && i < |t.findings| && t.findings[i].findingId == r.findingId
    ensures Simulates(Tables(t.findings[i := r], events), Written(s, r, events))
  {
    var u, v := Tables(t.findings[i := r], events), Written(s, r, events);
    forall id | id in v.byId ensures v.byId[id] in u.findings {
      if id == r.findingId {
        assert u.findings[i] == r;
      } else {
        var j :| 0 <= j < |t.findings| && t.findings[j] == s.byId[id];
        assert u.findings[j] == v.byId[id];
      }
    }
  }

  lemma RecordAgrees(t: Tables, s: Store, d: Detection, fid: string, eid: string)
    requires Simulates(t, s) && Invariant(s) && Fresh(s, RecordCall(d, fid, eid)) && !HasEvent(t.events, eid)
    ensures SqlRecorded(t, d, fid, eid).1 == Ok(Recorded(s, d, fid, eid).1)
    ensures Simulates(SqlRecorded(t, d, fid, eid).0, Recorded(s, d, fid, eid).0)
  {
    RowOfKey(t, s, d.organizationId, d.fingerprint);
    RowOfId(t, s, fid);
    var i := ByKey(t.findings, d.organizationId, d.fingerprint);
    if i == |t.findings| {
      AppendRow(t, s, FirstRecord(d, fid));
    } else {
      var record := Redetected(t.findings[i], d);
      assert ConflictUpdate(t.findings[i], FirstRecord(d, fid)) == record;
      ReplaceRow(t, s, i, record, Recorded(s, d, fid, eid).0.events);
    }
  }

  lemma UpdateAgrees(t: Tables, s: Store, c: Change, eid: string)
    requires Simulates(t, s) && Invariant(s) && !HasEvent(t.events, eid)
    ensures SqlUpdated(t, c, eid).1 == AsSql(Updating(Updated(s, c, eid).1))
    ensures Simulates(SqlUpdated(t, c, eid).0, Updated(s, c, eid).0)
  {
    RowOfId(t, s, c.findingId);
    var i := ById(t.findings, c.findingId);
    if c.findingId in s.byId && s.byId[c.findingId].organizationId == c.organizationId {
      ReplaceRow(t, s, i, t.findings[i].(status := c.newStatus), Updated(s, c, eid).0.events);
    }
  }

  lemma FreshTail(s: Store, t: Store, calls: seq<Call>)
    requires |calls| > 0 && FreshEvents(s.events, calls) && t == Applied(s, calls[0]).0
    ensures FreshEvents(t.events, calls[1..])
  {
    forall i | 0 <= i < |calls[1..]| ensures !HasEvent(t.events, calls[1..][i].eventId) {
      assert calls[1..][i] == calls[i + 1];
      assert forall j :: 0 <= j < |s.events| ==> t.events[j] == s.events[j];
      assert forall j :: |s.events| <= j < |t.events| ==> t.events[j].eventId == calls[0].eventId;
    }
  }

  lemma CallAgrees(t: Tables, s: Store, call: Call)
    requires Simulates(t, s) && Invariant(s) && Fresh(s, call) && !HasEvent(t.events, call.eventId)
    ensures SqlApplied(t, call).1 == AsSql(Applied(s, call).1)
    ensures Simulates(SqlApplied(t, call).0, Applied(s, call).0)
  {
    match call
    case RecordCall(d, fid, eid) => RecordAgrees(t, s, d, fid, eid);
    case UpdateCall(c, eid) => UpdateAgrees(t, s, c, eid);
  }

  function AllAsSql(replies: seq<Reply>): (r: seq<Result<FindingRecord, SqlError>>)
    ensures |r| == |replies| && forall i :: 0 <= i < |r| ==> r[i] == AsSql(replies[i])
  {
    if |replies| == 0 then [] else [AsSql(replies[0])] + AllAsSql(replies[1..])
  }

  lemma AllAsSqlCons(first: Reply, rest: seq<Reply>)
    ensures AllAsSql([first] + rest) == [AsSql(first)] + AllAsSql(rest)
  {
    assert ([first] + rest)[1..] == rest;
  }

  /** Run for run, over serial transactions with the same ids, the insert-or-update repository gives the
      same records, statuses, events and errors as the in-memory one. */
  lemma {:induction false} BackendsAgree(t: Tables, s: Store, calls: seq<Call>)
    requires Simulates(t, s) && Invariant(s) && IsRun(s, calls) && FreshEvents(s.events, calls)
    ensures Simulates(SqlFinal(t, calls), Final(s, calls))
    ensures SqlReplies(t, calls) == AllAsSql(Replies(s, calls))
    decreases |calls|
  {
    if |calls| > 0 {
      CallAgrees(t, s, calls[0]);
      CallKeeps(s, calls[0]);
      FreshTail(s, Applied(s, calls[0]).0, calls);
      BackendsAgree(SqlApplied(t, calls[0]).0, Applied(s, calls[0]).0, calls[1..]);
      AllAsSqlCons(Applied(s, calls[0]).1, Replies(Applied(s, calls[0]).0, calls[1..]));
    }
  }

  /** In particular from the empty database: the table never holds two rows of one key, and nothing is
      ever refused that the in-memory repository accepts. */
  lemma BackendsAgreeFromEmpty(calls: seq<Call>)
    requires IsRun(EMPTY, calls) && FreshEvents([], calls)
    ensures var t, s := SqlFinal(Tables([], []), calls), Final(EMPTY, calls);
            && t.events == s.events && Simulates(t, s)
            && (forall i, j :: 0 <= i < j < |t.findings| ==>
                  (t.findings[i].organizationId, t.findings[i].fingerprint) != (t.findings[j].organizationId, t.findings[j].fingerprint))
            && SqlReplies(Tables([], []), calls) == AllAsSql(Replies(EMPTY, calls))
  {
    BackendsAgree(Tables([], []), EMPTY, calls);
    RunKeeps(EMPTY, calls);
  }

  // ---- The keys of the tables ----

  /** The primary keys and the unique index. */
  ghost predicate Keyed(t: Tables) {
    && (forall i, j :: 0 <= i < j < |t.findings| ==>
          && t.findings[i].findingId != t.findings[j].findingId
          && !(t.findings[i].organizationId == t.findings[j].organizationId && t.findings[i].fingerprint == t.findings[j].fingerprint))
    && (forall i, j :: 0 <= i < j < |t.events| ==> t.events[i].eventId != t.events[j].eventId)
  }

  lemma AppendKeyed(t: Tables, r: FindingRecord)
    requires Keyed(t) && ById(t.findings, r.findingId) == |t.findings| && ByKey(t.findings, r.organizationId, r.fingerprint) == |t.findings|
    ensures Keyed(t.(findings := t.findings + [r]))
  {
  }

  lemma ReplaceKeyed(t: Tables, i: nat, r: FindingRecord, events: seq<FindingEvent>)
    requires Keyed(t) && i < |t.findings| && SameFinding(t.findings[i], r)
    requires events == t.events || (|events| > 0 && events[..|events| - 1] == t.events && !HasEvent(t.events, events[|events| - 1].eventId))
    ensures Keyed(Tables(t.findings[i := r], events))
  {
    if events != t.events {
      assert forall j :: 0 <= j < |t.events| ==> events[j] == t.events[j];
    }
  }

  lemma CallKeepsKeys(t: Tables, call: Call)
    requires Keyed(t)
    ensures Keyed(SqlApplied(t, call).0)
    ensures SqlApplied(t, call).1.Err? ==> SqlApplied(t, call).0 == t
  {
    var u := SqlApplied(t, call).0;
    match call
    case RecordCall(d, fid, eid) =>
      var i := ByKey(t.findings, d.organizationId, d.fingerprint);
      if u != t && i == |t.findings| {
        AppendKeyed(t, FirstRecord(d, fid));
      } else if u != t {
        ReplaceKeyed(t, i, u.findings[i], u.events);
      }
    case UpdateCall(c, eid) =>
      if u != t {
        ReplaceKeyed(t, ById(t.findings, c.findingId), u.findings[ById(t.findings, c.findingId)], u.events);
      }
  }

  /** Whatever ids the calls bring, used ones included: the tables keep their keys in every run, and a call
      that fails changes nothing. */
  lemma {:induction false} TablesStayKeyed(t: Tables, calls: seq<Call>)
    requires Keyed(t)
    ensures Keyed(SqlFinal(t, calls))
    decreases |calls|
  {
    if |calls| > 0 {
      CallKeepsKeys(t, calls[0]);
      TablesStayKeyed(SqlApplied(t, calls[0]).0, calls[1..]);
    }
  }

  // ---- Listings ----

  /** What `ORDER BY created_at` may return: the finding's events in time order, those of one instant in any order. */
  ghost predicate SqlListing(t: Tables, id: string, org: string, listed: seq<FindingEvent>) {
    && ById(t.findings, id) < |t.findings| && t.findings[ById(t.findings, id)].organizationId == org
    && InTimeOrder(History(t.events, id), listed)
  }

  ghost predicate InTimeOrder(events: seq<FindingEvent>, listed: seq<FindingEvent>) {
    multiset(listed) == multiset(events) && TimeOrdered(listed)
  }

  /** Different events have different times. */
  ghost predicate TimesTell(events: seq<FindingEvent>) {
    forall a, b :: a in events && b in events && a.createdAt == b.createdAt ==> a == b
  }

  lemma SameElements(a: seq<FindingEvent>, b: seq<FindingEvent>, x: FindingEvent)
    requires multiset(a) == multiset(b)
    ensures |a| == |b| && (x in a <==> x in b)
  {
    assert |multiset(a)| == |a| && |multiset(b)| == |b|;
    assert x in a <==> x in multiset(a);
    assert x in b <==> x in multiset(b);
  }

  lemma LastAgrees(a: seq<FindingEvent>, b: seq<FindingEvent>)
    requires TimeOrdered(a) && TimeOrdered(b) && multiset(a) == multiset(b) && TimesTell(a) && |a| > 0
    ensures |b| == |a| && a[|a| - 1] == b[|b| - 1]
  {
    var n := |a| - 1;
    SameElements(a, b, a[n]);
    SameElements(a, b, b[n]);
    assert a[n] in a && b[n] in b;
    var i :| 0 <= i < |b| && b[i] == a[n];
    var j :| 0 <= j < |a| && a[j] == b[n];
    assert b[i].createdAt <= b[n].createdAt && a[j].createdAt <= a[n].createdAt;
  }

  lemma FrontMultiset(a: seq<FindingEvent>)
    requires |a| > 0
    ensures multiset(a[..|a| - 1]) == multiset(a) - multiset{a[|a| - 1]}
  {
    assert a == a[..|a| - 1] + [a[|a| - 1]];
  }

  lemma FrontFacts(a: seq<FindingEvent>)
    requires TimeOrdered(a) && |a| > 0
    ensures TimeOrdered(a[..|a| - 1]) && (TimesTell(a) ==> TimesTell(a[..|a| - 1]))
  {
    var front := a[..|a| - 1];
    assert forall i :: 0 <= i < |front| ==> front[i] == a[i];
    assert forall x :: x in front ==> x in a;
  }

  lemma SameEnds(a: seq<FindingEvent>, b: seq<FindingEvent>)
    requires |a| == |b| > 0 && a[..|a| - 1] == b[..|b| - 1] && a[|a| - 1] == b[|b| - 1]
    ensures a == b
  {
    assert a == a[..|a| - 1] + [a[|a| - 1]] && b == b[..|b| - 1] + [b[|b| - 1]];
  }

  lemma {:induction false} OrderedUnique(a: seq<FindingEvent>, b: seq<FindingEvent>)
    requires TimeOrdered(a) && TimeOrdered(b) && multiset(a) == multiset(b) && TimesTell(a)
    ensures a == b
  {
    if |a| == 0 {
      assert |multiset(b)| == |b|;
    } else {
      LastAgrees(a, b);
      FrontMultiset(a);
      FrontMultiset(b);
      FrontFacts(a);
      FrontFacts(b);
      OrderedUnique(a[..|a| - 1], b[..|b| - 1]);
      SameEnds(a, b);
    }
  }

  lemma SwapKeepsOrder(events: seq<FindingEvent>, i: nat, j: nat)
    requires i < j < |events| && TimeOrdered(events) && events[i].createdAt == events[j].createdAt
    ensures var swapped := events[i := events[j]][j := events[i]];
            TimeOrdered(swapped) && multiset(swapped) == multiset(events)
  {
  }

  lemma OneOrderExactly(events: seq<FindingEvent>, listed: seq<FindingEvent>)
    requires InTimeOrder(events, listed)
    ensures (forall other :: InTimeOrder(events, other) ==> other == listed) <==> TimesTell(events)
  {
    SameTimesTell(events, listed);
    if TimesTell(events) {
      forall other | InTimeOrder(events, other) ensures other == listed {
        OrderedUnique(listed, other);
      }
    } else {
      var i, j := SharedTime(listed);
      SwapKeepsOrder(listed, i, j);
      var swapped := listed[i := listed[j]][j := listed[i]];
      assert InTimeOrder(events, swapped) && swapped[i] != listed[i];
    }
  }

  /** The two backends list the same events, in time order, for the same callers; every order the database
      may choose is the in-memory order if and only if no two different events of the finding share a time. */
  lemma ListingsAgreeExactly(t: Tables, s: Store, id: string, org: string)
    requires Simulates(t, s) && Consistent(s)
    ensures ListEvents(s, id, org).Ok? <==> exists listed :: SqlListing(t, id, org, listed)
    ensures ListEvents(s, id, org).Ok? ==>
              && SqlListing(t, id, org, ListEvents(s, id, org).value)
              && ((forall listed :: SqlListing(t, id, org, listed) ==> listed == ListEvents(s, id, org).value)
                  <==> TimesTell(History(s.events, id)))
  {
    RowOfId(t, s, id);
    if Lookup(s, id, org).Ok? {
      var happened := History(s.events, id);
      SortOrdered(happened);
      OneOrderExactly(happened, SortByTime(happened));
      assert SqlListing(t, id, org, SortByTime(happened));
      forall other ensures SqlListing(t, id, org, other) <==> InTimeOrder(happened, other) {
      }
    }
  }

  lemma SameTimesTell(a: seq<FindingEvent>, b: seq<FindingEvent>)
    requires multiset(a) == multiset(b)
    ensures TimesTell(a) <==> TimesTell(b)
  {
    forall x ensures x in a <==> x in b {
      SameElements(a, b, x);
    }
  }

  lemma SharedTime(events: seq<FindingEvent>) returns (i: nat, j: nat)
    requires !TimesTell(events)
    ensures i < j < |events| && events[i].createdAt == events[j].createdAt && events[i] != events[j]
  {
    var a, b :| a in events && b in events && a.createdAt == b.createdAt && a != b;
    i :| i < |events| && events[i] == a;
    j :| j < |events| && events[j] == b;
    if j < i {
      i, j := j, i;
    }
  }
}
