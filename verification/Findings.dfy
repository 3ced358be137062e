/** The finding lifecycle of finding_store.py: two indexes over one set of records, and an append-only
    event log. Times are instants; the UUIDs the source draws are parameters of each call. */
module Findings {
  import opened Wrappers

  datatype FindingStatus = Open | Confirmed | FalsePositive | AcceptedRisk | Resolved | Reopened

  /** `_ALLOWED_TRANSITIONS`. */
  function AllowedTargets(s: FindingStatus): set<FindingStatus> {
    match s
    case Open => {Confirmed, FalsePositive, AcceptedRisk, Resolved}
    case Confirmed => {FalsePositive, AcceptedRisk, Resolved}
    case FalsePositive => {Open, Confirmed}
    case AcceptedRisk => {Open, Resolved}
    case Resolved => {Reopened}
    case Reopened => {Confirmed, FalsePositive, AcceptedRisk, Resolved}
  }

  /** The lifecycle by where a status can be entered from: a finding is put back to OPEN only from a verdict that
      can be withdrawn, REOPENED only from RESOLVED, and RESOLVED from any status in which work is
      outstanding. */
  predicate EnteredFrom(to: FindingStatus, from: FindingStatus) {
    match to
    case Open => from == FalsePositive || from == AcceptedRisk
    case Confirmed => from == Open || from == FalsePositive || from == Reopened
    case FalsePositive => from == Open || from == Confirmed || from == Reopened
    case AcceptedRisk => from == Open || from == Confirmed || from == Reopened
    case Resolved => from == Open || from == Confirmed || from == AcceptedRisk || from == Reopened
    case Reopened => from == Resolved
  }

  /** The transition table allows exactly these entries, none of them to the same status. */
  lemma GraphExactly(from: FindingStatus, to: FindingStatus)
    ensures to in AllowedTargets(from) <==> EnteredFrom(to, from)
    ensures !EnteredFrom(from, from)
  {
  }

  datatype FindingRecord = FindingRecord(
    findingId: string, organizationId: string, scanId: string, fingerprint: string, checkId: string,
    scannerVersion: string, title: string, severity: string, confidence: string, asset: string, endpoint: string,
    httpMethod: string, status: FindingStatus, firstSeenAt: int, lastSeenAt: int, parameter: Option<string>,
    checkVersion: Option<string>, cweId: Option<string>, owaspCategory: Option<string>, evidence: Option<string>,
    remediation: Option<string>, references: seq<string>)

  datatype FindingEvent = FindingEvent(
    eventId: string, findingId: string, organizationId: string, previousStatus: FindingStatus, newStatus: FindingStatus,
    createdAt: int, reason: Option<string>, changedBy: Option<string>)

  datatype FindingError = NotFound | TransitionInvalid

  /** The arguments of `record_finding`. */
  datatype Detection = Detection(
    organizationId: string, scanId: string, fingerprint: string, checkId: string, scannerVersion: string, title: string,
    severity: string, confidence: string, asset: string, endpoint: string, httpMethod: string, now: int,
    parameter: Option<string>, checkVersion: Option<string>, cweId: Option<string>, owaspCategory: Option<string>,
    evidence: Option<string>, remediation: Option<string>, references: seq<string>)

  /** The arguments of `update_status`. */
  datatype Change = Change(
    findingId: string, organizationId: string, newStatus: FindingStatus, now: int, reason: Option<string>, changedBy: Option<string>)

  type Key = (string, string)

  datatype Store = Store(byKey: map<Key, FindingRecord>, byId: map<string, FindingRecord>, events: seq<FindingEvent>)

  const EMPTY := Store(map[], map[], [])

  function FirstRecord(d: Detection, findingId: string): FindingRecord {
    FindingRecord(findingId, d.organizationId, d.scanId, d.fingerprint, d.checkId, d.scannerVersion, d.title, d.severity,
                  d.confidence, d.asset, d.endpoint, d.httpMethod, Open, d.now, d.now, d.parameter, d.checkVersion, d.cweId,
                  d.owaspCategory, d.evidence, d.remediation, d.references)
  }

  /** Only a resolved finding changes status when it is seen again. */
  function RedetectedStatus(s: FindingStatus): FindingStatus {
    if s == Resolved then Reopened else s
  }

  function Redetected(r: FindingRecord, d: Detection): FindingRecord {
    r.(scanId := d.scanId, scannerVersion := d.scannerVersion, severity := d.severity, confidence := d.confidence,
       lastSeenAt := d.now, status := RedetectedStatus(r.status), checkVersion := d.checkVersion, evidence := d.evidence)
  }

  const REDETECTED := Some("Re-detected on a subsequent scan.")

  /** A record goes into both indexes. */
  function Written(s: Store, r: FindingRecord, events: seq<FindingEvent>): Store {
    Store(s.byKey[(r.organizationId, r.fingerprint) := r], s.byId[r.findingId := r], events)
  }

  /** `record_finding`: read, branch, write both indexes. */
  function Recorded(s: Store, d: Detection, findingId: string, eventId: string): (Store, FindingRecord) {
    var key := (d.organizationId, d.fingerprint);
    if key !in s.byKey then
      var record := FirstRecord(d, findingId);
      (Written(s, record, s.events), record)
    else
      var existing := s.byKey[key];
      var record := Redetected(existing, d);
      var events := if record.status == existing.status then s.events
                    else s.events + [FindingEvent(eventId, record.findingId, d.organizationId, existing.status, record.status, d.now, REDETECTED, None)];
      (Store(s.byKey[key := record], s.byId[record.findingId := record], events), record)
  }

  /** `update_status`: unknown and foreign ids look alike; a repeat of the current status is a no-op. */
  function Updated(s: Store, c: Change, eventId: string): (Store, Result<FindingRecord, FindingError>) {
    if c.findingId !in s.byId || s.byId[c.findingId].organizationId != c.organizationId then (s, Err(NotFound))
    else
      var record := s.byId[c.findingId];
      if c.newStatus == record.status then (s, Ok(record))
      else if c.newStatus !in AllowedTargets(record.status) then (s, Err(TransitionInvalid))
      else
        var updated := record.(status := c.newStatus);
        (Store(s.byKey[(c.organizationId, record.fingerprint) := updated], s.byId[c.findingId := updated],
               s.events + [FindingEvent(eventId, c.findingId, c.organizationId, record.status, c.newStatus, c.now, c.reason, c.changedBy)]),
         Ok(updated))
  }

  // ---- Scoped reads ----

  function Lookup(s: Store, findingId: string, organizationId: string): Result<FindingRecord, FindingError> {
    if findingId !in s.byId || s.byId[findingId].organizationId != organizationId then Err(NotFound) else Ok(s.byId[findingId])
  }

  function History(events: seq<FindingEvent>, findingId: string): seq<FindingEvent> {
    if |events| == 0 then []
    else
      var front, last := History(events[..|events| - 1], findingId), events[|events| - 1];
      if last.findingId == findingId then front + [last] else front
  }

  /** Insertion from the back, after every earlier or simultaneous event: a stable sort by time. */
  function InsertByTime(events: seq<FindingEvent>, e: FindingEvent): seq<FindingEvent> {
    if |events| == 0 || events[|events| - 1].createdAt <= e.createdAt then events + [e]
    else InsertByTime(events[..|events| - 1], e) + [events[|events| - 1]]
  }

  function SortByTime(events: seq<FindingEvent>): seq<FindingEvent> {
    if |events| == 0 then [] else InsertByTime(SortByTime(events[..|events| - 1]), events[|events| - 1])
  }

  /** `list_events_scoped`. */
  function ListEvents(s: Store, findingId: string, organizationId: string): Result<seq<FindingEvent>, FindingError> {
    match Lookup(s, findingId, organizationId)
    case Err(e) => Err(e)
    case Ok(_) => Ok(SortByTime(History(s.events, findingId)))
  }

  class InMemoryFindingRepository {
    var byKey: map<Key, FindingRecord>
    var byId: map<string, FindingRecord>
    var events: seq<FindingEvent>

    ghost function State(): Store
      reads this
    {
      Store(byKey, byId, events)
    }

    constructor ()
      ensures State() == EMPTY
    {
      byKey, byId, events := map[], map[], [];
    }

    method RecordFinding(d: Detection, findingId: string, eventId: string) returns (record: FindingRecord)
      modifies this
      ensures (State(), record) == Recorded(old(State()), d, findingId, eventId)
      ensures record.findingId in byId && byId[record.findingId] == record
    {
      var key := (d.organizationId, d.fingerprint);
      if key !in byKey {
        record := FirstRecord(d, findingId);
      } else {
        var existing := byKey[key];
        record := Redetected(existing, d);
        if record.status != existing.status {
          events := events + [FindingEvent(eventId, record.findingId, d.organizationId, existing.status, record.status, d.now, REDETECTED, None)];
        }
      }
      byKey := byKey[key := record];
      byId := byId[record.findingId := record];
    }

    method UpdateStatus(c: Change, eventId: string) returns (r: Result<FindingRecord, FindingError>)
      modifies this
      ensures (State(), r) == Updated(old(State()), c, eventId)
      ensures r.Err? ==> State() == old(State())
      ensures r == Err(NotFound) <==> !(c.findingId in old(byId) && old(byId)[c.findingId].organizationId == c.organizationId)
      ensures r != Err(NotFound) ==>
                var was := old(byId)[c.findingId];
                && (r == Err(TransitionInvalid) <==> c.newStatus != was.status && !EnteredFrom(c.newStatus, was.status))
                && (r.Ok? ==> r.value == was.(status := c.newStatus) && c.findingId in byId && byId[c.findingId] == r.value)
                && (c.newStatus == was.status ==> State() == old(State()))
                && (r.Ok? && c.newStatus != was.status ==>
                      |events| == |old(events)| + 1 && events[..|old(events)|] == old(events)
                      && var e := events[|old(events)|];
                      && e.eventId == eventId && e.findingId == c.findingId && e.organizationId == c.organizationId
                      && e.previousStatus == was.status && e.newStatus == c.newStatus && e.createdAt == c.now
                      && e.reason == c.reason && e.changedBy == c.changedBy)
    {
      if c.findingId in byId {
        GraphExactly(byId[c.findingId].status, c.newStatus);
      }
      if c.findingId !in byId || byId[c.findingId].organizationId != c.organizationId {
        return Err(NotFound);
      }
      var record := byId[c.findingId];
      if c.newStatus == record.status {
        return Ok(record);
      }
      if c.newStatus !in AllowedTargets(record.status) {
        return Err(TransitionInvalid);
      }
      var updated := record.(status := c.newStatus);
      byId := byId[c.findingId := updated];
      byKey := byKey[(c.organizationId, record.fingerprint) := updated];
      events := events + [FindingEvent(eventId, c.findingId, c.organizationId, record.status, c.newStatus, c.now, c.reason, c.changedBy)];
      return Ok(updated);
    }

    method GetFindingScoped(findingId: string, organizationId: string) returns (r: Result<FindingRecord, FindingError>)
      ensures r == Lookup(State(), findingId, organizationId)
      ensures r == if findingId in byId && byId[findingId].organizationId == organizationId then Ok(byId[findingId]) else Err(NotFound)
    {
      if findingId !in byId || byId[findingId].organizationId != organizationId {
        return Err(NotFound);
      }
      return Ok(byId[findingId]);
    }

    method ListEventsScoped(findingId: string, organizationId: string) returns (r: Result<seq<FindingEvent>, FindingError>)
      ensures r == ListEvents(State(), findingId, organizationId)
      ensures r.Ok? <==> findingId in byId && byId[findingId].organizationId == organizationId
      ensures r.Err? ==> r.error == NotFound
      ensures r.Ok? ==> forall e :: multiset(r.value)[e] == if e.findingId == findingId then multiset(events)[e] else 0
      ensures r.Ok? ==> forall i, j :: 0 <= i < j < |r.value| ==> r.value[i].createdAt <= r.value[j].createdAt
    {
      if findingId !in byId || byId[findingId].organizationId != organizationId {
        return Err(NotFound);
      }
      var selected: seq<FindingEvent> := [];
      for i := 0 to |events|
        invariant selected == History(events[..i], findingId)
      {
        assert events[..i + 1][..i] == events[..i];
        if events[i].findingId == findingId {
          selected := selected + [events[i]];
        }
      }
      assert events[..|events|] == events;
      SortOrdered(selected);
      HistoryMembers(events, findingId);
      return Ok(SortByTime(selected));
    }
  }

  // ---- Runs ----

  datatype Call =
    | RecordCall(detection: Detection, findingId: string, eventId: string)
    | UpdateCall(change: Change, eventId: string)

  datatype Reply = Recording(record: FindingRecord) | Updating(result: Result<FindingRecord, FindingError>)

  function Applied(s: Store, call: Call): (Store, Reply) {
    match call
    case RecordCall(d, fid, eid) => var (t, r) := Recorded(s, d, fid, eid); (t, Recording(r))
    case UpdateCall(c, eid) => var (t, r) := Updated(s, c, eid); (t, Updating(r))
  }

  /** A newly drawn finding id is not in use. */
  predicate Fresh(s: Store, call: Call) {
    call.RecordCall? && (call.detection.organizationId, call.detection.fingerprint) !in s.byKey ==> call.findingId !in s.byId
  }

  predicate IsRun(s: Store, calls: seq<Call>)
    decreases |calls|
  {
    |calls| == 0 || (Fresh(s, calls[0]) && IsRun(Applied(s, calls[0]).0, calls[1..]))
  }

  function Final(s: Store, calls: seq<Call>): Store
    decreases |calls|
  {
    if |calls| == 0 then s else Final(Applied(s, calls[0]).0, calls[1..])
  }

  function Replies(s: Store, calls: seq<Call>): (replies: seq<Reply>)
    ensures |replies| == |calls|
    decreases |calls|
  {
    if |calls| == 0 then [] else [Applied(s, calls[0]).1] + Replies(Applied(s, calls[0]).0, calls[1..])
  }

  // ---- Invariants ----

  /** The two indexes hold the same records, one per key and one per id. */
  ghost predicate Consistent(s: Store) {
    && (forall k :: k in s.byKey ==>
          && (s.byKey[k].organizationId, s.byKey[k].fingerprint) == k
          && s.byKey[k].findingId in s.byId && s.byId[s.byKey[k].findingId] == s.byKey[k])
    && (forall id :: id in s.byId ==>
          && s.byId[id].findingId == id
          && (s.byId[id].organizationId, s.byId[id].fingerprint) in s.byKey
          && s.byKey[(s.byId[id].organizationId, s.byId[id].fingerprint)] == s.byId[id])
  }

  /** The events lead from `from` to `to` without a break, along allowed edges only. */
  ghost predicate Path(from: FindingStatus, events: seq<FindingEvent>, to: FindingStatus) {
    if |events| == 0 then from == to
    else
      var last := events[|events| - 1];
      last.newStatus == to && to in AllowedTargets(last.previousStatus) && Path(from, events[..|events| - 1], last.previousStatus)
  }

  ghost predicate HistoryIsPath(s: Store) {
    forall id :: id in s.byId ==> Path(Open, History(s.events, id), s.byId[id].status)
  }

  /** Every event belongs to a stored finding of the same organization. */
  ghost predicate EventsOwned(s: Store) {
    forall i :: 0 <= i < |s.events| ==>
      s.events[i].findingId in s.byId && s.events[i].organizationId == s.byId[s.events[i].findingId].organizationId
  }

  ghost predicate Invariant(s: Store) {
    Consistent(s) && HistoryIsPath(s) && EventsOwned(s)
  }

  lemma HistoryAppend(events: seq<FindingEvent>, e: FindingEvent, id: string)
    ensures History(events + [e], id) == if e.findingId == id then History(events, id) + [e] else History(events, id)
  {
    assert (events + [e])[..|events|] == events;
  }

  /** A history is exactly the finding's events, each as often as it was logged. */
  lemma {:induction false} HistoryMembers(events: seq<FindingEvent>, id: string)
    ensures forall e :: multiset(History(events, id))[e] == if e.findingId == id then multiset(events)[e] else 0
  {
    if |events| > 0 {
      var front, last := events[..|events| - 1], events[|events| - 1];
      HistoryMembers(front, id);
      assert events == front + [last];
    }
  }

  lemma PathAppend(from: FindingStatus, events: seq<FindingEvent>, e: FindingEvent)
    requires Path(from, events, e.previousStatus) && e.newStatus in AllowedTargets(e.previousStatus)
    ensures Path(from, events + [e], e.newStatus)
  {
    assert (events + [e])[..|events|] == events;
  }

  lemma {:induction false} NoHistory(s: Store, id: string, n: nat)
    requires EventsOwned(s) && id !in s.byId && n <= |s.events|
    ensures History(s.events[..n], id) == []
  {
    if n > 0 {
      NoHistory(s, id, n - 1);
      assert s.events[..n][..n - 1] == s.events[..n - 1];
    }
  }

  /** What never changes about a stored finding: every field except those a re-detection or a status
      change writes. */
  predicate SameFinding(r: FindingRecord, t: FindingRecord) {
    t == r.(scanId := t.scanId, scannerVersion := t.scannerVersion, severity := t.severity, confidence := t.confidence,
            lastSeenAt := t.lastSeenAt, status := t.status, checkVersion := t.checkVersion, evidence := t.evidence)
  }

  ghost predicate IsNew(s: Store, r: FindingRecord) {
    r.findingId !in s.byId && (r.organizationId, r.fingerprint) !in s.byKey
  }

  ghost predicate Replaces(s: Store, r: FindingRecord) {
    r.findingId in s.byId && SameFinding(s.byId[r.findingId], r)
  }

  lemma WriteConsistent(s: Store, r: FindingRecord, events: seq<FindingEvent>)
    requires Consistent(s) && (IsNew(s, r) || Replaces(s, r))
    ensures Consistent(Written(s, r, events))
  {
    var t, key := Written(s, r, events), (r.organizationId, r.fingerprint);
    forall k | k in t.byKey && k != key
      ensures t.byKey[k].findingId in t.byId && t.byId[t.byKey[k].findingId] == t.byKey[k]
    {
      assert s.byKey[k] == t.byKey[k];
      assert s.byKey[k].findingId != r.findingId;
    }
    forall id | id in t.byId && id != r.findingId
      ensures (t.byId[id].organizationId, t.byId[id].fingerprint) != key
    {
      assert s.byId[id] == t.byId[id];
    }
  }

  lemma WriteKeeps(s: Store, r: FindingRecord)
    requires Invariant(s)
    requires (IsNew(s, r) && r.status == Open) || (Replaces(s, r) && r.status == s.byId[r.findingId].status)
    ensures Invariant(Written(s, r, s.events))
  {
    WriteConsistent(s, r, s.events);
    if r.findingId !in s.byId {
      NoHistory(s, r.findingId, |s.events|);
      assert s.events[..|s.events|] == s.events;
    }
  }

  lemma WriteEventKeeps(s: Store, r: FindingRecord, e: FindingEvent)
    requires Invariant(s) && Replaces(s, r)
    requires e.findingId == r.findingId && e.organizationId == r.organizationId
    requires e.previousStatus == s.byId[r.findingId].status && e.newStatus == r.status && r.status in AllowedTargets(e.previousStatus)
    ensures Invariant(Written(s, r, s.events + [e]))
  {
    var t := Written(s, r, s.events + [e]);
    WriteConsistent(s, r, t.events);
    forall id | id in t.byId ensures Path(Open, History(t.events, id), t.byId[id].status) {
      HistoryAppend(s.events, e, id);
      if id == r.findingId {
        PathAppend(Open, History(s.events, id), e);
      }
    }
  }

  lemma RecordKeeps(s: Store, d: Detection, fid: string, eid: string)
    requires Invariant(s) && Fresh(s, RecordCall(d, fid, eid))
    ensures Invariant(Recorded(s, d, fid, eid).0)
  {
    var key := (d.organizationId, d.fingerprint);
    if key !in s.byKey {
      WriteKeeps(s, FirstRecord(d, fid));
    } else {
      var existing := s.byKey[key];
      var record := Redetected(existing, d);
      assert Replaces(s, record);
      if record.status == existing.status {
        WriteKeeps(s, record);
      } else {
        WriteEventKeeps(s, record, FindingEvent(eid, record.findingId, d.organizationId, existing.status, record.status, d.now, REDETECTED, None));
      }
    }
  }

  lemma UpdateKeeps(s: Store, c: Change, eid: string)
    requires Invariant(s)
    ensures Invariant(Updated(s, c, eid).0)
  {
    if c.findingId in s.byId && s.byId[c.findingId].organizationId == c.organizationId {
      var record := s.byId[c.findingId];
      if c.newStatus in AllowedTargets(record.status) {
        WriteEventKeeps(s, record.(status := c.newStatus),
                        FindingEvent(eid, c.findingId, c.organizationId, record.status, c.newStatus, c.now, c.reason, c.changedBy));
      }
    }
  }

  lemma CallKeeps(s: Store, call: Call)
    requires Invariant(s) && Fresh(s, call)
    ensures Invariant(Applied(s, call).0)
  {
    match call
    case RecordCall(d, fid, eid) => RecordKeeps(s, d, fid, eid);
    case UpdateCall(c, eid) => UpdateKeeps(s, c, eid);
  }

  lemma {:induction false} RunKeeps(s: Store, calls: seq<Call>)
    requires Invariant(s) && IsRun(s, calls)
    ensures Invariant(Final(s, calls))
    decreases |calls|
  {
    if |calls| > 0 {
      CallKeeps(s, calls[0]);
      RunKeeps(Applied(s, calls[0]).0, calls[1..]);
    }
  }

  // ---- Alternation ----

  function EntriesInto(events: seq<FindingEvent>, status: FindingStatus): nat {
    if |events| == 0 then 0
    else EntriesInto(events[..|events| - 1], status) + (if events[|events| - 1].newStatus == status then 1 else 0)
  }

  /** Between two entries into RESOLVED there is an entry into REOPENED, and the other way round: the
      subsequence of such entries reads RESOLVED, REOPENED, RESOLVED, ... */
  function Turns(events: seq<FindingEvent>): seq<FindingStatus> {
    if |events| == 0 then []
    else
      var front, last := Turns(events[..|events| - 1]), events[|events| - 1];
      if last.newStatus == Resolved || last.newStatus == Reopened then front + [last.newStatus] else front
  }

  ghost predicate Alternates(turns: seq<FindingStatus>) {
    forall i :: 0 <= i < |turns| ==> turns[i] == if i % 2 == 0 then Resolved else Reopened
  }

  /** A consequence of the transition graph alone: REOPENED is entered from RESOLVED only, and RESOLVED
      is left to REOPENED only. */
  lemma {:induction false} PathAlternates(events: seq<FindingEvent>, to: FindingStatus)
    requires Path(Open, events, to)
    ensures Alternates(Turns(events))
    ensures |Turns(events)| % 2 == if to == Resolved then 1 else 0
    ensures EntriesInto(events, Resolved) == EntriesInto(events, Reopened) + (if to == Resolved then 1 else 0)
  {
    if |events| > 0 {
      PathAlternates(events[..|events| - 1], events[|events| - 1].previousStatus);
    }
  }

  // ---- Main results ----

  /** In every run, each finding's events form an unbroken path from OPEN to its current status along
      allowed edges; entries into RESOLVED and REOPENED strictly alternate, with one more RESOLVED
      exactly when the finding is now resolved. */
  lemma LifecycleIsAPath(calls: seq<Call>, id: string)
    requires IsRun(EMPTY, calls) && id in Final(EMPTY, calls).byId
    ensures var s := Final(EMPTY, calls);
            && Path(Open, History(s.events, id), s.byId[id].status)
            && Alternates(Turns(History(s.events, id)))
            && EntriesInto(History(s.events, id), Resolved)
               == EntriesInto(History(s.events, id), Reopened) + (if s.byId[id].status == Resolved then 1 else 0)
  {
    RunKeeps(EMPTY, calls);
    var s := Final(EMPTY, calls);
    PathAlternates(History(s.events, id), s.byId[id].status);
  }

  /** In every run the two indexes hold the same records, with one record per key. */
  lemma IndexesAgree(calls: seq<Call>)
    requires IsRun(EMPTY, calls)
    ensures var s := Final(EMPTY, calls);
            Consistent(s) && s.byKey.Values == s.byId.Values && |s.byKey| == |s.byId|
  {
    RunKeeps(EMPTY, calls);
    var s := Final(EMPTY, calls);
    forall r ensures r in s.byKey.Values <==> r in s.byId.Values {
      if r in s.byKey.Values {
        var k :| k in s.byKey && s.byKey[k] == r;
        assert r.findingId in s.byId;
      }
      if r in s.byId.Values {
        var id :| id in s.byId && s.byId[id] == r;
        assert (r.organizationId, r.fingerprint) in s.byKey;
      }
    }
    SameSize(s);
  }

  lemma SameSize(s: Store)
    requires Consistent(s)
    ensures |s.byKey| == |s.byId|
  {
    var ids := set k | k in s.byKey :: s.byKey[k].findingId;
    var keys := s.byKey.Keys;
    InjectiveImage(keys, ids, s);
    assert ids == s.byId.Keys by {
      forall id | id in s.byId ensures id in ids {
        assert (s.byId[id].organizationId, s.byId[id].fingerprint) in s.byKey;
      }
    }
    assert |s.byKey| == |s.byKey.Keys| && |s.byId| == |s.byId.Keys|;
  }

  lemma {:induction false} InjectiveImage(keys: set<Key>, ids: set<string>, s: Store)
    requires Consistent(s) && keys <= s.byKey.Keys && ids == set k | k in keys :: s.byKey[k].findingId
    ensures |ids| == |keys|
    decreases keys
  {
    if keys != {} {
      var k :| k in keys;
      var id := s.byKey[k].findingId;
      forall k' | k' in keys - {k} ensures s.byKey[k'].findingId != id {
        assert s.byId[s.byKey[k'].findingId] == s.byKey[k'];
      }
      assert ids - {id} == set k' | k' in keys - {k} :: s.byKey[k'].findingId;
      InjectiveImage(keys - {k}, ids - {id}, s);
    }
  }

  /** Once recorded, a finding stays, under the same id and key and with the same first-seen time; the
      log only grows, and a finding's own history is extended, never rewritten. */
  lemma {:induction false} FindingsPersist(s: Store, calls: seq<Call>, id: string)
    requires Invariant(s) && IsRun(s, calls) && id in s.byId
    ensures var t := Final(s, calls);
            id in t.byId && SameFinding(s.byId[id], t.byId[id]) && s.events <= t.events
            && History(s.events, id) <= History(t.events, id)
    decreases |calls|
  {
    if |calls| > 0 {
      CallKeeps(s, calls[0]);
      CallPersists(s, calls[0], id);
      FindingsPersist(Applied(s, calls[0]).0, calls[1..], id);
    }
  }

  lemma CallPersists(s: Store, call: Call, id: string)
    requires Consistent(s) && Fresh(s, call) && id in s.byId
    ensures var t := Applied(s, call).0;
            id in t.byId && SameFinding(s.byId[id], t.byId[id]) && s.events <= t.events
            && History(s.events, id) <= History(t.events, id)
  {
    match call
    case RecordCall(d, fid, eid) => RecordPersists(s, d, fid, eid, id);
    case UpdateCall(c, eid) => UpdatePersists(s, c, eid, id);
  }

  lemma HistoryGrows(events: seq<FindingEvent>, e: FindingEvent, id: string)
    ensures events <= events + [e] && History(events, id) <= History(events + [e], id)
  {
    HistoryAppend(events, e, id);
  }

  lemma RecordPersists(s: Store, d: Detection, fid: string, eid: string, id: string)
    requires Consistent(s) && Fresh(s, RecordCall(d, fid, eid)) && id in s.byId
    ensures var t := Recorded(s, d, fid, eid).0;
            id in t.byId && SameFinding(s.byId[id], t.byId[id]) && s.events <= t.events && History(s.events, id) <= History(t.events, id)
  {
    var key := (d.organizationId, d.fingerprint);
    if key in s.byKey {
      var existing := s.byKey[key];
      var record := Redetected(existing, d);
      HistoryGrows(s.events, FindingEvent(eid, record.findingId, d.organizationId, existing.status, record.status, d.now, REDETECTED, None), id);
    }
  }

  lemma UpdatePersists(s: Store, c: Change, eid: string, id: string)
    requires id in s.byId
    ensures var t := Updated(s, c, eid).0;
            id in t.byId && SameFinding(s.byId[id], t.byId[id]) && s.events <= t.events && History(s.events, id) <= History(t.events, id)
  {
    if c.findingId in s.byId {
      var record := s.byId[c.findingId];
      HistoryGrows(s.events, FindingEvent(eid, c.findingId, c.organizationId, record.status, c.newStatus, c.now, c.reason, c.changedBy), id);
    }
  }

  /** The record carries what the latest detection said. */
  predicate Reports(r: FindingRecord, d: Detection) {
    && r.organizationId == d.organizationId && r.fingerprint == d.fingerprint
    && r.scanId == d.scanId && r.scannerVersion == d.scannerVersion && r.severity == d.severity && r.confidence == d.confidence
    && r.lastSeenAt == d.now && r.checkVersion == d.checkVersion && r.evidence == d.evidence
  }

  /** The record also carries what only the first detection decides. */
  predicate Describes(r: FindingRecord, d: Detection) {
    && r.checkId == d.checkId && r.title == d.title && r.asset == d.asset && r.endpoint == d.endpoint
    && r.httpMethod == d.httpMethod && r.parameter == d.parameter && r.cweId == d.cweId
    && r.owaspCategory == d.owaspCategory && r.remediation == d.remediation && r.references == d.references
  }

  /** A first detection opens a finding under the drawn id and writes no event. */
  lemma FirstDetectionRule(s: Store, d: Detection, fid: string, eid: string)
    requires (d.organizationId, d.fingerprint) !in s.byKey
    ensures var (t, r) := Recorded(s, d, fid, eid);
            && Reports(r, d) && Describes(r, d) && r.findingId == fid && r.status == Open && r.firstSeenAt == d.now
            && t.events == s.events && t.byId == s.byId[fid := r]
  {
  }

  /** Re-detection changes a status if and only if the finding was resolved, and then to REOPENED. */
  lemma RedetectionRule(s: Store, d: Detection, fid: string, eid: string)
    requires Consistent(s) && (d.organizationId, d.fingerprint) in s.byKey
    ensures var (t, r) := Recorded(s, d, fid, eid);
            var was := s.byKey[(d.organizationId, d.fingerprint)];
            && Reports(r, d) && SameFinding(was, r) && t.byId == s.byId[was.findingId := r]
            && (r.status != was.status <==> was.status == Resolved) && (was.status == Resolved ==> r.status == Reopened)
            && (was.status != Resolved ==> t.events == s.events)
            && (was.status == Resolved ==>
                  t.events == s.events + [FindingEvent(eid, was.findingId, d.organizationId, Resolved, Reopened, d.now, REDETECTED, None)])
  {
  }

  /** Asking for the same status again succeeds, returns the same record and changes nothing. */
  lemma RepeatIsNoOp(s: Store, c: Change, eid: string, again: Change, eid2: string)
    requires Updated(s, c, eid).1.Ok?
    requires again.findingId == c.findingId && again.organizationId == c.organizationId && again.newStatus == c.newStatus
    ensures Updated(Updated(s, c, eid).0, again, eid2) == Updated(s, c, eid)
  {
  }

  // ---- What a record says, over every run ----

  predicate Concerns(d: Detection, key: Key) {
    (d.organizationId, d.fingerprint) == key
  }

  function DetectionsOf(calls: seq<Call>): seq<Detection> {
    if |calls| == 0 then []
    else if calls[0].RecordCall? then [calls[0].detection] + DetectionsOf(calls[1..])
    else DetectionsOf(calls[1..])
  }

  function FirstFor(past: seq<Detection>, key: Key): Option<Detection> {
    if |past| == 0 then None
    else if FirstFor(past[..|past| - 1], key).Some? then FirstFor(past[..|past| - 1], key)
    else if Concerns(past[|past| - 1], key) then Some(past[|past| - 1]) else None
  }

  function LastFor(past: seq<Detection>, key: Key): Option<Detection> {
    if |past| == 0 then None
    else if Concerns(past[|past| - 1], key) then Some(past[|past| - 1])
    else LastFor(past[..|past| - 1], key)
  }

  /** The stored record of a key: there is one exactly when the key was detected; it describes the first
      detection and reports the last one. */
  ghost predicate Reflects(s: Store, past: seq<Detection>, key: Key) {
    && (key in s.byKey <==> FirstFor(past, key).Some?) && (key in s.byKey <==> LastFor(past, key).Some?)
    && (key in s.byKey && FirstFor(past, key).Some? && LastFor(past, key).Some? ==>
          && Describes(s.byKey[key], FirstFor(past, key).value) && s.byKey[key].firstSeenAt == FirstFor(past, key).value.now
          && Reports(s.byKey[key], LastFor(past, key).value))
  }

  lemma DetectionAppend(past: seq<Detection>, d: Detection, key: Key)
    ensures LastFor(past + [d], key) == if Concerns(d, key) then Some(d) else LastFor(past, key)
    ensures FirstFor(past + [d], key)
         == if FirstFor(past, key).Some? then FirstFor(past, key) else if Concerns(d, key) then Some(d) else None
  {
    assert (past + [d])[..|past|] == past;
  }

  lemma RecordReflects(s: Store, d: Detection, fid: string, eid: string, past: seq<Detection>, key: Key)
    requires Consistent(s) && Reflects(s, past, key)
    ensures Reflects(Recorded(s, d, fid, eid).0, past + [d], key)
  {
    DetectionAppend(past, d, key);
    if Concerns(d, key) {
      if key in s.byKey {
        RedetectionRule(s, d, fid, eid);
      } else {
        FirstDetectionRule(s, d, fid, eid);
      }
    }
  }

  lemma UpdateReflects(s: Store, c: Change, eid: string, past: seq<Detection>, key: Key)
    requires Consistent(s) && Reflects(s, past, key)
    ensures Reflects(Updated(s, c, eid).0, past, key)
  {
  }

  function Seen(past: seq<Detection>, call: Call): seq<Detection> {
    if call.RecordCall? then past + [call.detection] else past
  }

  lemma CallReflects(s: Store, call: Call, past: seq<Detection>, key: Key)
    requires Consistent(s) && Reflects(s, past, key)
    ensures Reflects(Applied(s, call).0, Seen(past, call), key)
  {
    match call
    case RecordCall(d, fid, eid) => RecordReflects(s, d, fid, eid, past, key);
    case UpdateCall(c, eid) => UpdateReflects(s, c, eid, past, key);
  }

  lemma Associates(a: seq<Detection>, b: seq<Detection>, c: seq<Detection>)
    ensures a + (b + c) == a + b + c
  {
  }

  lemma SeenStep(past: seq<Detection>, calls: seq<Call>)
    requires |calls| > 0
    ensures past + DetectionsOf(calls) == Seen(past, calls[0]) + DetectionsOf(calls[1..])
  {
    if calls[0].RecordCall? {
      Associates(past, [calls[0].detection], DetectionsOf(calls[1..]));
    }
  }

  lemma {:induction false} RunReflects(s: Store, calls: seq<Call>, past: seq<Detection>, key: Key)
    requires Invariant(s) && IsRun(s, calls) && Reflects(s, past, key)
    ensures Reflects(Final(s, calls), past + DetectionsOf(calls), key)
    decreases |calls|
  {
    if |calls| == 0 {
      assert past + DetectionsOf(calls) == past;
    } else {
      CallKeeps(s, calls[0]);
      CallReflects(s, calls[0], past, key);
      SeenStep(past, calls);
      RunReflects(Applied(s, calls[0]).0, calls[1..], Seen(past, calls[0]), key);
    }
  }

  /** In every run a key has a record exactly when it was detected; whatever status changes came between,
      the record describes the first detection, with its first-seen time, and reports the last one. */
  lemma RecordsReflectDetections(calls: seq<Call>, key: Key)
    requires IsRun(EMPTY, calls)
    ensures Reflects(Final(EMPTY, calls), DetectionsOf(calls), key)
  {
    RunReflects(EMPTY, calls, [], key);
    assert [] + DetectionsOf(calls) == DetectionsOf(calls);
  }

  // ---- Listing ----

  ghost predicate TimeOrdered(events: seq<FindingEvent>) {
    forall i, j :: 0 <= i < j < |events| ==> events[i].createdAt <= events[j].createdAt
  }

  lemma {:induction false} InsertMembers(events: seq<FindingEvent>, e: FindingEvent)
    ensures multiset(InsertByTime(events, e)) == multiset(events) + multiset{e}
  {
    if |events| > 0 && events[|events| - 1].createdAt > e.createdAt {
      var n := |events| - 1;
      InsertMembers(events[..n], e);
      assert events == events[..n] + [events[n]];
    }
  }

  lemma {:induction false} InsertOrdered(events: seq<FindingEvent>, e: FindingEvent)
    requires TimeOrdered(events)
    ensures TimeOrdered(InsertByTime(events, e))
    ensures forall x :: x in InsertByTime(events, e) ==> x == e || x in events
  {
    if |events| > 0 && events[|events| - 1].createdAt > e.createdAt {
      var n := |events| - 1;
      InsertOrdered(events[..n], e);
      AppendOrdered(InsertByTime(events[..n], e), events[n]);
    }
  }

  lemma AppendOrdered(events: seq<FindingEvent>, last: FindingEvent)
    requires TimeOrdered(events) && forall x :: x in events ==> x.createdAt <= last.createdAt
    ensures TimeOrdered(events + [last])
  {
  }

  lemma LastMember(events: seq<FindingEvent>)
    requires |events| > 0
    ensures multiset(events) == multiset(events[..|events| - 1]) + multiset{events[|events| - 1]}
  {
    assert events == events[..|events| - 1] + [events[|events| - 1]];
  }

  lemma {:induction false} SortOrdered(events: seq<FindingEvent>)
    ensures TimeOrdered(SortByTime(events)) && multiset(SortByTime(events)) == multiset(events)
  {
    if |events| > 0 {
      var n := |events| - 1;
      SortOrdered(events[..n]);
      InsertOrdered(SortByTime(events[..n]), events[n]);
      InsertMembers(SortByTime(events[..n]), events[n]);
      LastMember(events);
    }
  }

  lemma {:induction false} SortIdentity(events: seq<FindingEvent>)
    requires TimeOrdered(events)
    ensures SortByTime(events) == events
  {
    if |events| > 0 {
      var n := |events| - 1;
      SortIdentity(events[..n]);
      assert events == events[..n] + [events[n]];
    }
  }

  /** The events of one instant, in their order. */
  function AtTime(events: seq<FindingEvent>, at: int): seq<FindingEvent> {
    if |events| == 0 then []
    else
      var front, last := AtTime(events[..|events| - 1], at), events[|events| - 1];
      if last.createdAt == at then front + [last] else front
  }

  lemma AtTimeAppend(events: seq<FindingEvent>, e: FindingEvent, at: int)
    ensures AtTime(events + [e], at) == if e.createdAt == at then AtTime(events, at) + [e] else AtTime(events, at)
  {
    assert (events + [e])[..|events|] == events;
  }

  lemma {:induction false} InsertStable(events: seq<FindingEvent>, e: FindingEvent, at: int)
    ensures AtTime(InsertByTime(events, e), at) == AtTime(events + [e], at)
  {
    if |events| > 0 && events[|events| - 1].createdAt > e.createdAt {
      var front, last := events[..|events| - 1], events[|events| - 1];
      InsertStable(front, e, at);
      AtTimeAppend(InsertByTime(front, e), last, at);
      AtTimeAppend(front, e, at);
      AtTimeAppend(events, e, at);
    }
  }

  /** The sort is stable: events of one instant keep their order. */
  lemma {:induction false} SortStable(events: seq<FindingEvent>, at: int)
    ensures AtTime(SortByTime(events), at) == AtTime(events, at)
  {
    if |events| > 0 {
      var front, last := events[..|events| - 1], events[|events| - 1];
      SortStable(front, at);
      InsertStable(SortByTime(front), last, at);
      AtTimeAppend(SortByTime(front), last, at);
    }
  }

  /** A listing holds exactly the finding's events, in time order, those of one instant in the order they
      happened; it shows all of them in that order if and only if their times do not go back. */
  lemma ListingIsHistory(s: Store, id: string, org: string)
    requires Lookup(s, id, org).Ok?
    ensures var listed, happened := ListEvents(s, id, org).value, History(s.events, id);
            && multiset(listed) == multiset(happened) && TimeOrdered(listed)
            && (forall at :: AtTime(listed, at) == AtTime(happened, at))
            && (listed == happened <==> TimeOrdered(happened))
  {
    var happened := History(s.events, id);
    SortOrdered(happened);
    forall at ensures AtTime(SortByTime(happened), at) == AtTime(happened, at) {
      SortStable(happened, at);
    }
    if TimeOrdered(happened) {
      SortIdentity(happened);
    }
  }

  /** A clock that goes back between two status changes shows: the later change is listed first. */
  lemma ListingCanReorder(d: Detection, fid: string)
    ensures var org := d.organizationId;
            var confirm, resolve := Change(fid, org, Confirmed, 10, None, None), Change(fid, org, Resolved, 5, None, None);
            var calls := [RecordCall(d, fid, "e0"), UpdateCall(confirm, "e1"), UpdateCall(resolve, "e2")];
            var first, second := FindingEvent("e1", fid, org, Open, Confirmed, 10, None, None),
                                 FindingEvent("e2", fid, org, Confirmed, Resolved, 5, None, None);
            && IsRun(EMPTY, calls)
            && History(Final(EMPTY, calls).events, fid) == [first, second]
            && ListEvents(Final(EMPTY, calls), fid, org) == Ok([second, first])
  {
    var org := d.organizationId;
    var confirm, resolve := Change(fid, org, Confirmed, 10, None, None), Change(fid, org, Resolved, 5, None, None);
    var calls := [RecordCall(d, fid, "e0"), UpdateCall(confirm, "e1"), UpdateCall(resolve, "e2")];
    var first, second := FindingEvent("e1", fid, org, Open, Confirmed, 10, None, None),
                         FindingEvent("e2", fid, org, Confirmed, Resolved, 5, None, None);
    var s1 := Recorded(EMPTY, d, fid, "e0").0;
    assert s1.byId[fid].status == Open && s1.byId[fid].organizationId == org && s1.events == [];
    var s2 := Updated(s1, confirm, "e1").0;
    assert s2.byId[fid].status == Confirmed && s2.byId[fid].organizationId == org && s2.events == [first];
    var s3 := Updated(s2, resolve, "e2").0;
    assert s3.byId[fid].organizationId == org && s3.events == [first, second];
    ThreeCalls(calls[0], calls[1], calls[2], s1, s2, s3);
    ListTwo(first, second, fid);
  }

  lemma ThreeCalls(a: Call, b: Call, c: Call, s1: Store, s2: Store, s3: Store)
    requires Fresh(EMPTY, a) && Applied(EMPTY, a).0 == s1 && Fresh(s1, b) && Applied(s1, b).0 == s2
    requires Fresh(s2, c) && Applied(s2, c).0 == s3
    ensures IsRun(EMPTY, [a, b, c]) && Final(EMPTY, [a, b, c]) == s3
  {
    assert [a, b, c][1..] == [b, c] && [b, c][1..] == [c] && [c][1..] == [];
    assert IsRun(s3, []) && Final(s3, []) == s3;
    assert IsRun(s2, [c]) && Final(s2, [c]) == s3;
    assert IsRun(s1, [b, c]) && Final(s1, [b, c]) == s3;
  }

  lemma ListTwo(first: FindingEvent, second: FindingEvent, id: string)
    requires first.findingId == second.findingId == id && second.createdAt < first.createdAt
    ensures History([first, second], id) == [first, second] && SortByTime([first, second]) == [second, first]
  {
    HistoryAppend([], first, id);
    HistoryAppend([first], second, id);
    assert [] + [first] == [first] && [first] + [second] == [first, second];
    assert [first, second][..1] == [first] && [first][..0] == [];
    assert SortByTime([first]) == [first];
    assert InsertByTime([], second) == [second];
    assert InsertByTime([first], second) == [second] + [first];
    assert SortByTime([first, second]) == InsertByTime([first], second);
  }
}
