/** The security audit feed of identity.py: an append-only table read page by page while new events
    keep arriving. Reading the feed is itself audited, so inserts between two pages are the normal case. */
module AuditFeed {
  import opened Wrappers
  import opened Keyset
  import TextOrder

  datatype AuditOutcome = Succeeded | Denied | Failed

  /** `occurredAt` is the stored text, in UTC with microseconds. */
  datatype AuditEvent = AuditEvent(
    eventId: string, requestId: string, organizationId: string, principalId: string, tokenId: string, action: string,
    resourceType: string, resourceId: string, outcome: AuditOutcome, occurredAt: string, detailCode: Option<string>)

  datatype AuditError = LimitInvalid | CursorInvalid | Conflict

  // ---- The query ----

  /** `organization_id = ? AND outcome = ?`, the second clause only when a filter is given. */
  datatype Feed = Feed(organizationId: string, outcome: Option<AuditOutcome>)

  predicate Matches(f: Feed, e: AuditEvent) {
    e.organizationId == f.organizationId && (f.outcome.Some? ==> e.outcome == f.outcome.value)
  }

  function Visible(f: Feed, events: seq<AuditEvent>): seq<AuditEvent> {
    if |events| == 0 then []
    else if Matches(f, events[|events| - 1]) then Visible(f, events[..|events| - 1]) + [events[|events| - 1]]
    else Visible(f, events[..|events| - 1])
  }

  /** `occurred_at < at OR (occurred_at = at AND event_id < id)`. */
  predicate Precedes(e: AuditEvent, at: string, id: string) {
    TextOrder.Less(e.occurredAt, at) || (e.occurredAt == at && TextOrder.Less(e.eventId, id))
  }

  predicate Before(a: AuditEvent, b: AuditEvent) {
    Precedes(a, b.occurredAt, b.eventId)
  }

  function After(events: seq<AuditEvent>, after: Option<(string, string)>): seq<AuditEvent> {
    if |events| == 0 then []
    else if after.None? || Precedes(events[0], after.value.0, after.value.1) then [events[0]] + After(events[1..], after)
    else After(events[1..], after)
  }

  function Query(f: Feed, events: seq<AuditEvent>, limit: nat, after: Option<(string, string)>): Page<AuditEvent> {
    FirstPage(SortDesc(After(Visible(f, events), after), Before), limit)
  }

  class IdentityStore {
    var auditEvents: seq<AuditEvent>

    /** The primary key. */
    ghost predicate Valid()
      reads this
    {
      DistinctIds(auditEvents)
    }

    constructor ()
      ensures Valid() && auditEvents == []
    {
      auditEvents := [];
    }

    /** INSERT under the primary key on the event id. */
    method RecordAuditEvent(e: AuditEvent) returns (r: Result<(), AuditError>)
      requires Valid()
      modifies this`auditEvents
      ensures Valid()
      ensures r.Ok? <==> forall i :: 0 <= i < |old(auditEvents)| ==> old(auditEvents)[i].eventId != e.eventId
      ensures auditEvents == if r.Ok? then old(auditEvents) + [e] else old(auditEvents)
      ensures auditEvents == Recorded(old(auditEvents), e)
      ensures r.Err? ==> r.error == Conflict
    {
      for i := 0 to |auditEvents|
        invariant auditEvents == old(auditEvents)
        invariant forall j :: 0 <= j < i ==> auditEvents[j].eventId != e.eventId
      {
        if auditEvents[i].eventId == e.eventId {
          return Err(Conflict);
        }
      }
      auditEvents := auditEvents + [e];
      return Ok(());
    }

    /** Newest first by time, then by id; only the organization's events of the asked outcome, after the
        cursor pair; and whatever it leaves out comes after its last row. */
    method ListAuditEventsPage(f: Feed, limit: int, after: Option<(string, string)>) returns (r: Result<Page<AuditEvent>, AuditError>)
      requires Valid()
      ensures r.Ok? <==> 1 <= limit <= 100 && (after.Some? ==> after.value.0 != "" && after.value.1 != "")
      ensures r.Ok? ==> |r.value.rows| <= limit && (r.value.hasMore ==> |r.value.rows| == limit)
      ensures r.Ok? && r.value.hasMore ==>
                exists x :: x in auditEvents && x !in r.value.rows && x.organizationId == f.organizationId && (f.outcome.Some? ==> x.outcome == f.outcome.value)
                            && (after.Some? ==> TextOrder.Less(x.occurredAt, after.value.0)
                                                || (x.occurredAt == after.value.0 && TextOrder.Less(x.eventId, after.value.1)))
      ensures r.Ok? ==> forall i, j :: 0 <= i < j < |r.value.rows| ==>
                          var x, y := r.value.rows[i], r.value.rows[j];
                          TextOrder.Less(y.occurredAt, x.occurredAt) || (y.occurredAt == x.occurredAt && TextOrder.Less(y.eventId, x.eventId))
      ensures r.Ok? ==> forall x :: x in r.value.rows ==>
                          && x in auditEvents && x.organizationId == f.organizationId && (f.outcome.Some? ==> x.outcome == f.outcome.value)
                          && (after.Some? ==> TextOrder.Less(x.occurredAt, after.value.0)
                                              || (x.occurredAt == after.value.0 && TextOrder.Less(x.eventId, after.value.1)))
      ensures r.Ok? ==> forall x :: x in auditEvents && x.organizationId == f.organizationId && (f.outcome.Some? ==> x.outcome == f.outcome.value)
                          && (after.Some? ==> TextOrder.Less(x.occurredAt, after.value.0)
                                              || (x.occurredAt == after.value.0 && TextOrder.Less(x.eventId, after.value.1)))
                          ==> x in r.value.rows
                              || (r.value.hasMore
                                  && var last := r.value.rows[limit - 1];
                                     TextOrder.Less(x.occurredAt, last.occurredAt) || (x.occurredAt == last.occurredAt && TextOrder.Less(x.eventId, last.eventId)))
      ensures !(1 <= limit <= 100) ==> r == Err(LimitInvalid)
      ensures 1 <= limit <= 100 && after.Some? && (after.value.0 == "" || after.value.1 == "") ==> r == Err(CursorInvalid)
      ensures 1 <= limit <= 100 && (after.Some? ==> after.value.0 != "" && after.value.1 != "")
              ==> r == Ok(Query(f, auditEvents, limit, after))
    {
      if !(1 <= limit <= 100) {
        return Err(LimitInvalid);
      }
      if after.Some? && (after.value.0 == "" || after.value.1 == "") {
        return Err(CursorInvalid);
      }
      ghost var cursor := CursorEvent(after);
      QueryFacts(f, Reader(auditEvents, [], cursor, false), limit);
      return Ok(Query(f, auditEvents, limit, after));
    }
  }

  /** An event at a cursor's position. */
  function CursorEvent(after: Option<(string, string)>): Option<AuditEvent> {
    match after
    case None => None
    case Some((at, id)) => Some(AuditEvent(id, "", "", "", "", "", "", "", Succeeded, at, None))
  }

  function Recorded(events: seq<AuditEvent>, e: AuditEvent): seq<AuditEvent> {
    if exists i :: 0 <= i < |events| && events[i].eventId == e.eventId then events else events + [e]
  }

  // ---- A reader's walk among arriving events ----

  /** What a client has: the rows returned so far, the cursor it holds, and whether the feed ended. */
  datatype Reader = Reader(events: seq<AuditEvent>, seen: seq<AuditEvent>, cursor: Option<AuditEvent>, done: bool)

  datatype Op = Arrive(event: AuditEvent) | Fetch(limit: nat)

  function CursorText(cursor: Option<AuditEvent>): Option<(string, string)> {
    match cursor
    case None => None
    case Some(e) => Some((e.occurredAt, e.eventId))
  }

  /** A fetch asks for the page after the last row of the page before; limits outside 1..100 are refused. */
  function Step(f: Feed, r: Reader, op: Op): Reader {
    match op
    case Arrive(e) => r.(events := Recorded(r.events, e))
    case Fetch(limit) =>
      if r.done || !(1 <= limit <= 100) then r
      else
        var page := Query(f, r.events, limit, CursorText(r.cursor));
        if page.hasMore && |page.rows| > 0
        then r.(seen := r.seen + page.rows, cursor := Some(page.rows[|page.rows| - 1]))
        else r.(seen := r.seen + page.rows, done := true)
  }

  function Run(f: Feed, r: Reader, ops: seq<Op>): Reader
    decreases |ops|
  {
    if |ops| == 0 then r else Run(f, Step(f, r, ops[0]), ops[1..])
  }

  ghost predicate DistinctIds(events: seq<AuditEvent>) {
    forall i, j :: 0 <= i < j < |events| ==> events[i].eventId != events[j].eventId
  }

  // ---- The query as a keyset page ----

  lemma {:induction false} VisibleMembers(f: Feed, events: seq<AuditEvent>)
    requires DistinctIds(events)
    ensures forall x :: x in Visible(f, events) <==> x in events && Matches(f, x)
    ensures DistinctIds(Visible(f, events))
  {
    if |events| > 0 {
      var front, last := events[..|events| - 1], events[|events| - 1];
      VisibleMembers(f, front);
      assert events == front + [last];
      assert forall x :: x in front ==> x.eventId != last.eventId;
      DistinctAppend(Visible(f, front), last);
    }
  }

  lemma DistinctAppend(events: seq<AuditEvent>, e: AuditEvent)
    requires DistinctIds(events) && forall x :: x in events ==> x.eventId != e.eventId
    ensures DistinctIds(events + [e])
  {
  }

  lemma BeforeIsTotal(events: seq<AuditEvent>)
    requires DistinctIds(events)
    ensures TotalOn(events, Before) && NoDup(events)
  {
    forall a ensures !Before(a, a) {
      TextOrder.Irreflexive(a.occurredAt);
      TextOrder.Irreflexive(a.eventId);
    }
    forall a, b, c | Before(a, b) && Before(b, c) ensures Before(a, c) {
      BeforeTransitive(a, b, c);
    }
    forall a, b | a in events && b in events && a != b ensures Before(a, b) || Before(b, a) {
      TextOrder.Trichotomy(a.occurredAt, b.occurredAt);
      TextOrder.Trichotomy(a.eventId, b.eventId);
    }
  }

  lemma BeforeTransitive(a: AuditEvent, b: AuditEvent, c: AuditEvent)
    requires Before(a, b) && Before(b, c)
    ensures Before(a, c)
  {
    if TextOrder.Less(a.occurredAt, b.occurredAt) && TextOrder.Less(b.occurredAt, c.occurredAt) {
      TextOrder.Transitive(a.occurredAt, b.occurredAt, c.occurredAt);
    } else if a.occurredAt == b.occurredAt == c.occurredAt {
      TextOrder.Irreflexive(a.occurredAt);
      TextOrder.Transitive(a.eventId, b.eventId, c.eventId);
    }
  }

  lemma {:induction false} AfterIsBelow(events: seq<AuditEvent>, cursor: Option<AuditEvent>)
    ensures After(events, CursorText(cursor)) == Below(events, Before, cursor)
  {
    if |events| > 0 {
      AfterIsBelow(events[1..], cursor);
    }
  }

  // ---- The invariant of a walk ----

  ghost predicate Invariant(f: Feed, start: seq<AuditEvent>, r: Reader) {
    && DistinctIds(r.events)
    && (forall x :: x in start ==> x in r.events)
    && Descending(r.seen, Before)
    && (forall x :: x in r.seen ==> x in r.events && Matches(f, x))
    && (r.done || AtLast(r.seen, r.cursor))
    && Covered(f, start, r)
  }

  /** The cursor is at or below every row returned so far. */
  ghost predicate AtLast(seen: seq<AuditEvent>, cursor: Option<AuditEvent>) {
    match cursor
    case None => seen == []
    case Some(c) => forall x :: x in seen ==> x == c || Before(c, x)
  }

  /** An event that was there at the start has been returned or is still ahead. */
  ghost predicate Covered(f: Feed, start: seq<AuditEvent>, r: Reader) {
    forall x :: x in start && Matches(f, x) ==> x in r.seen || (!r.done && Passes(x, Before, r.cursor))
  }

  lemma ArriveKeeps(f: Feed, start: seq<AuditEvent>, r: Reader, e: AuditEvent)
    requires Invariant(f, start, r)
    ensures Invariant(f, start, Step(f, r, Arrive(e)))
  {
  }

  lemma ConcatDescending(a: seq<AuditEvent>, b: seq<AuditEvent>)
    requires Descending(a, Before) && Descending(b, Before)
    requires forall x, y :: x in a && y in b ==> Before(y, x)
    ensures Descending(a + b, Before)
  {
    var s := a + b;
    forall i, j | 0 <= i < j < |s| ensures Before(s[j], s[i]) {
      if j < |a| {
        assert s[i] == a[i] && s[j] == a[j];
      } else if i >= |a| {
        assert s[i] == b[i - |a|] && s[j] == b[j - |a|];
      } else {
        assert s[i] == a[i] && s[j] == b[j - |a|] && a[i] in a && b[j - |a|] in b;
      }
    }
  }

  /** What one fetch returns, in terms of the stored events. */
  lemma QueryFacts(f: Feed, r: Reader, limit: nat)
    requires DistinctIds(r.events) && 1 <= limit
    ensures var p := Query(f, r.events, limit, CursorText(r.cursor));
            && p == FetchPage(Visible(f, r.events), Before, Before, limit, r.cursor)
            && Descending(p.rows, Before) && |p.rows| <= limit && (p.hasMore ==> |p.rows| == limit)
            && (p.hasMore ==> exists x :: x in r.events && Matches(f, x) && Passes(x, Before, r.cursor) && x !in p.rows)
            && (forall x :: x in p.rows ==> x in r.events && Matches(f, x) && Passes(x, Before, r.cursor))
            && (forall x :: x in r.events && Matches(f, x) && Passes(x, Before, r.cursor)
                  ==> x in p.rows || (p.hasMore && Before(x, p.rows[limit - 1])))
  {
    var rows := Visible(f, r.events);
    VisibleMembers(f, r.events);
    BeforeIsTotal(rows);
    AfterIsBelow(rows, r.cursor);
    PageFacts(rows, Before, limit, r.cursor);
  }

  /** A page that lies after the cursor continues the rows already seen. */
  lemma PageContinues(r: Reader, rows: seq<AuditEvent>)
    requires Descending(r.seen, Before) && Descending(rows, Before) && AtLast(r.seen, r.cursor)
    requires forall y :: y in rows ==> Passes(y, Before, r.cursor)
    ensures Descending(r.seen + rows, Before)
    ensures forall x, y :: x in r.seen && y in rows ==> Before(y, x)
  {
    forall x, y | x in r.seen && y in rows ensures Before(y, x) {
      if x != r.cursor.value {
        BeforeTransitive(y, r.cursor.value, x);
      }
    }
    ConcatDescending(r.seen, rows);
  }

  lemma LastIsLeast(seen: seq<AuditEvent>, rows: seq<AuditEvent>)
    requires Descending(seen + rows, Before) && |rows| > 0
    ensures AtLast(seen + rows, Some(rows[|rows| - 1]))
  {
    assert (seen + rows)[|seen + rows| - 1] == rows[|rows| - 1];
  }

  lemma FetchCovers(f: Feed, start: seq<AuditEvent>, r: Reader, limit: nat)
    requires Invariant(f, start, r) && !r.done && 1 <= limit <= 100
    ensures Covered(f, start, Step(f, r, Fetch(limit)))
  {
    QueryFacts(f, r, limit);
  }

  lemma FetchKeeps(f: Feed, start: seq<AuditEvent>, r: Reader, limit: nat)
    requires Invariant(f, start, r)
    ensures Invariant(f, start, Step(f, r, Fetch(limit)))
  {
    if !r.done && 1 <= limit <= 100 {
      QueryFacts(f, r, limit);
      var page := Query(f, r.events, limit, CursorText(r.cursor));
      PageContinues(r, page.rows);
      FetchCovers(f, start, r, limit);
      if page.hasMore {
        LastIsLeast(r.seen, page.rows);
      }
    }
  }

  lemma {:induction false} RunKeeps(f: Feed, start: seq<AuditEvent>, r: Reader, ops: seq<Op>)
    requires Invariant(f, start, r)
    ensures Invariant(f, start, Run(f, r, ops))
    decreases |ops|
  {
    if |ops| > 0 {
      match ops[0] {
        case Arrive(e) => ArriveKeeps(f, start, r, e);
        case Fetch(limit) => FetchKeeps(f, start, r, limit);
      }
      RunKeeps(f, start, Step(f, r, ops[0]), ops[1..]);
    }
  }

  // ---- Main results ----

  /** However events arrive between the pages: the rows returned are strictly descending by (time, id),
      so none is repeated; all of them are stored events of the feed; and once the feed has ended, every
      event that was there when the walk began has been returned. Before that, an event not yet
      returned lies beyond the cursor. */
  lemma WalkMissesNothing(f: Feed, start: seq<AuditEvent>, ops: seq<Op>)
    requires DistinctIds(start)
    ensures var r := Run(f, Reader(start, [], None, false), ops);
            && Descending(r.seen, Before) && NoDup(r.seen)
            && (forall x :: x in r.seen ==> x in r.events && Matches(f, x))
            && (forall x :: x in start && Matches(f, x) ==> x in r.seen || (!r.done && Passes(x, Before, r.cursor)))
  {
    var first := Reader(start, [], None, false);
    RunKeeps(f, start, first, ops);
    var r := Run(f, first, ops);
    forall i, j | 0 <= i < j < |r.seen| ensures r.seen[i] != r.seen[j] {
      TextOrder.Irreflexive(r.seen[i].occurredAt);
      TextOrder.Irreflexive(r.seen[i].eventId);
    }
  }

  /** The rows the reader has yet to receive if nothing more arrives. */
  function Left(f: Feed, r: Reader): nat {
    if r.done then 0 else |Below(Visible(f, r.events), Before, r.cursor)|
  }

  lemma FetchProgresses(f: Feed, start: seq<AuditEvent>, r: Reader, limit: nat)
    requires Invariant(f, start, r) && 1 <= limit <= 100 && !r.done
    ensures Step(f, r, Fetch(limit)).done || Left(f, Step(f, r, Fetch(limit))) < Left(f, r)
  {
    QueryFacts(f, r, limit);
    VisibleMembers(f, r.events);
    var rows, page := Visible(f, r.events), Query(f, r.events, limit, CursorText(r.cursor));
    if page.hasMore {
      assert page.rows[limit - 1] in page.rows;
      CursorMoves(rows, r.cursor, page.rows[limit - 1]);
    }
  }

  lemma CursorMoves(rows: seq<AuditEvent>, cursor: Option<AuditEvent>, last: AuditEvent)
    requires last in rows && Passes(last, Before, cursor)
    ensures |Below(rows, Before, Some(last))| < |Below(rows, Before, cursor)|
  {
    forall x | x in rows && Passes(x, Before, Some(last)) ensures Passes(x, Before, cursor) {
      if cursor.Some? {
        BeforeTransitive(x, last, cursor.value);
      }
    }
    TextOrder.Irreflexive(last.occurredAt);
    TextOrder.Irreflexive(last.eventId);
    assert !Passes(last, Before, Some(last));
    BelowShorter(rows, Before, cursor, Some(last));
  }

  /** The walk ends whenever inserts stop: from any reachable state, more fetches than rows left,
      of any valid sizes, reach the end of the feed. */
  lemma {:induction false} EndsWhenInsertsStop(f: Feed, start: seq<AuditEvent>, r: Reader, fetches: seq<Op>)
    requires Invariant(f, start, r)
    requires forall i :: 0 <= i < |fetches| ==> fetches[i].Fetch? && 1 <= fetches[i].limit <= 100
    requires |fetches| > Left(f, r)
    ensures Run(f, r, fetches).done
    decreases |fetches|
  {
    if !r.done {
      FetchProgresses(f, start, r, fetches[0].limit);
    }
    FetchKeeps(f, start, r, fetches[0].limit);
    if Step(f, r, fetches[0]).done {
      DoneStays(f, Step(f, r, fetches[0]), fetches[1..]);
    } else {
      EndsWhenInsertsStop(f, start, Step(f, r, fetches[0]), fetches[1..]);
    }
  }

  lemma {:induction false} DoneStays(f: Feed, r: Reader, ops: seq<Op>)
    requires r.done
    ensures Run(f, r, ops).done
    decreases |ops|
  {
    if |ops| > 0 {
      DoneStays(f, Step(f, r, ops[0]), ops[1..]);
    }
  }

  /** So any walk can be completed: whatever happened so far, enough fetches without further inserts
      return every event that was there at the start. */
  lemma WalkCompletes(f: Feed, start: seq<AuditEvent>, ops: seq<Op>, fetches: seq<Op>)
    requires DistinctIds(start)
    requires forall i :: 0 <= i < |fetches| ==> fetches[i].Fetch? && 1 <= fetches[i].limit <= 100
    requires |fetches| > Left(f, Run(f, Reader(start, [], None, false), ops))
    ensures var r := Run(f, Run(f, Reader(start, [], None, false), ops), fetches);
            r.done && forall x :: x in start && Matches(f, x) ==> x in r.seen
  {
    var r := Run(f, Reader(start, [], None, false), ops);
    RunKeeps(f, start, Reader(start, [], None, false), ops);
    EndsWhenInsertsStop(f, start, r, fetches);
    RunKeeps(f, start, r, fetches);
  }
}
