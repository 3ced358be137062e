/** Organizations do not see each other: deleting every call made for other organizations from a run
    leaves an organization's replies, lookups, pages and event lists as they were. */
module FindingTenancy {
  import opened Wrappers
  import opened Findings
  import Keyset
  import TextOrder

  function OrganizationOf(call: Call): string {
    match call
    case RecordCall(d, _, _) => d.organizationId
    case UpdateCall(c, _) => c.organizationId
  }

  function EventsOf(events: seq<FindingEvent>, org: string): seq<FindingEvent> {
    if |events| == 0 then []
    else
      var front, last := EventsOf(events[..|events| - 1], org), events[|events| - 1];
      if last.organizationId == org then front + [last] else front
  }

  /** The part of the store that belongs to one organization. */
  function ViewOf(s: Store, org: string): Store {
    Store(KeysOf(s.byKey, org), IdsOf(s.byId, org), EventsOf(s.events, org))
  }

  function KeysOf(byKey: map<Key, FindingRecord>, org: string): map<Key, FindingRecord> {
    map k | k in byKey && k.0 == org :: byKey[k]
  }

  function IdsOf(byId: map<string, FindingRecord>, org: string): map<string, FindingRecord> {
    map id | id in byId && byId[id].organizationId == org :: byId[id]
  }

  function CallsOf(calls: seq<Call>, org: string): seq<Call> {
    if |calls| == 0 then []
    else if OrganizationOf(calls[0]) == org then [calls[0]] + CallsOf(calls[1..], org)
    else CallsOf(calls[1..], org)
  }

  /** The replies to the organization's own calls. */
  function RepliesTo(s: Store, calls: seq<Call>, org: string): seq<Reply>
    decreases |calls|
  {
    if |calls| == 0 then []
    else
      var (t, reply) := Applied(s, calls[0]);
      (if OrganizationOf(calls[0]) == org then [reply] else []) + RepliesTo(t, calls[1..], org)
  }

  lemma EventsAppend(events: seq<FindingEvent>, e: FindingEvent, org: string)
    ensures EventsOf(events + [e], org) == if e.organizationId == org then EventsOf(events, org) + [e] else EventsOf(events, org)
  {
    assert (events + [e])[..|events|] == events;
  }

  // ---- One write seen from one organization ----

  lemma KeysUpdate(byKey: map<Key, FindingRecord>, k: Key, r: FindingRecord, org: string)
    ensures KeysOf(byKey[k := r], org) == if k.0 == org then KeysOf(byKey, org)[k := r] else KeysOf(byKey, org)
  {
  }

  lemma IdsUpdate(byId: map<string, FindingRecord>, id: string, r: FindingRecord, org: string)
    requires id in byId ==> byId[id].organizationId == r.organizationId
    ensures IdsOf(byId[id := r], org) == if r.organizationId == org then IdsOf(byId, org)[id := r] else IdsOf(byId, org)
  {
  }

  lemma WriteElsewhere(s: Store, r: FindingRecord, events: seq<FindingEvent>, org: string)
    requires IsNew(s, r) || Replaces(s, r)
    requires r.organizationId != org && EventsOf(events, org) == EventsOf(s.events, org)
    ensures ViewOf(Written(s, r, events), org) == ViewOf(s, org)
  {
    KeysUpdate(s.byKey, (r.organizationId, r.fingerprint), r, org);
    IdsUpdate(s.byId, r.findingId, r, org);
  }

  lemma WriteHere(s: Store, r: FindingRecord, events: seq<FindingEvent>, org: string)
    requires (IsNew(s, r) || Replaces(s, r)) && r.organizationId == org
    ensures ViewOf(Written(s, r, events), org) == Written(ViewOf(s, org), r, EventsOf(events, org))
  {
    KeysUpdate(s.byKey, (r.organizationId, r.fingerprint), r, org);
    IdsUpdate(s.byId, r.findingId, r, org);
  }

  lemma OtherCall(s: Store, call: Call, org: string)
    requires Invariant(s) && Fresh(s, call) && OrganizationOf(call) != org
    ensures ViewOf(Applied(s, call).0, org) == ViewOf(s, org)
  {
    match call
    case RecordCall(d, fid, eid) =>
      var key := (d.organizationId, d.fingerprint);
      if key !in s.byKey {
        WriteElsewhere(s, FirstRecord(d, fid), s.events, org);
      } else {
        var existing := s.byKey[key];
        var record := Redetected(existing, d);
        assert Replaces(s, record);
        var e := FindingEvent(eid, record.findingId, d.organizationId, existing.status, record.status, d.now, REDETECTED, None);
        EventsAppend(s.events, e, org);
        WriteElsewhere(s, record, if record.status == existing.status then s.events else s.events + [e], org);
      }
    case UpdateCall(c, eid) =>
      var (t, r) := Updated(s, c, eid);
      if t != s {
        var record := s.byId[c.findingId];
        var e := FindingEvent(eid, c.findingId, c.organizationId, record.status, c.newStatus, c.now, c.reason, c.changedBy);
        EventsAppend(s.events, e, org);
        WriteElsewhere(s, record.(status := c.newStatus), s.events + [e], org);
      }
  }

  lemma OwnRecord(s: Store, d: Detection, fid: string, eid: string)
    requires Invariant(s) && Fresh(s, RecordCall(d, fid, eid))
    ensures var v := ViewOf(s, d.organizationId);
            && Fresh(v, RecordCall(d, fid, eid))
            && Recorded(v, d, fid, eid) == (ViewOf(Recorded(s, d, fid, eid).0, d.organizationId), Recorded(s, d, fid, eid).1)
  {
    var org, key := d.organizationId, (d.organizationId, d.fingerprint);
    if key !in s.byKey {
      WriteHere(s, FirstRecord(d, fid), s.events, org);
    } else {
      var existing := s.byKey[key];
      var record := Redetected(existing, d);
      assert Replaces(s, record);
      var e := FindingEvent(eid, record.findingId, org, existing.status, record.status, d.now, REDETECTED, None);
      EventsAppend(s.events, e, org);
      WriteHere(s, record, if record.status == existing.status then s.events else s.events + [e], org);
    }
  }

  lemma OwnUpdate(s: Store, c: Change, eid: string)
    requires Invariant(s)
    ensures Updated(ViewOf(s, c.organizationId), c, eid) == (ViewOf(Updated(s, c, eid).0, c.organizationId), Updated(s, c, eid).1)
  {
    var org := c.organizationId;
    if c.findingId in s.byId && s.byId[c.findingId].organizationId == org {
      var record := s.byId[c.findingId];
      assert ViewOf(s, org).byId[c.findingId] == record;
      var e := FindingEvent(eid, c.findingId, org, record.status, c.newStatus, c.now, c.reason, c.changedBy);
      EventsAppend(s.events, e, org);
      WriteHere(s, record.(status := c.newStatus), s.events + [e], org);
    }
  }

  lemma OwnCall(s: Store, call: Call)
    requires Invariant(s) && Fresh(s, call)
    ensures var org := OrganizationOf(call);
            && Fresh(ViewOf(s, org), call)
            && Applied(ViewOf(s, org), call) == (ViewOf(Applied(s, call).0, org), Applied(s, call).1)
  {
    match call
    case RecordCall(d, fid, eid) => OwnRecord(s, d, fid, eid);
    case UpdateCall(c, eid) => OwnUpdate(s, c, eid);
  }

  // ---- Reads ----

  lemma {:induction false} HistoryOfView(s: Store, id: string, org: string, n: nat)
    requires EventsOwned(s) && id in s.byId && s.byId[id].organizationId == org && n <= |s.events|
    ensures History(EventsOf(s.events[..n], org), id) == History(s.events[..n], id)
  {
    if n > 0 {
      var front := s.events[..n - 1];
      assert s.events[..n] == front + [s.events[n - 1]];
      HistoryOfView(s, id, org, n - 1);
      EventsAppend(front, s.events[n - 1], org);
      HistoryAppend(front, s.events[n - 1], id);
      HistoryAppend(EventsOf(front, org), s.events[n - 1], id);
    }
  }

  /** The filters of `list_findings_scoped_page`; an absent filter selects everything. */
  datatype Filters = Filters(scanId: Option<string>, status: Option<FindingStatus>, severity: Option<string>, cweId: Option<string>, asset: Option<string>)

  predicate Selects(f: Filters, r: FindingRecord) {
    && (f.scanId.Some? ==> r.scanId == f.scanId.value) && (f.status.Some? ==> r.status == f.status.value)
    && (f.severity.Some? ==> r.severity == f.severity.value) && (f.cweId.Some? ==> r.cweId == f.cweId)
    && (f.asset.Some? ==> r.asset == f.asset.value)
  }

  predicate SeenBefore(a: FindingRecord, b: FindingRecord) {
    a.lastSeenAt < b.lastSeenAt || (a.lastSeenAt == b.lastSeenAt && TextOrder.Less(a.findingId, b.findingId))
  }

  ghost function Enumerate(rows: set<FindingRecord>): seq<FindingRecord> {
    if rows == {} then [] else var r :| r in rows; [r] + Enumerate(rows - {r})
  }

  /** The cursor comparison as the source makes it: the `isoformat()` text of the time, then the id. */
  predicate Follows(r: FindingRecord, after: Option<(string, string)>, iso: int -> string) {
    after.Some? ==> TextOrder.Less(iso(r.lastSeenAt), after.value.0)
                    || (iso(r.lastSeenAt) == after.value.0 && TextOrder.Less(r.findingId, after.value.1))
  }

  ghost function PageRows(s: Store, org: string, f: Filters, after: Option<(string, string)>, iso: int -> string): set<FindingRecord> {
    set r | r in s.byId.Values && r.organizationId == org && Selects(f, r) && Follows(r, after, iso)
  }

  /** One page: the organization's selected records, latest first, cut at the cursor text. The text of an
      instant is a parameter. */
  ghost function FindingsPage(s: Store, org: string, f: Filters, limit: nat, after: Option<(string, string)>, iso: int -> string)
    : Keyset.Page<FindingRecord>
  {
    Keyset.FirstPage(Keyset.SortDesc(Enumerate(PageRows(s, org, f, after, iso)), SeenBefore), limit)
  }

  lemma {:induction false} EnumerateFacts(rows: set<FindingRecord>)
    ensures forall x :: x in Enumerate(rows) <==> x in rows
    ensures Keyset.NoDup(Enumerate(rows))
  {
    if rows != {} {
      var all := Enumerate(rows);
      EnumerateFacts(rows - {all[0]});
    }
  }

  lemma SeenBeforeIsTotal(rows: seq<FindingRecord>)
    requires forall a, b :: a in rows && b in rows && a.findingId == b.findingId ==> a == b
    ensures Keyset.TotalOn(rows, SeenBefore)
  {
    forall a ensures !SeenBefore(a, a) {
      TextOrder.Irreflexive(a.findingId);
    }
    forall a, b, c | SeenBefore(a, b) && SeenBefore(b, c) ensures SeenBefore(a, c) {
      SeenBeforeTransitive(a, b, c);
    }
    forall a, b | a in rows && b in rows && a != b ensures SeenBefore(a, b) || SeenBefore(b, a) {
      TextOrder.Trichotomy(a.findingId, b.findingId);
    }
  }

  lemma SeenBeforeTransitive(a: FindingRecord, b: FindingRecord, c: FindingRecord)
    requires SeenBefore(a, b) && SeenBefore(b, c)
    ensures SeenBefore(a, c)
  {
    if a.lastSeenAt == b.lastSeenAt == c.lastSeenAt {
      TextOrder.Transitive(a.findingId, b.findingId, c.findingId);
    }
  }

  /** The record belongs on a page: the organization's, selected by every filter that is given, and after the
      cursor in the texts the source compares. */
  predicate OnPage(r: FindingRecord, org: string, f: Filters, after: Option<(string, string)>, iso: int -> string) {
    && r.organizationId == org
    && (f.scanId == None || f.scanId == Some(r.scanId)) && (f.status == None || f.status == Some(r.status))
    && (f.severity == None || f.severity == Some(r.severity)) && (f.cweId == None || f.cweId == r.cweId)
    && (f.asset == None || f.asset == Some(r.asset))
    && (after.None? || TextOrder.Less(iso(r.lastSeenAt), after.value.0)
        || (iso(r.lastSeenAt) == after.value.0 && TextOrder.Less(r.findingId, after.value.1)))
  }

  /** What one page of findings holds: stored records that belong on it, last seen first and by id among
      equals, at most the limit and exactly the limit when there is more; and every stored record that
      belongs on it and is left out comes after all of them. */
  lemma FindingsPageFacts(s: Store, org: string, f: Filters, limit: nat, after: Option<(string, string)>, iso: int -> string)
    requires Consistent(s)
    ensures var page := FindingsPage(s, org, f, limit, after, iso);
            && |page.rows| <= limit && (page.hasMore ==> |page.rows| == limit)
            && (forall i, j :: 0 <= i < j < |page.rows| ==>
                  var x, y := page.rows[i], page.rows[j];
                  x.lastSeenAt > y.lastSeenAt || (x.lastSeenAt == y.lastSeenAt && TextOrder.Less(y.findingId, x.findingId)))
            && (forall x :: x in page.rows ==> x in s.byId.Values && OnPage(x, org, f, after, iso))
            && (forall x :: x in s.byId.Values && OnPage(x, org, f, after, iso)
                  ==> x in page.rows || (page.hasMore && forall y :: y in page.rows ==>
                        y.lastSeenAt > x.lastSeenAt || (y.lastSeenAt == x.lastSeenAt && TextOrder.Less(x.findingId, y.findingId))))
  {
    var chosen := PageRows(s, org, f, after, iso);
    UniqueIds(s, chosen);
    SortedSet(chosen);
    HeadOfPage(Keyset.SortDesc(Enumerate(chosen), SeenBefore), limit);
    ChosenExactly(s, org, f, after, iso);
  }

  lemma UniqueIds(s: Store, rows: set<FindingRecord>)
    requires Consistent(s) && rows <= s.byId.Values
    ensures forall a, b :: a in rows && b in rows && a.findingId == b.findingId ==> a == b
  {
    forall a, b | a in rows && b in rows && a.findingId == b.findingId ensures a == b {
      assert a in s.byId.Values && b in s.byId.Values;
    }
  }

  lemma ChosenExactly(s: Store, org: string, f: Filters, after: Option<(string, string)>, iso: int -> string)
    ensures forall x :: x in PageRows(s, org, f, after, iso) <==> x in s.byId.Values && OnPage(x, org, f, after, iso)
  {
    forall x: FindingRecord ensures Selects(f, x) && Follows(x, after, iso) && x.organizationId == org <==> OnPage(x, org, f, after, iso) {
    }
  }

  lemma SortedSet(rows: set<FindingRecord>)
    requires forall a, b :: a in rows && b in rows && a.findingId == b.findingId ==> a == b
    ensures var all := Keyset.SortDesc(Enumerate(rows), SeenBefore);
            Keyset.Descending(all, SeenBefore) && forall x :: x in all <==> x in rows
  {
    EnumerateFacts(rows);
    SeenBeforeIsTotal(Enumerate(rows));
    Keyset.SortFacts(Enumerate(rows), SeenBefore);
  }

  lemma HeadOfPage(all: seq<FindingRecord>, limit: nat)
    requires Keyset.Descending(all, SeenBefore)
    ensures var page := Keyset.FirstPage(all, limit);
            && Keyset.Descending(page.rows, SeenBefore) && (forall x :: x in page.rows ==> x in all)
            && (forall x :: x in all ==> x in page.rows || (page.hasMore && forall y :: y in page.rows ==> SeenBefore(x, y)))
  {
    if |all| > limit {
      var head := all[..limit];
      assert forall k :: 0 <= k < limit ==> head[k] == all[k] && all[k] in head;
      forall x | x in all && x !in head ensures forall y :: y in head ==> SeenBefore(x, y) {
        var i :| 0 <= i < |all| && all[i] == x;
        assert i >= limit;
      }
    }
  }

  lemma ValuesOfView(s: Store, org: string, r: FindingRecord)
    requires r.organizationId == org
    ensures r in s.byId.Values <==> r in ViewOf(s, org).byId.Values
  {
    var v := ViewOf(s, org);
    if r in s.byId.Values {
      var id :| id in s.byId && s.byId[id] == r;
      assert id in v.byId && v.byId[id] == r;
    }
    if r in v.byId.Values {
      var id :| id in v.byId && v.byId[id] == r;
      assert id in s.byId && s.byId[id] == r;
    }
  }

  /** Every read an organization can make depends only on its own part of the store. */
  lemma ReadsAreScoped(s: Store, org: string, id: string, f: Filters, limit: nat, after: Option<(string, string)>, iso: int -> string)
    requires Invariant(s)
    ensures Lookup(s, id, org) == Lookup(ViewOf(s, org), id, org)
    ensures ListEvents(s, id, org) == ListEvents(ViewOf(s, org), id, org)
    ensures FindingsPage(s, org, f, limit, after, iso) == FindingsPage(ViewOf(s, org), org, f, limit, after, iso)
  {
    if Lookup(s, id, org).Ok? {
      HistoryOfView(s, id, org, |s.events|);
      assert s.events[..|s.events|] == s.events;
    }
    PageRowsAreScoped(s, org, f, after, iso);
  }

  lemma PageRowsAreScoped(s: Store, org: string, f: Filters, after: Option<(string, string)>, iso: int -> string)
    ensures PageRows(s, org, f, after, iso) == PageRows(ViewOf(s, org), org, f, after, iso)
  {
    forall r: FindingRecord | r.organizationId == org ensures r in s.byId.Values <==> r in ViewOf(s, org).byId.Values {
      ValuesOfView(s, org, r);
    }
  }

  // ---- Main result ----

  /** Step by step: projecting a run on an organization is running its own calls on its own part. */
  lemma {:induction false} ProjectionCommutes(s: Store, calls: seq<Call>, org: string)
    requires Invariant(s) && IsRun(s, calls)
    ensures IsRun(ViewOf(s, org), CallsOf(calls, org))
    ensures ViewOf(Final(s, calls), org) == Final(ViewOf(s, org), CallsOf(calls, org))
    ensures RepliesTo(s, calls, org) == Replies(ViewOf(s, org), CallsOf(calls, org))
    decreases |calls|
  {
    if |calls| > 0 {
      var call, rest := calls[0], calls[1..];
      var t := Applied(s, call).0;
      CallKeeps(s, call);
      ProjectionCommutes(t, rest, org);
      if OrganizationOf(call) == org {
        OwnCall(s, call);
        var own := CallsOf(calls, org);
        assert own[0] == call && own[1..] == CallsOf(rest, org);
      } else {
        OtherCall(s, call, org);
      }
    }
  }

  /** Deleting every call of other organizations from a run changes nothing an organization can see:
      not the replies to its calls, and afterwards no lookup, event list or page. */
  lemma TenantsAreIsolated(calls: seq<Call>, org: string, id: string, f: Filters, limit: nat, after: Option<(string, string)>, iso: int -> string)
    requires IsRun(EMPTY, calls)
    ensures IsRun(EMPTY, CallsOf(calls, org))
    ensures RepliesTo(EMPTY, calls, org) == Replies(EMPTY, CallsOf(calls, org))
    ensures var s, alone := Final(EMPTY, calls), Final(EMPTY, CallsOf(calls, org));
            && Lookup(s, id, org) == Lookup(alone, id, org)
            && ListEvents(s, id, org) == ListEvents(alone, id, org)
            && FindingsPage(s, org, f, limit, after, iso) == FindingsPage(alone, org, f, limit, after, iso)
  {
    assert ViewOf(EMPTY, org) == EMPTY;
    ProjectionCommutes(EMPTY, calls, org);
    RunKeeps(EMPTY, calls);
    ReadsAreScoped(Final(EMPTY, calls), org, id, f, limit, after, iso);
  }
}
