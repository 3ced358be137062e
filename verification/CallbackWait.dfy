/** The wait loop of postgres_callback_broker.py: a monotonic clock decides when to stop polling, and the
    wall-clock time of the event alone decides what an observation counts as. */
module CallbackWait {
  import opened Wrappers

  datatype Observation = Observation(tokenValue: string, observedAt: real, requestMethod: string, sourceClass: string)

  datatype Policy = Policy(maximumWait: real, grace: real, pollInterval: real)

  ghost predicate ValidPolicy(p: Policy) {
    p.maximumWait > 0.0 && p.grace >= 0.0 && p.pollInterval > 0.0
  }

  /** One turn of the loop as the environment presents it: whether the scan was cancelled or the database
      failed, which rows of the table the query could see, and the monotonic reading after the query. */
  datatype Turn = Turn(cancelled: bool, storageFailed: bool, visible: seq<Observation>, checkedAt: real)

  /** What the environment does, turn after turn, from the start of the wait. */
  datatype Schedule = Schedule(turns: nat -> Turn, startMonotonic: real, startUtc: real)

  /** Sleeping for the poll interval advances the monotonic clock by at least that much. */
  ghost predicate ClockAdvances(s: Schedule, p: Policy) {
    && s.turns(0).checkedAt >= s.startMonotonic
    && forall i: nat, j: nat :: j == i + 1 ==> s.turns(j).checkedAt >= s.turns(i).checkedAt + p.pollInterval
  }

  datatype Verdict =
    | Cancelled
    | StorageError
    | NoObservation
    | Observed(observation: Observation, withinPrimaryWindow: bool)

  /** `ORDER BY observed_at ASC LIMIT 1` over the token's rows: despite its name, `_latest_observation`
      returns the earliest one. */
  function Earliest(rows: seq<Observation>, token: string): (r: Option<Observation>)
    ensures r.None? <==> forall o :: o in rows ==> o.tokenValue != token
    ensures r.Some? ==> r.value in rows && r.value.tokenValue == token
                        && forall o :: o in rows && o.tokenValue == token ==> r.value.observedAt <= o.observedAt
  {
    if |rows| == 0 then None
    else
      var front, last := Earliest(rows[..|rows| - 1], token), rows[|rows| - 1];
      assert rows == rows[..|rows| - 1] + [last];
      if last.tokenValue == token && (front.None? || last.observedAt < front.value.observedAt) then Some(last) else front
  }

  /** The loop ends at this turn. */
  predicate Decisive(s: Schedule, p: Policy, token: string, i: nat) {
    var t := s.turns(i);
    t.cancelled || t.storageFailed || Earliest(t.visible, token).Some?
    || t.checkedAt >= s.startMonotonic + p.maximumWait + p.grace
  }

  /** An observation by its own event time, against deadlines anchored at the start of the wait. */
  function Classified(o: Observation, startUtc: real, p: Policy): Verdict {
    if o.observedAt > startUtc + p.maximumWait + p.grace then NoObservation
    else Observed(o, o.observedAt <= startUtc + p.maximumWait)
  }

  function VerdictAt(s: Schedule, p: Policy, token: string, i: nat): Verdict {
    var t := s.turns(i);
    if t.cancelled then Cancelled
    else if t.storageFailed then StorageError
    else match Earliest(t.visible, token)
      case Some(o) => Classified(o, s.startUtc, p)
      case None => NoObservation
  }

  function Ceiling(x: real): (n: int)
    ensures (n - 1) as real < x <= n as real
  {
    if x.Floor as real == x then x.Floor else x.Floor + 1
  }

  /** `ceil((wait + grace) / poll_interval) + 1`. */
  function MostPolls(p: Policy): int
    requires p.pollInterval > 0.0
  {
    Ceiling((p.maximumWait + p.grace) / p.pollInterval) + 1
  }

  lemma {:induction false} ClockLowerBound(s: Schedule, p: Policy, i: nat)
    requires ClockAdvances(s, p)
    ensures s.turns(i).checkedAt >= s.startMonotonic + i as real * p.pollInterval
  {
    if i > 0 {
      ClockLowerBound(s, p, i - 1);
      assert i as real * p.pollInterval == (i - 1) as real * p.pollInterval + p.pollInterval;
    }
  }

  /** A turn after which the loop goes on is one of the first `ceil(...)`. */
  lemma IndecisiveIsEarly(s: Schedule, p: Policy, token: string, i: nat)
    requires ValidPolicy(p) && ClockAdvances(s, p) && !Decisive(s, p, token, i)
    ensures i < MostPolls(p) - 1
  {
    ClockLowerBound(s, p, i);
    var budget := p.maximumWait + p.grace;
    var q := budget / p.pollInterval;
    assert q * p.pollInterval == budget;
    assert i as real * p.pollInterval < q * p.pollInterval;
    if i as real >= q {
      Scale(q, i as real, p.pollInterval);
    }
  }

  lemma PollInTime(s: Schedule, p: Policy, token: string, i: nat)
    requires ClockAdvances(s, p) && !Decisive(s, p, token, i)
    ensures i as real * p.pollInterval < p.maximumWait + p.grace
  {
    ClockLowerBound(s, p, i);
  }

  lemma Scale(a: real, b: real, c: real)
    requires a <= b && c > 0.0
    ensures a * c <= b * c
  {
    assert (b - a) * c >= 0.0;
  }

  /** The polling loop: it stops at the first decisive turn, with the verdict of that turn. */
  method Poll(s: Schedule, p: Policy, token: string) returns (v: Verdict, polls: nat)
    requires ValidPolicy(p) && ClockAdvances(s, p)
    ensures 1 <= polls <= MostPolls(p)
    ensures StopsAt(s, p, token, polls - 1) && v == VerdictAt(s, p, token, polls - 1)
  {
    var deadlinePrimary := s.startMonotonic + p.maximumWait;
    var deadlineGrace := deadlinePrimary + p.grace;
    var primaryEvidenceDeadline := s.startUtc + p.maximumWait;
    var graceEvidenceDeadline := primaryEvidenceDeadline + p.grace;
    polls := 0;
    while true
      invariant forall j: nat :: j < polls ==> !Decisive(s, p, token, j)
      invariant 0 <= polls <= MostPolls(p) - 1
      decreases MostPolls(p) - polls
    {
      var turn := s.turns(polls);
      polls := polls + 1;
      if turn.cancelled {
        return Cancelled, polls;
      }
      if turn.storageFailed {
        return StorageError, polls;
      }
      var observation := Earliest(turn.visible, token);
      if observation.Some? {
        if observation.value.observedAt > graceEvidenceDeadline {
          return NoObservation, polls;
        }
        return Observed(observation.value, observation.value.observedAt <= primaryEvidenceDeadline), polls;
      }
      if turn.checkedAt >= deadlineGrace {
        return NoObservation, polls;
      }
      IndecisiveIsEarly(s, p, token, polls - 1);
    }
  }

  /** `wait_for_observation` after the ownership check, for every schedule of polls. It goes on through every
      uneventful turn before the grace deadline, within the bound on the polls; it ends at a turn that is
      cancelled, fails, shows a row of the token or is past the grace deadline; and what it reports is
      decided by that turn: the earliest visible event, if it happened within the grace period, flagged
      by its own time. */
  method WaitForObservation(s: Schedule, p: Policy, token: string) returns (v: Verdict, polls: nat)
    requires ValidPolicy(p) && ClockAdvances(s, p)
    ensures 1 <= polls <= Ceiling((p.maximumWait + p.grace) / p.pollInterval) + 1
    ensures polls == 1 || (polls - 2) as real * p.pollInterval < p.maximumWait + p.grace
    ensures forall j: nat :: j < polls - 1 ==>
              && !s.turns(j).cancelled && !s.turns(j).storageFailed && (forall o :: o in s.turns(j).visible ==> o.tokenValue != token)
              && s.turns(j).checkedAt < s.startMonotonic + p.maximumWait + p.grace
    ensures var last := s.turns(polls - 1);
            && (v.Cancelled? <==> last.cancelled)
            && (v.StorageError? <==> !last.cancelled && last.storageFailed)
            && (v.Observed? <==> !last.cancelled && !last.storageFailed
                                 && exists o :: o in last.visible && o.tokenValue == token
                                                && o.observedAt <= s.startUtc + p.maximumWait + p.grace)
            && (v.NoObservation? && (forall o :: o in last.visible ==> o.tokenValue != token)
                ==> last.checkedAt >= s.startMonotonic + p.maximumWait + p.grace)
    ensures v.Observed? ==>
              && v.observation in s.turns(polls - 1).visible && v.observation.tokenValue == token
              && v.observation.observedAt <= s.startUtc + p.maximumWait + p.grace
              && (v.withinPrimaryWindow <==> v.observation.observedAt <= s.startUtc + p.maximumWait)
              && forall o, j: nat :: j <= polls - 1 && o in s.turns(j).visible && o.tokenValue == token
                   ==> j == polls - 1 && v.observation.observedAt <= o.observedAt
    ensures StopsAt(s, p, token, polls - 1) && v == VerdictAt(s, p, token, polls - 1)
  {
    v, polls := Poll(s, p, token);
    StoppedFacts(s, p, token, polls - 1, v);
    if polls > 1 {
      PollInTime(s, p, token, polls - 2);
    }
  }

  lemma StoppedFacts(s: Schedule, p: Policy, token: string, n: nat, v: Verdict)
    requires StopsAt(s, p, token, n) && v == VerdictAt(s, p, token, n)
    ensures forall j: nat :: j < n ==>
              && !s.turns(j).cancelled && !s.turns(j).storageFailed && (forall o :: o in s.turns(j).visible ==> o.tokenValue != token)
              && s.turns(j).checkedAt < s.startMonotonic + p.maximumWait + p.grace
    ensures var last := s.turns(n);
            && (v.Cancelled? <==> last.cancelled)
            && (v.StorageError? <==> !last.cancelled && last.storageFailed)
            && (v.Observed? <==> !last.cancelled && !last.storageFailed
                                 && exists o :: o in last.visible && o.tokenValue == token
                                                && o.observedAt <= s.startUtc + p.maximumWait + p.grace)
            && (v.NoObservation? && (forall o :: o in last.visible ==> o.tokenValue != token)
                ==> last.checkedAt >= s.startMonotonic + p.maximumWait + p.grace)
    ensures v.Observed? ==>
              && v.observation in s.turns(n).visible && v.observation.tokenValue == token
              && v.observation.observedAt <= s.startUtc + p.maximumWait + p.grace
              && (v.withinPrimaryWindow <==> v.observation.observedAt <= s.startUtc + p.maximumWait)
              && forall o, j: nat :: j <= n && o in s.turns(j).visible && o.tokenValue == token
                   ==> j == n && v.observation.observedAt <= o.observedAt
  {
    forall j: nat | j < n
      ensures !s.turns(j).cancelled && !s.turns(j).storageFailed && (forall o :: o in s.turns(j).visible ==> o.tokenValue != token)
              && s.turns(j).checkedAt < s.startMonotonic + p.maximumWait + p.grace
    {
      assert !Decisive(s, p, token, j);
    }
  }

  // ---- What the verdict means ----

  /** The run of a schedule ends at its first decisive turn. */
  ghost predicate StopsAt(s: Schedule, p: Policy, token: string, n: nat) {
    Decisive(s, p, token, n) && forall j: nat :: j < n ==> !Decisive(s, p, token, j)
  }

  /** The loop keeps polling through the grace period: the first turn to show a row of the token, if nothing
      ends the wait before it and every earlier reading is before the grace deadline, is the one the
      loop stops at. */
  lemma KeepsPolling(s: Schedule, p: Policy, token: string, n: nat, stop: nat)
    requires StopsAt(s, p, token, stop)
    requires forall j: nat :: j < n ==> !s.turns(j).cancelled && !s.turns(j).storageFailed
                                        && (forall o :: o in s.turns(j).visible ==> o.tokenValue != token)
                                        && s.turns(j).checkedAt < s.startMonotonic + p.maximumWait + p.grace
    requires exists o :: o in s.turns(n).visible && o.tokenValue == token
    ensures stop == n
  {
    assert Decisive(s, p, token, n);
    assert stop < n ==> !Decisive(s, p, token, stop);
  }

  /** Nothing is reported, without cancellation or failure, exactly when no poll saw a row of the token, or
      the first poll that saw one saw only rows after the grace deadline. */
  lemma SilenceIsExact(s: Schedule, p: Policy, token: string, n: nat)
    requires StopsAt(s, p, token, n) && !s.turns(n).cancelled && !s.turns(n).storageFailed
    ensures VerdictAt(s, p, token, n).NoObservation?
       <==> forall o, j: nat :: j <= n && o in s.turns(j).visible && o.tokenValue == token
              ==> j == n && o.observedAt > s.startUtc + p.maximumWait + p.grace
  {
    forall o, j: nat | j < n && o in s.turns(j).visible ensures o.tokenValue != token {
      assert !Decisive(s, p, token, j);
    }
    var e := Earliest(s.turns(n).visible, token);
    if e.Some? {
      assert e.value in s.turns(n).visible && e.value.tokenValue == token;
    }
  }

  // ---- When the verdict depends on what was noticed first ----

  datatype Outcome = Primary | Grace | Nothing

  /** What an event counts as, by its own time alone. */
  function ClassOf(o: Observation, startUtc: real, p: Policy): Outcome {
    if o.observedAt <= startUtc + p.maximumWait then Primary
    else if o.observedAt <= startUtc + p.maximumWait + p.grace then Grace
    else Nothing
  }

  /** What a wait that was neither cancelled nor failed reports. */
  function OutcomeOf(v: Verdict): Outcome {
    if !v.Observed? then Nothing else if v.withinPrimaryWindow then Primary else Grace
  }

  /** A wait from `startUtc` that ends at poll `n` because it sees rows of the token, all of them among `events`. */
  ghost predicate EndsOnRow(s: Schedule, p: Policy, token: string, startUtc: real, events: set<Observation>, n: nat) {
    && s.startUtc == startUtc && ClockAdvances(s, p) && StopsAt(s, p, token, n)
    && !s.turns(n).cancelled && !s.turns(n).storageFailed && Earliest(s.turns(n).visible, token).Some?
    && forall o :: o in s.turns(n).visible && o.tokenValue == token ==> o in events
  }

  /** Such a wait reaches the verdict of one of the events. */
  lemma RowDecides(s: Schedule, p: Policy, token: string, startUtc: real, events: set<Observation>, n: nat) returns (o: Observation)
    requires ValidPolicy(p) && EndsOnRow(s, p, token, startUtc, events, n)
    ensures o in events && VerdictAt(s, p, token, n) == Classified(o, startUtc, p)
    ensures OutcomeOf(VerdictAt(s, p, token, n)) == ClassOf(o, startUtc, p)
  {
    o := Earliest(s.turns(n).visible, token).value;
  }

  /** The environment that shows one event from the first poll on. */
  function Showing(o: Observation, p: Policy, startUtc: real): Schedule {
    Schedule((i: nat) => Turn(false, false, [o], i as real * p.pollInterval), 0.0, startUtc)
  }

  lemma ShowingEnds(o: Observation, p: Policy, token: string, startUtc: real, events: set<Observation>)
    requires ValidPolicy(p) && o in events && o.tokenValue == token
    ensures EndsOnRow(Showing(o, p, startUtc), p, token, startUtc, events, 0)
    ensures VerdictAt(Showing(o, p, startUtc), p, token, 0) == Classified(o, startUtc, p)
  {
    var s := Showing(o, p, startUtc);
    assert o in s.turns(0).visible;
    forall i: nat, j: nat | j == i + 1 ensures s.turns(j).checkedAt >= s.turns(i).checkedAt + p.pollInterval {
      assert j as real * p.pollInterval == i as real * p.pollInterval + p.pollInterval;
    }
  }

  /** Whatever the schedule, the outcome is the same. */
  ghost predicate ScheduleFree(p: Policy, token: string, startUtc: real, events: set<Observation>) {
    forall s, t, m: nat, n: nat ::
      EndsOnRow(s, p, token, startUtc, events, m) && EndsOnRow(t, p, token, startUtc, events, n)
      ==> OutcomeOf(VerdictAt(s, p, token, m)) == OutcomeOf(VerdictAt(t, p, token, n))
  }

  /** Over every poll schedule and every order in which the token's events become visible, the outcome is
      independent of what is noticed when, if and only if all the events fall in the same class by their
      own times: all primary, all within the grace period, or all too late. */
  lemma OutcomeIsScheduleFreeExactly(p: Policy, token: string, startUtc: real, events: set<Observation>)
    requires ValidPolicy(p) && forall o :: o in events ==> o.tokenValue == token
    ensures ScheduleFree(p, token, startUtc, events)
       <==> forall a, b :: a in events && b in events ==> ClassOf(a, startUtc, p) == ClassOf(b, startUtc, p)
  {
    if ScheduleFree(p, token, startUtc, events) {
      forall a, b | a in events && b in events ensures ClassOf(a, startUtc, p) == ClassOf(b, startUtc, p) {
        ShowingEnds(a, p, token, startUtc, events);
        ShowingEnds(b, p, token, startUtc, events);
      }
    }
    if forall a, b :: a in events && b in events ==> ClassOf(a, startUtc, p) == ClassOf(b, startUtc, p) {
      forall s, t, m: nat, n: nat
        | EndsOnRow(s, p, token, startUtc, events, m) && EndsOnRow(t, p, token, startUtc, events, n)
        ensures OutcomeOf(VerdictAt(s, p, token, m)) == OutcomeOf(VerdictAt(t, p, token, n))
      {
        var a := RowDecides(s, p, token, startUtc, events, m);
        var b := RowDecides(t, p, token, startUtc, events, n);
      }
    }
  }

  ghost predicate VerdictFree(p: Policy, token: string, startUtc: real, events: set<Observation>) {
    forall s, t, m: nat, n: nat ::
      EndsOnRow(s, p, token, startUtc, events, m) && EndsOnRow(t, p, token, startUtc, events, n)
      ==> VerdictAt(s, p, token, m) == VerdictAt(t, p, token, n)
  }

  /** The whole verdict, with the event it reports, is schedule-free if and only if there is at most one
      event or all of them are too late. */
  lemma VerdictIsScheduleFreeExactly(p: Policy, token: string, startUtc: real, events: set<Observation>)
    requires ValidPolicy(p) && forall o :: o in events ==> o.tokenValue == token
    ensures VerdictFree(p, token, startUtc, events)
       <==> forall a, b :: a in events && b in events ==> a == b || ClassOf(a, startUtc, p) == ClassOf(b, startUtc, p) == Nothing
  {
    if VerdictFree(p, token, startUtc, events) {
      forall a, b | a in events && b in events
        ensures a == b || ClassOf(a, startUtc, p) == ClassOf(b, startUtc, p) == Nothing
      {
        ShowingEnds(a, p, token, startUtc, events);
        ShowingEnds(b, p, token, startUtc, events);
      }
    }
    if forall a, b :: a in events && b in events ==> a == b || ClassOf(a, startUtc, p) == ClassOf(b, startUtc, p) == Nothing {
      forall s, t, m: nat, n: nat
        | EndsOnRow(s, p, token, startUtc, events, m) && EndsOnRow(t, p, token, startUtc, events, n)
        ensures VerdictAt(s, p, token, m) == VerdictAt(t, p, token, n)
      {
        var a := RowDecides(s, p, token, startUtc, events, m);
        var b := RowDecides(t, p, token, startUtc, events, n);
      }
    }
  }

  /** In particular a single event is never judged by when it was noticed: every wait that comes to see
      it reaches the verdict of its own time. */
  lemma NoticingTimeIsIrrelevant(s: Schedule, t: Schedule, p: Policy, token: string, event: Observation, m: nat, n: nat)
    requires ValidPolicy(p) && event.tokenValue == token
    requires EndsOnRow(s, p, token, s.startUtc, {event}, m) && EndsOnRow(t, p, token, s.startUtc, {event}, n)
    ensures VerdictAt(s, p, token, m) == VerdictAt(t, p, token, n) == Classified(event, s.startUtc, p)
  {
    VerdictIsScheduleFreeExactly(p, token, s.startUtc, {event});
    var o := RowDecides(s, p, token, s.startUtc, {event}, m);
  }

  /** With two events of one token the order in which they become visible does matter: a row seen first
      decides, even when an earlier event is seen a poll later. */
  lemma FirstSeenDecides(token: string)
    ensures var p := Policy(3.0, 2.0, 1.0);
            var early, late := Observation(token, 1.0, "GET", "external"), Observation(token, 4.0, "GET", "external");
            var s := Schedule((i: nat) => Turn(false, false, if i == 0 then [late] else [late, early], i as real), 0.0, 0.0);
            var t := Schedule((i: nat) => Turn(false, false, [late, early], i as real), 0.0, 0.0);
            && ClockAdvances(s, p) && ClockAdvances(t, p) && StopsAt(s, p, token, 0) && StopsAt(t, p, token, 0)
            && VerdictAt(s, p, token, 0) == Observed(late, false) && VerdictAt(t, p, token, 0) == Observed(early, true)
  {
    var early, late := Observation(token, 1.0, "GET", "external"), Observation(token, 4.0, "GET", "external");
    assert late in [late] && late in [late, early] && early in [late, early];
    assert Earliest([late], token) == Some(late);
    assert Earliest([late, early], token) == Some(early);
  }
}
