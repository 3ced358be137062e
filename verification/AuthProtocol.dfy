/** Every interleaving of authentication requests over one shared limiter
    (http_api.py `_authenticate` above rate_limit.py).

    A request first reserves capacity under its failure key, at its own clock reading. Verification
    then fails, which leaves the reservation consumed, or succeeds, which refunds exactly that
    reservation and charges the token's quota key. Any number of requests interleave: a step is one
    limiter call or one verification outcome, so a run is any sequence of steps. */
module AuthProtocol {
  import opened Wrappers
  import opened FixedWindow

  datatype Config = Config(limit: int, span: int)

  ghost predicate ValidConfig(c: Config) {
    c.limit >= 1 && c.span >= 1
  }

  /** What became of an admitted check: a reservation is in flight, failed or refunded; a quota
      charge is spent at once. */
  datatype Status = InFlight | Failed | Refunded | Spent

  datatype Grant = Grant(key: string, now: real, status: Status)

  /** The limiter's table, and the history of every admitted check in the order of admission. */
  datatype State = State(table: Table, grants: seq<Grant>)

  datatype Step =
    | Reserve(key: string, now: real) // check(failure_key)
    | Reject(request: nat)            // verification raised; nothing is released
    | Refund(request: nat)            // verification succeeded; release(failure_key)
    | Charge(key: string, now: real)  // check(token_id)

  const START := State(map[], [])

  /** A request is rejected or refunded once, while it is in flight. */
  predicate Enabled(s: State, step: Step) {
    match step
    case Reserve(_, _) => true
    case Charge(_, _) => true
    case Reject(i) => i < |s.grants| && s.grants[i].status == InFlight
    case Refund(i) => i < |s.grants| && s.grants[i].status == InFlight
  }

  function Checked(c: Config, s: State, key: string, now: real, status: Status): State
    requires ValidConfig(c)
  {
    var w := WindowOf(now, c.span);
    var table := Reserved(s.table, c.limit, key, w);
    if Loaded(s.table, key, w) < c.limit then State(table, s.grants + [Grant(key, now, status)])
    else State(table, s.grants)
  }

  function Next(c: Config, s: State, step: Step): State
    requires ValidConfig(c) && Enabled(s, step)
  {
    match step
    case Reserve(key, now) => Checked(c, s, key, now, InFlight)
    case Charge(key, now) => Checked(c, s, key, now, Spent)
    case Reject(i) => s.(grants := s.grants[i := s.grants[i].(status := Failed)])
    case Refund(i) =>
      var g := s.grants[i];
      State(Released(s.table, g.key, WindowOf(g.now, c.span)), s.grants[i := g.(status := Refunded)])
  }

  ghost predicate IsRun(c: Config, s: State, steps: seq<Step>)
    requires ValidConfig(c)
    decreases |steps|
  {
    |steps| == 0 || (Enabled(s, steps[0]) && IsRun(c, Next(c, s, steps[0]), steps[1..]))
  }

  function After(c: Config, s: State, steps: seq<Step>): State
    requires ValidConfig(c) && IsRun(c, s, steps)
    decreases |steps|
  {
    if |steps| == 0 then s else After(c, Next(c, s, steps[0]), steps[1..])
  }

  // ---- The specification: counting over the whole history ----

  predicate Counts(g: Grant, span: int, key: string, w: int, kinds: set<Status>)
    requires span >= 1
  {
    g.key == key && WindowOf(g.now, span) == w && g.status in kinds
  }

  /** The admitted checks of `key` in window `w` whose fate is one of `kinds`. */
  function Tally(gs: seq<Grant>, span: int, key: string, w: int, kinds: set<Status>): nat
    requires span >= 1
  {
    if |gs| == 0 then 0
    else Tally(gs[..|gs| - 1], span, key, w, kinds) + (if Counts(gs[|gs| - 1], span, key, w, kinds) then 1 else 0)
  }

  const HELD: set<Status> := {InFlight, Failed, Spent}
  const OUTSTANDING: set<Status> := {InFlight, Failed}

  /** The window of the key's latest admission. */
  function Latest(gs: seq<Grant>, span: int, key: string): Option<int>
    requires span >= 1
  {
    if |gs| == 0 then None
    else if gs[|gs| - 1].key == key then Some(WindowOf(gs[|gs| - 1].now, span))
    else Latest(gs[..|gs| - 1], span, key)
  }

  /** The key's checks were admitted in window order. */
  ghost predicate InOrder(gs: seq<Grant>, span: int, key: string)
    requires span >= 1
  {
    forall i, j :: 0 <= i < j < |gs| && gs[i].key == key && gs[j].key == key
      ==> WindowOf(gs[i].now, span) <= WindowOf(gs[j].now, span)
  }

  // ---- Counting lemmas ----

  lemma TallyAppend(gs: seq<Grant>, g: Grant, span: int, key: string, w: int, kinds: set<Status>)
    requires span >= 1
    ensures Tally(gs + [g], span, key, w, kinds)
         == Tally(gs, span, key, w, kinds) + (if Counts(g, span, key, w, kinds) then 1 else 0)
  {
    assert (gs + [g])[..|gs|] == gs;
  }

  lemma {:induction false} TallyUpdate(gs: seq<Grant>, i: nat, g: Grant, span: int, key: string, w: int, kinds: set<Status>)
    requires span >= 1 && i < |gs|
    ensures Tally(gs[i := g], span, key, w, kinds)
         == Tally(gs, span, key, w, kinds) - (if Counts(gs[i], span, key, w, kinds) then 1 else 0)
            + (if Counts(g, span, key, w, kinds) then 1 else 0)
  {
    var n := |gs| - 1;
    if i == n {
      assert gs[i := g][..n] == gs[..n];
    } else {
      assert gs[i := g][..n] == gs[..n][i := g];
      TallyUpdate(gs[..n], i, g, span, key, w, kinds);
    }
  }

  lemma {:induction false} TallyZero(gs: seq<Grant>, span: int, key: string, w: int, kinds: set<Status>)
    requires span >= 1
    requires forall i :: 0 <= i < |gs| ==> !Counts(gs[i], span, key, w, kinds)
    ensures Tally(gs, span, key, w, kinds) == 0
  {
    if |gs| > 0 {
      TallyZero(gs[..|gs| - 1], span, key, w, kinds);
    }
  }

  lemma {:induction false} TallyPositive(gs: seq<Grant>, i: nat, span: int, key: string, w: int, kinds: set<Status>)
    requires span >= 1 && i < |gs| && Counts(gs[i], span, key, w, kinds)
    ensures Tally(gs, span, key, w, kinds) >= 1
  {
    if i < |gs| - 1 {
      TallyPositive(gs[..|gs| - 1], i, span, key, w, kinds);
    }
  }

  lemma {:induction false} TallyMonotone(gs: seq<Grant>, span: int, key: string, w: int, few: set<Status>, many: set<Status>)
    requires span >= 1 && few <= many
    ensures Tally(gs, span, key, w, few) <= Tally(gs, span, key, w, many)
  {
    if |gs| > 0 {
      TallyMonotone(gs[..|gs| - 1], span, key, w, few, many);
    }
  }

  lemma {:induction false} LatestFacts(gs: seq<Grant>, span: int, key: string)
    requires span >= 1 && InOrder(gs, span, key)
    ensures Latest(gs, span, key).None? ==> forall i :: 0 <= i < |gs| ==> gs[i].key != key
    ensures Latest(gs, span, key).Some? ==>
              (forall i :: 0 <= i < |gs| && gs[i].key == key
                 ==> WindowOf(gs[i].now, span) <= Latest(gs, span, key).value)
              && exists i :: 0 <= i < |gs| && gs[i].key == key && WindowOf(gs[i].now, span) == Latest(gs, span, key).value
  {
    if |gs| > 0 {
      var n := |gs| - 1;
      var front := gs[..n];
      assert forall i :: 0 <= i < n ==> front[i] == gs[i];
      if gs[n].key == key {
        assert Latest(gs, span, key) == Some(WindowOf(gs[n].now, span));
      } else {
        LatestFacts(front, span, key);
      }
    }
  }

  lemma {:induction false} LatestUpdate(gs: seq<Grant>, i: nat, status: Status, span: int, key: string)
    requires span >= 1 && i < |gs|
    ensures Latest(gs[i := gs[i].(status := status)], span, key) == Latest(gs, span, key)
  {
    var n := |gs| - 1;
    var hs := gs[i := gs[i].(status := status)];
    if i == n {
      assert hs[..n] == gs[..n];
    } else {
      assert hs[..n] == gs[..n][i := gs[i].(status := status)];
      LatestUpdate(gs[..n], i, status, span, key);
    }
  }

  // ---- The invariant of one key ----

  /** The stored pair describes the key's latest window, and counts exactly what that window still holds. */
  ghost predicate PairAgrees(c: Config, s: State, key: string)
    requires ValidConfig(c)
  {
    match Latest(s.grants, c.span, key)
    case None => key !in s.table
    case Some(w) =>
      && Loaded(s.table, key, w) == Tally(s.grants, c.span, key, w, HELD)
      && (key in s.table ==> s.table[key].window == w && s.table[key].count >= 1)
  }

  ghost predicate WithinLimit(c: Config, s: State, key: string)
    requires ValidConfig(c)
  {
    forall w :: Tally(s.grants, c.span, key, w, HELD) <= c.limit
  }

  ghost predicate KeyInvariant(c: Config, s: State, key: string)
    requires ValidConfig(c)
  {
    InOrder(s.grants, c.span, key) ==> PairAgrees(c, s, key) && WithinLimit(c, s, key)
  }

  lemma PrefixInOrder(gs: seq<Grant>, g: Grant, span: int, key: string)
    requires span >= 1 && InOrder(gs + [g], span, key)
    ensures InOrder(gs, span, key)
    ensures g.key == key && Latest(gs, span, key).Some? ==> Latest(gs, span, key).value <= WindowOf(g.now, span)
  {
    var hs := gs + [g];
    assert forall i :: 0 <= i < |gs| ==> gs[i] == hs[i];
    assert hs[|gs|] == g;
    LatestFacts(gs, span, key);
  }

  /** Before an in-order check, the pair already tells how full the check's window is. */
  lemma LoadIsHeld(c: Config, s: State, key: string, w: int)
    requires ValidConfig(c) && InOrder(s.grants, c.span, key) && PairAgrees(c, s, key)
    requires Latest(s.grants, c.span, key).Some? ==> Latest(s.grants, c.span, key).value <= w
    ensures Loaded(s.table, key, w) == Tally(s.grants, c.span, key, w, HELD)
  {
    LatestFacts(s.grants, c.span, key);
    if Latest(s.grants, c.span, key) != Some(w) {
      TallyZero(s.grants, c.span, key, w, HELD);
    }
  }

  lemma CheckKeepsPair(c: Config, s: State, k: string, now: real, status: Status, key: string)
    requires ValidConfig(c) && PairAgrees(c, s, key) && InOrder(s.grants, c.span, key) && status in HELD
    requires Loaded(s.table, k, WindowOf(now, c.span)) < c.limit
    requires k == key && Latest(s.grants, c.span, key).Some? ==> Latest(s.grants, c.span, key).value <= WindowOf(now, c.span)
    ensures PairAgrees(c, Checked(c, s, k, now, status), key)
  {
    var w, g := WindowOf(now, c.span), Grant(k, now, status);
    assert (s.grants + [g])[..|s.grants|] == s.grants;
    if k == key {
      LoadIsHeld(c, s, key, w);
      TallyAppend(s.grants, g, c.span, key, w, HELD);
    } else if Latest(s.grants, c.span, key).Some? {
      TallyAppend(s.grants, g, c.span, key, Latest(s.grants, c.span, key).value, HELD);
    }
  }

  lemma CheckKeepsLimit(c: Config, s: State, k: string, now: real, status: Status, key: string)
    requires ValidConfig(c) && WithinLimit(c, s, key)
    requires k == key ==> Tally(s.grants, c.span, key, WindowOf(now, c.span), HELD) < c.limit
    ensures WithinLimit(c, State(s.table, s.grants + [Grant(k, now, status)]), key)
  {
    forall v ensures Tally(s.grants + [Grant(k, now, status)], c.span, key, v, HELD) <= c.limit {
      TallyAppend(s.grants, Grant(k, now, status), c.span, key, v, HELD);
    }
  }

  lemma CheckKeeps(c: Config, s: State, k: string, now: real, status: Status, key: string)
    requires ValidConfig(c) && KeyInvariant(c, s, key) && status in HELD
    ensures KeyInvariant(c, Checked(c, s, k, now, status), key)
  {
    var w, g := WindowOf(now, c.span), Grant(k, now, status);
    var t := Checked(c, s, k, now, status);
    if Loaded(s.table, k, w) < c.limit && InOrder(t.grants, c.span, key) {
      PrefixInOrder(s.grants, g, c.span, key);
      if k == key {
        LoadIsHeld(c, s, key, w);
      }
      CheckKeepsPair(c, s, k, now, status, key);
      CheckKeepsLimit(c, s, k, now, status, key);
    }
  }

  lemma MarkKeepsOrder(gs: seq<Grant>, i: nat, status: Status, span: int, key: string)
    requires span >= 1 && i < |gs| && InOrder(gs[i := gs[i].(status := status)], span, key)
    ensures InOrder(gs, span, key)
  {
    var hs := gs[i := gs[i].(status := status)];
    assert forall j :: 0 <= j < |gs| ==> hs[j].key == gs[j].key && hs[j].now == gs[j].now;
  }

  lemma RejectKeeps(c: Config, s: State, i: nat, key: string)
    requires ValidConfig(c) && Enabled(s, Reject(i)) && KeyInvariant(c, s, key)
    ensures KeyInvariant(c, Next(c, s, Reject(i)), key)
  {
    var g := s.grants[i].(status := Failed);
    var t := Next(c, s, Reject(i));
    if InOrder(t.grants, c.span, key) {
      MarkKeepsOrder(s.grants, i, Failed, c.span, key);
      LatestUpdate(s.grants, i, Failed, c.span, key);
      forall w ensures Tally(t.grants, c.span, key, w, HELD) == Tally(s.grants, c.span, key, w, HELD) {
        TallyUpdate(s.grants, i, g, c.span, key, w, HELD);
      }
    }
  }

  /** A refund takes one from its own key and window. */
  lemma RefundTally(c: Config, s: State, i: nat, key: string, w: int)
    requires ValidConfig(c) && Enabled(s, Refund(i))
    ensures Tally(Next(c, s, Refund(i)).grants, c.span, key, w, HELD)
         == Tally(s.grants, c.span, key, w, HELD)
            - (if s.grants[i].key == key && WindowOf(s.grants[i].now, c.span) == w then 1 else 0)
  {
    TallyUpdate(s.grants, i, s.grants[i].(status := Refunded), c.span, key, w, HELD);
  }

  lemma RefundKeepsPair(c: Config, s: State, i: nat, key: string)
    requires ValidConfig(c) && Enabled(s, Refund(i)) && InOrder(s.grants, c.span, key) && PairAgrees(c, s, key)
    ensures PairAgrees(c, Next(c, s, Refund(i)), key)
  {
    var g := s.grants[i];
    LatestUpdate(s.grants, i, Refunded, c.span, key);
    LatestFacts(s.grants, c.span, key);
    if Latest(s.grants, c.span, key).Some? {
      RefundTally(c, s, i, key, Latest(s.grants, c.span, key).value);
    }
    if g.key == key {
      TallyPositive(s.grants, i, c.span, key, WindowOf(g.now, c.span), HELD);
    }
  }

  lemma RefundKeeps(c: Config, s: State, i: nat, key: string)
    requires ValidConfig(c) && Enabled(s, Refund(i)) && KeyInvariant(c, s, key)
    ensures KeyInvariant(c, Next(c, s, Refund(i)), key)
  {
    var t := Next(c, s, Refund(i));
    if InOrder(t.grants, c.span, key) {
      MarkKeepsOrder(s.grants, i, Refunded, c.span, key);
      RefundKeepsPair(c, s, i, key);
      forall w ensures Tally(t.grants, c.span, key, w, HELD) <= c.limit {
        RefundTally(c, s, i, key, w);
      }
    }
  }

  lemma StepKeeps(c: Config, s: State, step: Step, key: string)
    requires ValidConfig(c) && Enabled(s, step) && KeyInvariant(c, s, key)
    ensures KeyInvariant(c, Next(c, s, step), key)
  {
    match step
    case Reserve(k, now) => CheckKeeps(c, s, k, now, InFlight, key);
    case Charge(k, now) => CheckKeeps(c, s, k, now, Spent, key);
    case Reject(i) => RejectKeeps(c, s, i, key);
    case Refund(i) => RefundKeeps(c, s, i, key);
  }

  lemma {:induction false} RunKeeps(c: Config, s: State, steps: seq<Step>, key: string)
    requires ValidConfig(c) && IsRun(c, s, steps) && KeyInvariant(c, s, key)
    ensures KeyInvariant(c, After(c, s, steps), key)
    decreases |steps|
  {
    if |steps| > 0 {
      StepKeeps(c, s, steps[0], key);
      RunKeeps(c, Next(c, s, steps[0]), steps[1..], key);
    }
  }

  lemma ReachableKeeps(c: Config, steps: seq<Step>, key: string)
    requires ValidConfig(c) && IsRun(c, START, steps)
    ensures KeyInvariant(c, After(c, START, steps), key)
  {
    forall w ensures Tally(START.grants, c.span, key, w, HELD) == 0 {}
    RunKeeps(c, START, steps, key);
  }

  // ---- Main results ----

  /** In every interleaving, for every key whose checks were admitted in window order: the stored
      pair counts exactly what its window still holds, and no window of the key ever holds more than
      the limit. */
  lemma StoredCountIsHeld(c: Config, steps: seq<Step>, key: string)
    requires ValidConfig(c) && IsRun(c, START, steps)
    requires InOrder(After(c, START, steps).grants, c.span, key)
    ensures var s := After(c, START, steps);
            && (forall w :: Tally(s.grants, c.span, key, w, HELD) <= c.limit)
            && (key in s.table ==>
                  s.table[key].count == Tally(s.grants, c.span, key, s.table[key].window, HELD)
                  && Latest(s.grants, c.span, key) == Some(s.table[key].window))
            && (key !in s.table && Latest(s.grants, c.span, key).Some? ==>
                  Tally(s.grants, c.span, key, Latest(s.grants, c.span, key).value, HELD) == 0)
  {
    ReachableKeeps(c, steps, key);
  }

  predicate ChecksKey(step: Step, key: string) {
    (step.Reserve? || step.Charge?) && step.key == key
  }

  /** The key's checks, admitted or not, read the clock in order. */
  ghost predicate TimesInOrder(steps: seq<Step>, key: string) {
    forall i, j :: 0 <= i < j < |steps| && ChecksKey(steps[i], key) && ChecksKey(steps[j], key) ==> steps[i].now <= steps[j].now
  }

  ghost predicate GrantsPrecede(gs: seq<Grant>, steps: seq<Step>, key: string) {
    forall i, j :: 0 <= i < |gs| && 0 <= j < |steps| && gs[i].key == key && ChecksKey(steps[j], key) ==> gs[i].now <= steps[j].now
  }

  ghost predicate GrantTimesInOrder(gs: seq<Grant>, key: string) {
    forall i, j :: 0 <= i < j < |gs| && gs[i].key == key && gs[j].key == key ==> gs[i].now <= gs[j].now
  }

  lemma StepKeepsTimes(c: Config, s: State, steps: seq<Step>, key: string)
    requires ValidConfig(c) && |steps| > 0 && Enabled(s, steps[0])
    requires TimesInOrder(steps, key) && GrantsPrecede(s.grants, steps, key) && GrantTimesInOrder(s.grants, key)
    ensures var t := Next(c, s, steps[0]);
            GrantsPrecede(t.grants, steps[1..], key) && GrantTimesInOrder(t.grants, key)
  {
    var rest := steps[1..];
    assert forall j :: 0 <= j < |rest| ==> rest[j] == steps[j + 1];
  }

  lemma {:induction false} RunKeepsTimes(c: Config, s: State, steps: seq<Step>, key: string)
    requires ValidConfig(c) && IsRun(c, s, steps)
    requires TimesInOrder(steps, key) && GrantsPrecede(s.grants, steps, key) && GrantTimesInOrder(s.grants, key)
    ensures GrantTimesInOrder(After(c, s, steps).grants, key)
    decreases |steps|
  {
    if |steps| > 0 {
      StepKeepsTimes(c, s, steps, key);
      assert forall i :: 0 <= i < |steps| - 1 ==> steps[1..][i] == steps[i + 1];
      RunKeepsTimes(c, Next(c, s, steps[0]), steps[1..], key);
    }
  }

  /** Nondecreasing clock readings per key give the window order that the results below rest on. */
  lemma TimeOrderSuffices(c: Config, steps: seq<Step>, key: string)
    requires ValidConfig(c) && IsRun(c, START, steps) && TimesInOrder(steps, key)
    ensures InOrder(After(c, START, steps).grants, c.span, key)
  {
    RunKeepsTimes(c, START, steps, key);
    var gs := After(c, START, steps).grants;
    forall i, j | 0 <= i < j < |gs| && gs[i].key == key && gs[j].key == key
      ensures WindowOf(gs[i].now, c.span) <= WindowOf(gs[j].now, c.span)
    {
      WindowsOfSpan(gs[i].now, gs[j].now, c.span);
    }
  }

  /** Quota charges never use a failure key, so on a failure key "held" means failed or in flight. */
  ghost predicate OnlyReserved(steps: seq<Step>, key: string) {
    forall i :: 0 <= i < |steps| && steps[i].Charge? ==> steps[i].key != key
  }

  ghost predicate NoneSpent(s: State, key: string) {
    forall i :: 0 <= i < |s.grants| && s.grants[i].key == key ==> s.grants[i].status != Spent
  }

  lemma {:induction false} NeverSpent(c: Config, s: State, steps: seq<Step>, key: string)
    requires ValidConfig(c) && IsRun(c, s, steps) && OnlyReserved(steps, key)
    requires NoneSpent(s, key)
    ensures NoneSpent(After(c, s, steps), key)
    decreases |steps|
  {
    if |steps| > 0 {
      var t := Next(c, s, steps[0]);
      assert NoneSpent(t, key);
      assert forall i :: 0 <= i < |steps[1..]| ==> steps[1..][i] == steps[i + 1];
      NeverSpent(c, t, steps[1..], key);
    }
  }

  lemma {:induction false} TallySame(gs: seq<Grant>, span: int, key: string, w: int)
    requires span >= 1
    requires forall i :: 0 <= i < |gs| && gs[i].key == key ==> gs[i].status != Spent
    ensures Tally(gs, span, key, w, HELD) == Tally(gs, span, key, w, OUTSTANDING)
  {
    if |gs| > 0 {
      TallySame(gs[..|gs| - 1], span, key, w);
    }
  }

  /** The failure bucket: in every interleaving, the stored count of a failure key is the number of
      its reservations of that window that failed or are still in flight, and failures plus requests
      in flight never exceed the limit, in that window or in any earlier one. */
  lemma FailureCountExact(c: Config, steps: seq<Step>, key: string)
    requires ValidConfig(c) && IsRun(c, START, steps) && OnlyReserved(steps, key)
    requires InOrder(After(c, START, steps).grants, c.span, key)
    ensures var s := After(c, START, steps);
            && (forall w :: Tally(s.grants, c.span, key, w, OUTSTANDING) <= c.limit)
            && (key in s.table ==>
                  s.table[key].count == Tally(s.grants, c.span, key, s.table[key].window, OUTSTANDING))
  {
    StoredCountIsHeld(c, steps, key);
    NeverSpent(c, START, steps, key);
    var s := After(c, START, steps);
    forall w ensures Tally(s.grants, c.span, key, w, OUTSTANDING) == Tally(s.grants, c.span, key, w, HELD) {
      TallySame(s.grants, c.span, key, w);
    }
  }

  /** The pair decides as the full history would: after any run, an in-order check is admitted if
      and only if its window holds fewer reservations than the limit. */
  lemma AdmissionExact(c: Config, steps: seq<Step>, key: string, now: real)
    requires ValidConfig(c) && IsRun(c, START, steps)
    requires var s := After(c, START, steps);
             && InOrder(s.grants, c.span, key)
             && forall i :: 0 <= i < |s.grants| && s.grants[i].key == key
                  ==> WindowOf(s.grants[i].now, c.span) <= WindowOf(now, c.span)
    ensures var s := After(c, START, steps);
            && (Loaded(s.table, key, WindowOf(now, c.span)) < c.limit
                <==> Tally(s.grants, c.span, key, WindowOf(now, c.span), HELD) < c.limit)
            && Next(c, s, Reserve(key, now)).grants
               == if Tally(s.grants, c.span, key, WindowOf(now, c.span), HELD) < c.limit
                  then s.grants + [Grant(key, now, InFlight)] else s.grants
  {
    var s := After(c, START, steps);
    ReachableKeeps(c, steps, key);
    LatestFacts(s.grants, c.span, key);
    LoadIsHeld(c, s, key, WindowOf(now, c.span));
  }

  lemma StepKeepsFailures(c: Config, s: State, step: Step, key: string, w: int)
    requires ValidConfig(c) && Enabled(s, step)
    ensures Tally(Next(c, s, step).grants, c.span, key, w, {Failed}) >= Tally(s.grants, c.span, key, w, {Failed})
  {
    var t := Next(c, s, step);
    match step
    case Reserve(k, now) => TallyAppend(s.grants, Grant(k, now, InFlight), c.span, key, w, {Failed});
    case Charge(k, now) => TallyAppend(s.grants, Grant(k, now, Spent), c.span, key, w, {Failed});
    case Reject(i) => TallyUpdate(s.grants, i, s.grants[i].(status := Failed), c.span, key, w, {Failed});
    case Refund(i) => TallyUpdate(s.grants, i, s.grants[i].(status := Refunded), c.span, key, w, {Failed});
  }

  /** No step, and so no other request's refund, ever erases a recorded failure. */
  lemma {:induction false} FailuresAreKept(c: Config, s: State, steps: seq<Step>, key: string, w: int)
    requires ValidConfig(c) && IsRun(c, s, steps)
    ensures Tally(After(c, s, steps).grants, c.span, key, w, {Failed}) >= Tally(s.grants, c.span, key, w, {Failed})
    decreases |steps|
  {
    if |steps| > 0 {
      StepKeepsFailures(c, s, steps[0], key, w);
      FailuresAreKept(c, Next(c, s, steps[0]), steps[1..], key, w);
    }
  }

  lemma {:induction false} RunConcat(c: Config, s: State, a: seq<Step>, b: seq<Step>)
    requires ValidConfig(c) && IsRun(c, s, a) && IsRun(c, After(c, s, a), b)
    ensures IsRun(c, s, a + b) && After(c, s, a + b) == After(c, After(c, s, a), b)
    decreases |a|
  {
    if |a| == 0 {
      assert a + b == b;
    } else {
      RunConcat(c, Next(c, s, a[0]), a[1..], b);
      assert (a + b)[1..] == a[1..] + b;
    }
  }

  /** Lock-out: once a window has recorded as many failures as the limit, every later in-order check
      of that window is refused, whatever the other requests do in between. */
  lemma LockoutHolds(c: Config, before: seq<Step>, between: seq<Step>, key: string, now: real)
    requires ValidConfig(c) && IsRun(c, START, before) && IsRun(c, After(c, START, before), between)
    requires Tally(After(c, START, before).grants, c.span, key, WindowOf(now, c.span), {Failed}) >= c.limit
    requires var s := After(c, After(c, START, before), between);
             && InOrder(s.grants, c.span, key)
             && forall i :: 0 <= i < |s.grants| && s.grants[i].key == key
                  ==> WindowOf(s.grants[i].now, c.span) <= WindowOf(now, c.span)
    ensures var s := After(c, After(c, START, before), between);
            Next(c, s, Reserve(key, now)) == s
  {
    var w := WindowOf(now, c.span);
    RunConcat(c, START, before, between);
    FailuresAreKept(c, After(c, START, before), between, key, w);
    AdmissionExact(c, before + between, key, now);
    TallyMonotone(After(c, START, before + between).grants, c.span, key, w, {Failed}, HELD);
  }

  /** A refund that comes after the key has moved on to a newer window leaves the table as it is. */
  lemma LateRefundIsInert(c: Config, steps: seq<Step>, i: nat)
    requires ValidConfig(c) && IsRun(c, START, steps) && Enabled(After(c, START, steps), Refund(i))
    requires var s := After(c, START, steps); InOrder(s.grants, c.span, s.grants[i].key)
    requires var s := After(c, START, steps);
             exists j :: 0 <= j < |s.grants| && s.grants[j].key == s.grants[i].key
                         && WindowOf(s.grants[j].now, c.span) > WindowOf(s.grants[i].now, c.span)
    ensures Next(c, After(c, START, steps), Refund(i)).table == After(c, START, steps).table
  {
    var s := After(c, START, steps);
    StoredCountIsHeld(c, steps, s.grants[i].key);
    LatestFacts(s.grants, c.span, s.grants[i].key);
  }

  predicate HasGrant(s: State, i: nat, g: Grant) {
    i < |s.grants| && s.grants[i] == g
  }

  /** A settled request keeps its fate: once rejected, refunded or spent, no step of any run changes it. */
  lemma {:induction false} FateIsFinal(c: Config, s: State, steps: seq<Step>, i: nat)
    requires ValidConfig(c) && IsRun(c, s, steps) && i < |s.grants| && s.grants[i].status != InFlight
    ensures i < |After(c, s, steps).grants| && After(c, s, steps).grants[i] == s.grants[i]
    decreases |steps|
  {
    if |steps| > 0 {
      FateIsFinal(c, Next(c, s, steps[0]), steps[1..], i);
    }
  }

  /** So each reservation is settled at most once, as what the verification said: a rejection makes it a
      failure for good and leaves the table alone, and a refund takes it out of the count for good. */
  lemma SettledOnce(c: Config, s: State, i: nat, rest: seq<Step>)
    requires ValidConfig(c) && i < |s.grants| && s.grants[i].status == InFlight
    ensures Next(c, s, Reject(i)).table == s.table
    ensures IsRun(c, Next(c, s, Reject(i)), rest) ==>
              HasGrant(After(c, Next(c, s, Reject(i)), rest), i, Grant(s.grants[i].key, s.grants[i].now, Failed))
    ensures IsRun(c, Next(c, s, Refund(i)), rest) ==>
              HasGrant(After(c, Next(c, s, Refund(i)), rest), i, Grant(s.grants[i].key, s.grants[i].now, Refunded))
  {
    if IsRun(c, Next(c, s, Reject(i)), rest) {
      FateIsFinal(c, Next(c, s, Reject(i)), rest, i);
    }
    if IsRun(c, Next(c, s, Refund(i)), rest) {
      FateIsFinal(c, Next(c, s, Refund(i)), rest, i);
    }
  }

  // ---- Two windows meet every span ----

  predicate InSpan(g: Grant, key: string, from: real, span: int) {
    g.key == key && from <= g.now <= from + span as real && g.status in HELD
  }

  /** The checks of `key` that still count, in the closed span of one window length from `from`. */
  function SpanTally(gs: seq<Grant>, key: string, from: real, span: int): nat {
    if |gs| == 0 then 0
    else SpanTally(gs[..|gs| - 1], key, from, span) + (if InSpan(gs[|gs| - 1], key, from, span) then 1 else 0)
  }

  lemma {:induction false} SpanMeetsTwoWindows(gs: seq<Grant>, key: string, from: real, span: int)
    requires span >= 1
    ensures SpanTally(gs, key, from, span)
         <= Tally(gs, span, key, WindowOf(from, span), HELD) + Tally(gs, span, key, WindowOf(from, span) + 1, HELD)
  {
    if |gs| > 0 {
      var n := |gs| - 1;
      SpanMeetsTwoWindows(gs[..n], key, from, span);
      if InSpan(gs[n], key, from, span) {
        WindowsOfSpan(from, gs[n].now, span);
      }
    }
  }

  /** In any closed span of one window length, at most twice the limit is admitted and still counted,
      that is, not refunded. */
  lemma TwiceTheLimit(c: Config, steps: seq<Step>, key: string, from: real)
    requires ValidConfig(c) && IsRun(c, START, steps)
    requires InOrder(After(c, START, steps).grants, c.span, key)
    ensures SpanTally(After(c, START, steps).grants, key, from, c.span) <= 2 * c.limit
  {
    StoredCountIsHeld(c, steps, key);
    SpanMeetsTwoWindows(After(c, START, steps).grants, key, from, c.span);
  }

  /** All admitted checks of `key` in the span, whatever became of them. */
  function SpanAdmitted(gs: seq<Grant>, key: string, from: real, span: int): nat {
    if |gs| == 0 then 0
    else SpanAdmitted(gs[..|gs| - 1], key, from, span)
         + (if gs[|gs| - 1].key == key && from <= gs[|gs| - 1].now <= from + span as real then 1 else 0)
  }

  ghost predicate AllHeld(gs: seq<Grant>) {
    forall i :: 0 <= i < |gs| ==> gs[i].status in HELD
  }

  lemma {:induction false} HeldIsAdmitted(gs: seq<Grant>, key: string, from: real, span: int)
    requires AllHeld(gs)
    ensures SpanAdmitted(gs, key, from, span) == SpanTally(gs, key, from, span)
  {
    if |gs| > 0 {
      HeldIsAdmitted(gs[..|gs| - 1], key, from, span);
    }
  }

  lemma {:induction false} NothingRefunded(c: Config, s: State, steps: seq<Step>)
    requires ValidConfig(c) && IsRun(c, s, steps) && AllHeld(s.grants)
    requires forall i :: 0 <= i < |steps| ==> !steps[i].Refund?
    ensures AllHeld(After(c, s, steps).grants)
    decreases |steps|
  {
    if |steps| > 0 {
      assert !steps[0].Refund?;
      NothingRefunded(c, Next(c, s, steps[0]), steps[1..]);
    }
  }

  /** Without refunds, at most twice the limit is admitted at all in any such span. */
  lemma TwiceTheLimitAdmitted(c: Config, steps: seq<Step>, key: string, from: real)
    requires ValidConfig(c) && IsRun(c, START, steps) && InOrder(After(c, START, steps).grants, c.span, key)
    requires forall i :: 0 <= i < |steps| ==> !steps[i].Refund?
    ensures SpanAdmitted(After(c, START, steps).grants, key, from, c.span) <= 2 * c.limit
  {
    NothingRefunded(c, START, steps);
    HeldIsAdmitted(After(c, START, steps).grants, key, from, c.span);
    TwiceTheLimit(c, steps, key, from);
  }

  // ---- Exactly when the pair is right ----

  /** The stored pair, if there is one, counts exactly what its window holds. */
  ghost predicate PairRight(c: Config, s: State, key: string)
    requires ValidConfig(c)
  {
    key in s.table ==> s.table[key].count == Tally(s.grants, c.span, key, s.table[key].window, HELD)
  }

  predicate Admits(c: Config, s: State, step: Step)
    requires ValidConfig(c)
  {
    (step.Reserve? || step.Charge?) && Loaded(s.table, step.key, WindowOf(step.now, c.span)) < c.limit
  }

  /** What must hold before an admitted check: it falls in the stored window, or in a window that holds nothing. */
  predicate Guarded(c: Config, s: State, step: Step)
    requires ValidConfig(c) && (step.Reserve? || step.Charge?)
  {
    var w := WindowOf(step.now, c.span);
    (step.key in s.table && s.table[step.key].window == w) || Tally(s.grants, c.span, step.key, w, HELD) == 0
  }

  lemma CheckRightExactly(c: Config, s: State, k: string, now: real, status: Status, key: string)
    requires ValidConfig(c) && PairRight(c, s, key) && status in HELD && Loaded(s.table, k, WindowOf(now, c.span)) < c.limit
    ensures PairRight(c, Checked(c, s, k, now, status), key) <==> (k == key ==> Guarded(c, s, Reserve(k, now)))
  {
    var w, g := WindowOf(now, c.span), Grant(k, now, status);
    TallyAppend(s.grants, g, c.span, key, w, HELD);
    if key in s.table {
      TallyAppend(s.grants, g, c.span, key, s.table[key].window, HELD);
    }
  }

  lemma RejectRight(c: Config, s: State, i: nat, key: string)
    requires ValidConfig(c) && PairRight(c, s, key) && Enabled(s, Reject(i))
    ensures PairRight(c, Next(c, s, Reject(i)), key)
  {
    if key in s.table {
      TallyUpdate(s.grants, i, s.grants[i].(status := Failed), c.span, key, s.table[key].window, HELD);
    }
  }

  lemma RefundRight(c: Config, s: State, i: nat, key: string)
    requires ValidConfig(c) && PairRight(c, s, key) && Enabled(s, Refund(i))
    ensures PairRight(c, Next(c, s, Refund(i)), key)
  {
    if key in s.table {
      RefundTally(c, s, i, key, s.table[key].window);
    }
  }

  /** One step from a right pair: only an admitted check of the key can spoil it, and does so exactly
      when it is not guarded. */
  lemma StepRightExactly(c: Config, s: State, step: Step, key: string)
    requires ValidConfig(c) && Enabled(s, step) && PairRight(c, s, key)
    ensures PairRight(c, Next(c, s, step), key) <==> (Admits(c, s, step) && step.key == key ==> Guarded(c, s, step))
  {
    match step
    case Reserve(k, now) => if Admits(c, s, step) { CheckRightExactly(c, s, k, now, InFlight, key); }
    case Charge(k, now) => if Admits(c, s, step) { CheckRightExactly(c, s, k, now, Spent, key); }
    case Reject(i) => RejectRight(c, s, i, key);
    case Refund(i) => RefundRight(c, s, i, key);
  }

  /** The pair is right at the start and after every step. */
  ghost predicate AlwaysRight(c: Config, s: State, steps: seq<Step>, key: string)
    requires ValidConfig(c) && IsRun(c, s, steps)
    decreases |steps|
  {
    PairRight(c, s, key) && (|steps| > 0 ==> AlwaysRight(c, Next(c, s, steps[0]), steps[1..], key))
  }

  /** Every admitted check of the key meets the guard. */
  ghost predicate AlwaysGuarded(c: Config, s: State, steps: seq<Step>, key: string)
    requires ValidConfig(c) && IsRun(c, s, steps)
    decreases |steps|
  {
    |steps| > 0 ==>
      && (Admits(c, s, steps[0]) && steps[0].key == key ==> Guarded(c, s, steps[0]))
      && AlwaysGuarded(c, Next(c, s, steps[0]), steps[1..], key)
  }

  lemma {:induction false} RightIffGuarded(c: Config, s: State, steps: seq<Step>, key: string)
    requires ValidConfig(c) && IsRun(c, s, steps) && PairRight(c, s, key)
    ensures AlwaysRight(c, s, steps, key) <==> AlwaysGuarded(c, s, steps, key)
    decreases |steps|
  {
    if |steps| > 0 {
      StepRightExactly(c, s, steps[0], key);
      if PairRight(c, Next(c, s, steps[0]), key) {
        RightIffGuarded(c, Next(c, s, steps[0]), steps[1..], key);
      }
    }
  }

  lemma {:induction false} GuardedWithinLimit(c: Config, s: State, steps: seq<Step>, key: string)
    requires ValidConfig(c) && IsRun(c, s, steps) && PairRight(c, s, key) && WithinLimit(c, s, key)
    requires AlwaysGuarded(c, s, steps, key)
    ensures WithinLimit(c, After(c, s, steps), key)
    decreases |steps|
  {
    if |steps| > 0 {
      StepRightExactly(c, s, steps[0], key);
      StepWithinLimit(c, s, steps[0], key);
      GuardedWithinLimit(c, Next(c, s, steps[0]), steps[1..], key);
    }
  }

  lemma StepWithinLimit(c: Config, s: State, step: Step, key: string)
    requires ValidConfig(c) && Enabled(s, step) && PairRight(c, s, key) && WithinLimit(c, s, key)
    requires Admits(c, s, step) && step.key == key ==> Guarded(c, s, step)
    ensures WithinLimit(c, Next(c, s, step), key)
  {
    forall w ensures Tally(Next(c, s, step).grants, c.span, key, w, HELD) <= c.limit {
      match step
      case Reserve(k, now) => TallyAppend(s.grants, Grant(k, now, InFlight), c.span, key, w, HELD);
      case Charge(k, now) => TallyAppend(s.grants, Grant(k, now, Spent), c.span, key, w, HELD);
      case Reject(i) => TallyUpdate(s.grants, i, s.grants[i].(status := Failed), c.span, key, w, HELD);
      case Refund(i) => RefundTally(c, s, i, key, w);
    }
  }

  /** In every interleaving, with no order assumed: the pair is right after every step if and only if every
      admitted check of the key fell in the stored window or in a window that held nothing; and then no
      window ever holds more than the limit. */
  lemma PairRightExactly(c: Config, steps: seq<Step>, key: string)
    requires ValidConfig(c) && IsRun(c, START, steps)
    ensures AlwaysRight(c, START, steps, key) <==> AlwaysGuarded(c, START, steps, key)
    ensures AlwaysGuarded(c, START, steps, key) ==> WithinLimit(c, After(c, START, steps), key)
    ensures InOrder(After(c, START, steps).grants, c.span, key) ==> AlwaysGuarded(c, START, steps, key)
  {
    RightIffGuarded(c, START, steps, key);
    if InOrder(After(c, START, steps).grants, c.span, key) {
      ReachableKeeps(c, [], key);
      OrderIsGuarded(c, START, steps, key);
    }
    if AlwaysGuarded(c, START, steps, key) {
      forall w ensures Tally(START.grants, c.span, key, w, HELD) == 0 {}
      GuardedWithinLimit(c, START, steps, key);
    }
  }

  lemma StepKeepsDisorder(c: Config, s: State, step: Step, key: string)
    requires ValidConfig(c) && Enabled(s, step) && InOrder(Next(c, s, step).grants, c.span, key)
    ensures InOrder(s.grants, c.span, key)
  {
    match step
    case Reserve(k, now) => if Admits(c, s, step) { PrefixInOrder(s.grants, Grant(k, now, InFlight), c.span, key); }
    case Charge(k, now) => if Admits(c, s, step) { PrefixInOrder(s.grants, Grant(k, now, Spent), c.span, key); }
    case Reject(i) => MarkKeepsOrder(s.grants, i, Failed, c.span, key);
    case Refund(i) => MarkKeepsOrder(s.grants, i, Refunded, c.span, key);
  }

  lemma {:induction false} OrderFromTheStart(c: Config, s: State, steps: seq<Step>, key: string)
    requires ValidConfig(c) && IsRun(c, s, steps) && InOrder(After(c, s, steps).grants, c.span, key)
    ensures InOrder(s.grants, c.span, key)
    decreases |steps|
  {
    if |steps| > 0 {
      OrderFromTheStart(c, Next(c, s, steps[0]), steps[1..], key);
      StepKeepsDisorder(c, s, steps[0], key);
    }
  }

  /** Window order is one way to meet the guard throughout. */
  lemma {:induction false} OrderIsGuarded(c: Config, s: State, steps: seq<Step>, key: string)
    requires ValidConfig(c) && IsRun(c, s, steps) && KeyInvariant(c, s, key) && InOrder(After(c, s, steps).grants, c.span, key)
    ensures AlwaysRight(c, s, steps, key)
    decreases |steps|
  {
    OrderFromTheStart(c, s, steps, key);
    if |steps| > 0 {
      StepKeeps(c, s, steps[0], key);
      OrderIsGuarded(c, Next(c, s, steps[0]), steps[1..], key);
    }
  }

  lemma RunCons(c: Config, s: State, step: Step, rest: seq<Step>)
    requires ValidConfig(c) && Enabled(s, step) && IsRun(c, Next(c, s, step), rest)
    ensures IsRun(c, s, [step] + rest) && After(c, s, [step] + rest) == After(c, Next(c, s, step), rest)
  {
    assert ([step] + rest)[1..] == rest;
  }

  /** Without window order the pair forgets: a check from an older window overwrites the entry, and a
      limit of one then holds two failures in a single window. */
  lemma StaleCheckForgets(key: string)
    ensures var c := Config(1, 10);
            var steps := [Reserve(key, 0.0), Reject(0), Reserve(key, 15.0), Reserve(key, 5.0)];
            && IsRun(c, START, steps)
            && !InOrder(After(c, START, steps).grants, 10, key)
            && Tally(After(c, START, steps).grants, 10, key, 0, OUTSTANDING) == 2
  {
    var c := Config(1, 10);
    var steps := [Reserve(key, 0.0), Reject(0), Reserve(key, 15.0), Reserve(key, 5.0)];
    var s1 := State(map[key := Entry(0, 1)], [Grant(key, 0.0, InFlight)]);
    var s2 := State(map[key := Entry(0, 1)], [Grant(key, 0.0, Failed)]);
    var s3 := State(map[key := Entry(1, 1)], [Grant(key, 0.0, Failed), Grant(key, 15.0, InFlight)]);
    var s4 := State(map[key := Entry(0, 1)], [Grant(key, 0.0, Failed), Grant(key, 15.0, InFlight), Grant(key, 5.0, InFlight)]);
    assert WindowOf(0.0, 10) == 0 && WindowOf(15.0, 10) == 1 && WindowOf(5.0, 10) == 0;
    assert Next(c, START, steps[0]) == s1 && Next(c, s1, steps[1]) == s2;
    assert Next(c, s2, steps[2]) == s3 && Next(c, s3, steps[3]) == s4;
    RunCons(c, s3, steps[3], []);
    assert [steps[3]] + [] == [steps[3]];
    RunCons(c, s2, steps[2], [steps[3]]);
    assert [steps[2]] + [steps[3]] == [steps[2], steps[3]];
    RunCons(c, s1, steps[1], [steps[2], steps[3]]);
    assert [steps[1]] + [steps[2], steps[3]] == [steps[1], steps[2], steps[3]];
    RunCons(c, START, steps[0], [steps[1], steps[2], steps[3]]);
    assert [steps[0]] + [steps[1], steps[2], steps[3]] == steps;
    assert WindowOf(s4.grants[1].now, 10) > WindowOf(s4.grants[2].now, 10);
    TallyOfThree(s4.grants, key);
  }

  lemma TallyOfThree(g: seq<Grant>, key: string)
    requires g == [Grant(key, 0.0, Failed), Grant(key, 15.0, InFlight), Grant(key, 5.0, InFlight)]
    ensures Tally(g, 10, key, 0, OUTSTANDING) == 2
  {
    assert WindowOf(0.0, 10) == 0 && WindowOf(15.0, 10) == 1 && WindowOf(5.0, 10) == 0;
    TallyAppend([], g[0], 10, key, 0, OUTSTANDING);
    TallyAppend([g[0]], g[1], 10, key, 0, OUTSTANDING);
    TallyAppend([g[0], g[1]], g[2], 10, key, 0, OUTSTANDING);
    assert [] + [g[0]] == [g[0]] && [g[0]] + [g[1]] == [g[0], g[1]] && [g[0], g[1]] + [g[2]] == g;
  }
}
