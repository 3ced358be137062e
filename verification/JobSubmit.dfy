/** Idempotent job submission with permit binding: `submit` of postgres_jobs.py, as one serial
    transaction over the job, permit and binding tables. */
module JobSubmit {
  import opened Wrappers

  datatype Request = Request(
    idempotencyKey: Option<string>, fingerprint: string, target: string, authorizationId: string,
    authorizationSha256: string, mode: string, submittedAt: int)

  /** The arguments of `submit`. `jobId` is the id given by the caller, or the one drawn for this call. */
  datatype Submission = Submission(
    request: Request, jobId: string, organizationId: Option<string>, submittedBy: Option<string>,
    permitId: Option<string>, permitSha256: Option<string>)

  /** A queued job; `scan_jobs.organization_id` is NOT NULL. */
  datatype Job = Job(jobId: string, organizationId: string, submittedBy: string, request: Request)

  datatype Permit = Permit(organizationId: string, sha256: string)

  datatype Binding = Binding(permitId: string, sha256: string)

  /** `rowSecurity` says whether the tenant policies of the job table are installed. */
  datatype Store = Store(jobs: seq<Job>, permits: map<string, Permit>, bindings: map<string, Binding>, rowSecurity: bool)

  datatype SubmitError = ScopeInvalid | BindingInvalid | IdempotencyConflict | IntegrityViolation | PermitNotFound

  predicate Visible(s: Store, job: Job, org: Option<string>) {
    s.rowSecurity ==> org == Some(job.organizationId)
  }

  /** `WHERE idempotency_key = k`, over the rows the connection may see: a position, or the length. */
  function FindKey(s: Store, key: string, org: Option<string>, from: nat): (i: nat)
    requires from <= |s.jobs|
    ensures from <= i <= |s.jobs|
    ensures i < |s.jobs| ==> s.jobs[i].request.idempotencyKey == Some(key) && Visible(s, s.jobs[i], org)
    ensures forall j :: from <= j < i ==> !(s.jobs[j].request.idempotencyKey == Some(key) && Visible(s, s.jobs[j], org))
    decreases |s.jobs| - from
  {
    if from == |s.jobs| || (s.jobs[from].request.idempotencyKey == Some(key) && Visible(s, s.jobs[from], org)) then from
    else FindKey(s, key, org, from + 1)
  }

  predicate KeyTaken(s: Store, key: Option<string>) {
    key.Some? && exists i :: 0 <= i < |s.jobs| && s.jobs[i].request.idempotencyKey == key
  }

  predicate IdTaken(s: Store, id: string) {
    exists i :: 0 <= i < |s.jobs| && s.jobs[i].jobId == id
  }

  /** The job an earlier call with this key created, if this call may see it. */
  function Existing(s: Store, a: Submission): Option<Job> {
    if a.request.idempotencyKey.None? then None
    else
      var i := FindKey(s, a.request.idempotencyKey.value, a.organizationId, 0);
      if i < |s.jobs| then Some(s.jobs[i]) else None
  }

  predicate ArgumentsPaired(a: Submission) {
    && (a.organizationId.None? <==> a.submittedBy.None?) && (a.permitId.None? <==> a.permitSha256.None?)
    && (a.permitId.Some? ==> a.organizationId.Some?)
  }

  /** The replay checks, in the source's order: same request, same organization, same permit. */
  predicate Replayable(s: Store, job: Job, a: Submission) {
    && job.request.fingerprint == a.request.fingerprint
    && (a.organizationId.Some? ==> job.organizationId == a.organizationId.value)
    && (a.permitId.Some? && a.permitSha256.Some? ==>
          job.jobId in s.bindings && s.bindings[job.jobId] == Binding(a.permitId.value, a.permitSha256.value))
  }

  predicate PermitMatches(s: Store, a: Submission) {
    a.permitId.Some? && a.permitSha256.Some? && a.organizationId.Some? ==>
      a.permitId.value in s.permits && s.permits[a.permitId.value] == Permit(a.organizationId.value, a.permitSha256.value)
  }

  class PostgresJobRepository {
    var store: Store

    constructor (rowSecurity: bool)
      ensures store == Store([], map[], map[], rowSecurity)
    {
      store := Store([], map[], map[], rowSecurity);
    }

    /** Returns the job and whether it is new. Any error rolls back the job row inserted before it. */
    method Submit(a: Submission) returns (r: Result<(Job, bool), SubmitError>)
      modifies this`store
      ensures (store, r) == Submitted(old(store), a)
      ensures r.Err? ==> store == old(store)
    {
      if a.organizationId.None? != a.submittedBy.None? {
        return Err(ScopeInvalid);
      }
      if a.permitId.None? != a.permitSha256.None? {
        return Err(BindingInvalid);
      }
      if a.permitId.Some? && a.organizationId.None? {
        return Err(BindingInvalid);
      }
      var existing := Existing(store, a);
      if existing.Some? {
        var job := existing.value;
        if job.request.fingerprint != a.request.fingerprint {
          return Err(IdempotencyConflict);
        }
        if a.organizationId.Some? && job.organizationId != a.organizationId.value {
          return Err(IdempotencyConflict);
        }
        if a.permitId.Some? {
          if job.jobId !in store.bindings || store.bindings[job.jobId] != Binding(a.permitId.value, a.permitSha256.value) {
            return Err(IdempotencyConflict);
          }
        }
        return Ok((job, false));
      }
      if a.organizationId.None? || IdTaken(store, a.jobId) || KeyTaken(store, a.request.idempotencyKey) {
        return Err(IntegrityViolation);
      }
      var job := Job(a.jobId, a.organizationId.value, a.submittedBy.value, a.request);
      var work := store.(jobs := store.jobs + [job]);
      if a.permitId.Some? {
        if a.permitId.value !in work.permits || work.permits[a.permitId.value].organizationId != a.organizationId.value
           || work.permits[a.permitId.value].sha256 != a.permitSha256.value {
          return Err(PermitNotFound);
        }
        work := work.(bindings := work.bindings[a.jobId := Binding(a.permitId.value, a.permitSha256.value)]);
      }
      store := work;
      return Ok((job, true));
    }
  }

  function Submitted(s: Store, a: Submission): (Store, Result<(Job, bool), SubmitError>) {
    if a.organizationId.None? != a.submittedBy.None? then (s, Err(ScopeInvalid))
    else if !ArgumentsPaired(a) then (s, Err(BindingInvalid))
    else
      var existing := Existing(s, a);
      if existing.Some? then
        if Replayable(s, existing.value, a) then (s, Ok((existing.value, false))) else (s, Err(IdempotencyConflict))
      else if a.organizationId.None? || IdTaken(s, a.jobId) || KeyTaken(s, a.request.idempotencyKey) then (s, Err(IntegrityViolation))
      else if !PermitMatches(s, a) then (s, Err(PermitNotFound))
      else
        var job := Job(a.jobId, a.organizationId.value, a.submittedBy.value, a.request);
        (s.(jobs := s.jobs + [job],
            bindings := if a.permitId.Some? then s.bindings[a.jobId := Binding(a.permitId.value, a.permitSha256.value)] else s.bindings),
         Ok((job, true)))
  }

  // ---- Runs ----

  /** Permits are issued between submissions; their organization and digest never change. */
  datatype Step = Submit(submission: Submission) | Issue(permitId: string, permit: Permit)

  function Next(s: Store, step: Step): Store {
    match step
    case Submit(a) => Submitted(s, a).0
    case Issue(id, p) => if id in s.permits then s else s.(permits := s.permits[id := p])
  }

  function After(s: Store, steps: seq<Step>): Store
    decreases |steps|
  {
    if |steps| == 0 then s else After(Next(s, steps[0]), steps[1..])
  }

  // ---- Invariants ----

  ghost predicate OneJobPerKey(s: Store) {
    && (forall i, j :: 0 <= i < j < |s.jobs| && s.jobs[i].request.idempotencyKey.Some?
          ==> s.jobs[i].request.idempotencyKey != s.jobs[j].request.idempotencyKey)
    && (forall i, j :: 0 <= i < j < |s.jobs| ==> s.jobs[i].jobId != s.jobs[j].jobId)
  }

  /** Every binding belongs to a job, and names a permit of that job's organization with the same digest. */
  ghost predicate BindingsSound(s: Store) {
    forall id :: id in s.bindings ==>
      && s.bindings[id].permitId in s.permits && s.permits[s.bindings[id].permitId].sha256 == s.bindings[id].sha256
      && exists i :: 0 <= i < |s.jobs| && s.jobs[i].jobId == id
                     && s.jobs[i].organizationId == s.permits[s.bindings[id].permitId].organizationId
  }

  ghost predicate Invariant(s: Store) {
    OneJobPerKey(s) && BindingsSound(s)
  }

  lemma BindingsStay(s: Store, t: Store, id: string)
    requires BindingsSound(s) && id in s.bindings && s.jobs <= t.jobs
    requires forall p :: p in s.permits ==> p in t.permits && t.permits[p] == s.permits[p]
    requires id in t.bindings && t.bindings[id] == s.bindings[id]
    ensures t.bindings[id].permitId in t.permits && t.permits[t.bindings[id].permitId].sha256 == t.bindings[id].sha256
            && exists i :: 0 <= i < |t.jobs| && t.jobs[i].jobId == id
                           && t.jobs[i].organizationId == t.permits[t.bindings[id].permitId].organizationId
  {
    var i :| 0 <= i < |s.jobs| && s.jobs[i].jobId == id
             && s.jobs[i].organizationId == s.permits[s.bindings[id].permitId].organizationId;
    assert t.jobs[i] == s.jobs[i];
  }

  lemma StepKeeps(s: Store, step: Step)
    requires Invariant(s)
    ensures Invariant(Next(s, step))
  {
    var t := Next(s, step);
    if t != s {
      assert s.jobs <= t.jobs;
      forall id | id in t.bindings
        ensures t.bindings[id].permitId in t.permits && t.permits[t.bindings[id].permitId].sha256 == t.bindings[id].sha256
                && exists i :: 0 <= i < |t.jobs| && t.jobs[i].jobId == id
                               && t.jobs[i].organizationId == t.permits[t.bindings[id].permitId].organizationId
      {
        if step.Submit? && id == step.submission.jobId && step.submission.permitId.Some? {
          assert t.jobs[|s.jobs|].jobId == id;
        } else {
          BindingsStay(s, t, id);
        }
      }
    }
  }

  lemma {:induction false} RunKeeps(s: Store, steps: seq<Step>)
    requires Invariant(s)
    ensures Invariant(After(s, steps))
    decreases |steps|
  {
    if |steps| > 0 {
      StepKeeps(s, steps[0]);
      RunKeeps(Next(s, steps[0]), steps[1..]);
    }
  }

  /** Jobs and bindings are never lost or changed. */
  ghost predicate Grows(s: Store, t: Store) {
    && s.jobs <= t.jobs && t.rowSecurity == s.rowSecurity
    && (forall i :: 0 <= i < |s.jobs| ==>
          (s.jobs[i].jobId in t.bindings <==> s.jobs[i].jobId in s.bindings)
          && (s.jobs[i].jobId in s.bindings ==> t.bindings[s.jobs[i].jobId] == s.bindings[s.jobs[i].jobId]))
  }

  lemma StepGrows(s: Store, step: Step)
    ensures Grows(s, Next(s, step))
  {
  }

  lemma {:induction false} RunGrows(s: Store, steps: seq<Step>)
    ensures Grows(s, After(s, steps))
    decreases |steps|
  {
    if |steps| > 0 {
      var t := Next(s, steps[0]);
      StepGrows(s, steps[0]);
      RunGrows(t, steps[1..]);
      assert forall i :: 0 <= i < |s.jobs| ==> t.jobs[i] == s.jobs[i];
    }
  }

  // ---- Main results ----

  /** Over every serial run of submissions and permit issues, with or without row security: at most one
      job exists per idempotency key, and every stored binding names a permit of the job's own
      organization with the same digest. */
  lemma SubmissionsStaySound(steps: seq<Step>, rowSecurity: bool)
    ensures var s := After(Store([], map[], map[], rowSecurity), steps);
            OneJobPerKey(s) && BindingsSound(s)
  {
    RunKeeps(Store([], map[], map[], rowSecurity), steps);
  }

  /** The same call, except that a fresh job id may have been drawn for it. */
  predicate SameCall(a: Submission, b: Submission) {
    b == a.(jobId := b.jobId)
  }

  lemma KeyUnique(s: Store, i: nat, j: nat)
    requires OneJobPerKey(s) && i < |s.jobs| && j < |s.jobs|
    requires s.jobs[i].request.idempotencyKey.Some? && s.jobs[i].request.idempotencyKey == s.jobs[j].request.idempotencyKey
    ensures i == j
  {
  }

  lemma FoundByKey(s: Store, a: Submission, i: nat)
    requires OneJobPerKey(s) && i < |s.jobs| && a.request.idempotencyKey.Some?
    requires s.jobs[i].request.idempotencyKey == a.request.idempotencyKey && Visible(s, s.jobs[i], a.organizationId)
    ensures Existing(s, a) == Some(s.jobs[i])
  {
    var k := FindKey(s, a.request.idempotencyKey.value, a.organizationId, 0);
    assert k <= i;
    KeyUnique(s, k, i);
  }

  /** A successful submission is answered from a stored job of the same key, which a replay accepts. */
  lemma SuccessIsStored(s: Store, a: Submission) returns (i: nat)
    requires Invariant(s) && Submitted(s, a).1.Ok? && a.request.idempotencyKey.Some?
    ensures var (t, r) := Submitted(s, a);
            && i < |t.jobs| && t.jobs[i] == r.value.0 && Visible(t, t.jobs[i], a.organizationId)
            && t.jobs[i].request.idempotencyKey == a.request.idempotencyKey && Replayable(t, t.jobs[i], a)
  {
    var t := Submitted(s, a).0;
    i := if Existing(s, a).Some? then FindKey(s, a.request.idempotencyKey.value, a.organizationId, 0) else |s.jobs|;
    assert t.jobs[i] == Submitted(s, a).1.value.0;
  }

  /** Repeating a successful keyed submission returns the same job and leaves the store as it is, whatever
      was submitted or issued in between. */
  lemma RepeatReturnsSameJob(s: Store, a: Submission, between: seq<Step>, again: Submission)
    requires Invariant(s) && Submitted(s, a).1.Ok? && a.request.idempotencyKey.Some? && SameCall(a, again)
    ensures var t := After(Submitted(s, a).0, between);
            Submitted(t, again) == (t, Ok((Submitted(s, a).1.value.0, false)))
  {
    var s1 := Submitted(s, a).0;
    StepKeeps(s, Submit(a));
    var i := SuccessIsStored(s, a);
    RunKeeps(s1, between);
    RunGrows(s1, between);
    var t := After(s1, between);
    assert t.jobs[i] == s1.jobs[i];
    FoundByKey(t, again, i);
    assert Replayable(t, t.jobs[i], again);
  }

  /** Without a key nothing is ever replayed: a call either creates a job of its own or fails. */
  lemma UnkeyedNeverReplays(s: Store, a: Submission)
    requires a.request.idempotencyKey.None? && Submitted(s, a).1.Ok?
    ensures var (t, r) := Submitted(s, a);
            r.value.1 && r.value.0.jobId == a.jobId && t.jobs == s.jobs + [r.value.0] && !IdTaken(s, a.jobId)
  {
  }

  /** The arguments come in pairs, and a permit needs an organization: the refusals before any lookup. */
  lemma ArgumentsExactly(s: Store, a: Submission)
    ensures (a.organizationId.Some? && a.submittedBy.None?) || (a.organizationId.None? && a.submittedBy.Some?)
            <==> Submitted(s, a).1 == Err(ScopeInvalid)
    ensures a.organizationId.Some? == a.submittedBy.Some?
            && (a.permitId.Some? != a.permitSha256.Some? || (a.permitId.Some? && a.organizationId.None?))
            <==> Submitted(s, a).1 == Err(BindingInvalid)
  {
  }

  /** A visible job of the key decides, by its own fields: a different request, organization, permit or
      digest is a conflict, and anything else returns that job unchanged. */
  lemma ReuseExactly(s: Store, a: Submission, i: nat)
    requires Invariant(s) && i < |s.jobs| && a.request.idempotencyKey.Some?
    requires a.organizationId.Some? == a.submittedBy.Some? && a.permitId.Some? == a.permitSha256.Some?
    requires a.permitId.Some? ==> a.organizationId.Some?
    requires s.jobs[i].request.idempotencyKey == a.request.idempotencyKey
    requires s.rowSecurity ==> a.organizationId == Some(s.jobs[i].organizationId)
    ensures var job := s.jobs[i];
            Submitted(s, a)
            == if || job.request.fingerprint != a.request.fingerprint
                  || (a.organizationId.Some? && a.organizationId.value != job.organizationId)
                  || (a.permitId.Some? && (job.jobId !in s.bindings || s.bindings[job.jobId].permitId != a.permitId.value
                                           || s.bindings[job.jobId].sha256 != a.permitSha256.value))
               then (s, Err(IdempotencyConflict)) else (s, Ok((job, false)))
  {
    FoundByKey(s, a, i);
  }

  /** Without a visible job of the key: a missing organization, a used id or a key hidden by row security
      is an integrity error; a permit that is missing, of another organization or with another digest is
      not found; otherwise the job and its binding are stored, and nothing else changes. */
  lemma FreshExactly(s: Store, a: Submission)
    requires a.organizationId.Some? == a.submittedBy.Some? && a.permitId.Some? == a.permitSha256.Some?
    requires a.permitId.Some? ==> a.organizationId.Some?
    requires a.request.idempotencyKey.Some? ==>
               forall i :: 0 <= i < |s.jobs| && s.jobs[i].request.idempotencyKey == a.request.idempotencyKey
                 ==> s.rowSecurity && a.organizationId != Some(s.jobs[i].organizationId)
    ensures var (t, r) := Submitted(s, a);
            && (r == Err(IntegrityViolation)
                <==> || a.organizationId.None?
                     || exists i :: 0 <= i < |s.jobs| && (s.jobs[i].jobId == a.jobId
                                     || (a.request.idempotencyKey.Some? && s.jobs[i].request.idempotencyKey == a.request.idempotencyKey)))
            && (r == Err(PermitNotFound)
                <==> r != Err(IntegrityViolation) && a.permitId.Some?
                     && (a.permitId.value !in s.permits || Some(s.permits[a.permitId.value].organizationId) != a.organizationId
                         || Some(s.permits[a.permitId.value].sha256) != a.permitSha256))
            && (r.Err? ==> t == s && (r.error.IntegrityViolation? || r.error.PermitNotFound?))
            && (r.Ok? ==> StoredAsNew(s, a, t, r.value))
  {
  }

  /** The new job carries the call's arguments, the binding the permit, and the rest is unchanged. */
  predicate StoredAsNew(s: Store, a: Submission, t: Store, reply: (Job, bool)) {
    var job := reply.0;
    && reply.1 && t.jobs == s.jobs + [job] && t.permits == s.permits && t.rowSecurity == s.rowSecurity
    && job.jobId == a.jobId && Some(job.organizationId) == a.organizationId && Some(job.submittedBy) == a.submittedBy
    && job.request == a.request
    && (if a.permitId.Some? && a.permitSha256.Some?
        then t.bindings == s.bindings[a.jobId := Binding(a.permitId.value, a.permitSha256.value)]
        else t.bindings == s.bindings)
  }

  /** What an answer means, by the fields: a failing submission leaves no trace; a replay returns a stored
      job of the same key and request and changes nothing; and a new job has an id and a key that no
      stored job has, is bound exactly when a permit is given, and that permit is its organization's. */
  lemma SubmitSucceedsExactly(s: Store, a: Submission)
    requires Invariant(s)
    ensures var (t, r) := Submitted(s, a);
            && (r.Err? ==> t == s)
            && (r.Ok? && !r.value.1 ==>
                  t == s && exists i :: 0 <= i < |s.jobs| && s.jobs[i] == r.value.0 && a.request.idempotencyKey.Some?
                                        && s.jobs[i].request.idempotencyKey == a.request.idempotencyKey
                                        && s.jobs[i].request.fingerprint == a.request.fingerprint)
            && (r.Ok? && r.value.1 ==>
                  && StoredAsNew(s, a, t, r.value)
                  && (forall i :: 0 <= i < |s.jobs| ==>
                        s.jobs[i].jobId != a.jobId
                        && (a.request.idempotencyKey.Some? ==> s.jobs[i].request.idempotencyKey != a.request.idempotencyKey))
                  && (a.permitId.Some? <==> a.jobId in t.bindings)
                  && (a.permitId.Some? ==> a.permitId.value in s.permits && Some(s.permits[a.permitId.value].organizationId) == a.organizationId
                                           && Some(s.permits[a.permitId.value].sha256) == a.permitSha256))
  {
    if a.jobId in s.bindings {
      var i :| 0 <= i < |s.jobs| && s.jobs[i].jobId == a.jobId
               && s.jobs[i].organizationId == s.permits[s.bindings[a.jobId].permitId].organizationId;
      assert IdTaken(s, a.jobId);
    }
  }

  /** Over every run: two successful submissions of one key, whatever came between, are answered with the
      same job, asked for the same request, and name the same organization, permit and digest where
      they name one. */
  lemma SuccessesAgree(s: Store, a: Submission, between: seq<Step>, b: Submission)
    requires Invariant(s) && Submitted(s, a).1.Ok? && a.request.idempotencyKey.Some?
    requires b.request.idempotencyKey == a.request.idempotencyKey
    requires Submitted(After(Submitted(s, a).0, between), b).1.Ok?
    ensures var first, second := Submitted(s, a).1.value.0, Submitted(After(Submitted(s, a).0, between), b).1.value;
            && second == (first, false) && a.request.fingerprint == b.request.fingerprint
            && (a.organizationId.Some? && b.organizationId.Some? ==> a.organizationId == b.organizationId)
            && (a.permitId.Some? && b.permitId.Some? ==> a.permitId == b.permitId && a.permitSha256 == b.permitSha256)
  {
    var s1 := Submitted(s, a).0;
    StepKeeps(s, Submit(a));
    var i := SuccessIsStored(s, a);
    RunKeeps(s1, between);
    RunGrows(s1, between);
    var t := After(s1, between);
    assert t.jobs[i] == s1.jobs[i];
    assert KeyTaken(t, b.request.idempotencyKey);
    var k := FindKey(t, b.request.idempotencyKey.value, b.organizationId, 0);
    assert Existing(t, b).Some?;
    KeyUnique(t, k, i);
  }

  /** A key used by another organization is refused either way: as a conflict when the row is visible, and
      by the unique index when row security hides it. */
  lemma ForeignKeyUseIsRefused(s: Store, a: Submission, i: nat)
    requires Invariant(s) && i < |s.jobs| && ArgumentsPaired(a) && a.organizationId.Some? && a.request.idempotencyKey.Some?
    requires s.jobs[i].request.idempotencyKey == a.request.idempotencyKey && s.jobs[i].organizationId != a.organizationId.value
    ensures Submitted(s, a) == (s, Err(if s.rowSecurity then IntegrityViolation else IdempotencyConflict))
  {
    if !s.rowSecurity {
      FoundByKey(s, a, i);
    } else {
      forall j: nat | j < |s.jobs| && s.jobs[j].request.idempotencyKey == a.request.idempotencyKey
        ensures !Visible(s, s.jobs[j], a.organizationId)
      {
        KeyUnique(s, j, i);
      }
      assert Existing(s, a).None?;
    }
  }
}
