/** One authentication request of http_api.py, from its headers to its quota decision. */
module Authenticate {
  import opened Wrappers
  import opened FixedWindow
  import Tokens
  import P = AuthProtocol

  // ---- Failure buckets ----

  const TOKEN_PREFIX := "wgt"
  const TOKEN_BUCKET := "auth-failure-token:"
  const PEER_BUCKET := "auth-failure-peer:"
  const SESSION_BUCKET := "auth-failure-session-peer:"

  /** The characters `str.strip` removes. */
  predicate IsSpace(c: char) {
    || '\U{9}' <= c <= '\U{D}' || '\U{1C}' <= c <= ' ' || c == '\U{85}' || c == '\U{A0}' || c == '\U{1680}'
    || '\U{2000}' <= c <= '\U{200A}' || c == '\U{2028}' || c == '\U{2029}' || c == '\U{202F}' || c == '\U{205F}' || c == '\U{3000}'
  }

  predicate IsStripped(s: string) {
    |s| > 0 ==> !IsSpace(s[0]) && !IsSpace(s[|s| - 1])
  }

  function Lower(s: string): (t: string)
    ensures |t| == |s|
  {
    seq(|s|, i requires 0 <= i < |s| => if 'A' <= s[i] <= 'Z' then (s[i] as int + 32) as char else s[i])
  }

  /** The token of a single well-formed bearer header: `value.partition(" ")` and its checks. */
  function BearerToken(headers: seq<string>): Option<string> {
    if |headers| != 1 then None
    else
      var value := headers[0];
      var i := Tokens.IndexOf(value, ' ');
      if i == |value| || Lower(value[..i]) != "bearer" then None
      else
        var token := value[i + 1..];
        if token == "" || !IsStripped(token) then None else Some(token)
  }

  /** `_authentication_failure_key`: the bucket of the claimed token id, or of the peer address. */
  function FailureKey(headers: seq<string>, peer: string): string {
    match BearerToken(headers)
    case None => PEER_BUCKET + peer
    case Some(token) =>
      match Tokens.ParseToken(TOKEN_PREFIX, token)
      case None => PEER_BUCKET + peer
      case Some((id, _)) => TOKEN_BUCKET + id
  }

  lemma LowerIsBearer(s: string)
    ensures Lower(s) == "bearer"
       <==> |s| == 6 && s[0] in {'b', 'B'} && s[1] in {'e', 'E'} && s[2] in {'a', 'A'} && s[3] in {'r', 'R'} && s[4] in {'e', 'E'} && s[5] in {'r', 'R'}
  {
    var t := Lower(s);
    if |s| == 6 {
      assert t == [t[0], t[1], t[2], t[3], t[4], t[5]];
    }
  }

  /** A header that claims the token id: any spelling of the scheme, one space, and a printed token of the
      API prefix with a non-empty secret that does not end in white space. */
  ghost predicate Claims(header: string, id: string, scheme: string, secret: string) {
    && header == scheme + " " + Tokens.PrintToken("wgt", id, secret)
    && ' ' !in scheme && Lower(scheme) == "bearer"
    && Tokens.IsCanonicalUuid(id) && secret != "" && !IsSpace(secret[|secret| - 1])
  }

  /** The bucket never depends on the secret: two well-formed headers for one token id share it,
      wherever they come from. */
  lemma BucketIsSecretFree(scheme: string, id: string, secret: string, peer: string)
    requires ' ' !in scheme && Lower(scheme) == "bearer"
    requires Tokens.IsCanonicalUuid(id) && secret != "" && !IsSpace(secret[|secret| - 1])
    ensures FailureKey([scheme + " " + Tokens.PrintToken(TOKEN_PREFIX, id, secret)], peer) == "auth-failure-token:" + id
  {
    var token := Tokens.PrintToken(TOKEN_PREFIX, id, secret);
    var value := scheme + " " + token;
    Tokens.IndexOfConcat(scheme, ' ', token);
    assert value == scheme + [' '] + token;
    assert value[..|scheme|] == scheme && value[|scheme| + 1..] == token;
    assert token[0] == 'w' && token[|token| - 1] == secret[|secret| - 1];
    Tokens.ParsePrint(TOKEN_PREFIX, id, secret);
  }

  lemma ClaimedByHeader(headers: seq<string>, token: string, id: string, secret: string)
    requires BearerToken(headers) == Some(token) && Tokens.ParseToken(TOKEN_PREFIX, token) == Some((id, secret))
    ensures |headers| == 1 && Claims(headers[0], id, headers[0][..Tokens.IndexOf(headers[0], ' ')], secret)
  {
    var value := headers[0];
    var i := Tokens.IndexOf(value, ' ');
    Tokens.CutAt(value, i);
    Tokens.IndexOfIsFirst(value, ' ');
    Tokens.PrintParse(TOKEN_PREFIX, token);
    assert token[|token| - 1] == secret[|secret| - 1];
    assert value == value[..i] + " " + token;
  }

  /** The bucket, exactly: the claimed token id's when there is one header and it claims an id, and the
      peer's in every other case. */
  lemma BucketExactly(headers: seq<string>, peer: string)
    ensures if exists id, scheme, secret :: |headers| == 1 && Claims(headers[0], id, scheme, secret)
            then exists id, scheme, secret :: Claims(headers[0], id, scheme, secret) && FailureKey(headers, peer) == "auth-failure-token:" + id
            else FailureKey(headers, peer) == "auth-failure-peer:" + peer
  {
    if exists id, scheme, secret :: |headers| == 1 && Claims(headers[0], id, scheme, secret) {
      var id, scheme, secret :| |headers| == 1 && Claims(headers[0], id, scheme, secret);
      BucketIsSecretFree(scheme, id, secret, peer);
      assert headers == [headers[0]];
    } else if BearerToken(headers).Some? && Tokens.ParseToken(TOKEN_PREFIX, BearerToken(headers).value).Some? {
      var (id, secret) := Tokens.ParseToken(TOKEN_PREFIX, BearerToken(headers).value).value;
      ClaimedByHeader(headers, BearerToken(headers).value, id, secret);
    }
  }

  /** Different peers and different token ids never share a bucket. */
  lemma BucketsAreInjective(a: string, b: string)
    ensures PEER_BUCKET + a == PEER_BUCKET + b <==> a == b
    ensures TOKEN_BUCKET + a == TOKEN_BUCKET + b <==> a == b
    ensures SESSION_BUCKET + a == SESSION_BUCKET + b <==> a == b
  {
    assert (PEER_BUCKET + a)[|PEER_BUCKET|..] == a && (PEER_BUCKET + b)[|PEER_BUCKET|..] == b;
    assert (TOKEN_BUCKET + a)[|TOKEN_BUCKET|..] == a && (TOKEN_BUCKET + b)[|TOKEN_BUCKET|..] == b;
    assert (SESSION_BUCKET + a)[|SESSION_BUCKET|..] == a && (SESSION_BUCKET + b)[|SESSION_BUCKET|..] == b;
  }

  predicate StartsWith(s: string, prefix: string) {
    |s| >= |prefix| && s[..|prefix|] == prefix
  }

  /** The three failure buckets are disjoint from one another and from every quota key, which is a
      canonical UUID; so a quota charge never touches a failure bucket. */
  lemma BucketsAreDisjoint(headers: seq<string>, peer: string, sessionPeer: string, quota: string)
    requires Tokens.IsCanonicalUuid(quota)
    ensures FailureKey(headers, peer) != SESSION_BUCKET + sessionPeer
    ensures FailureKey(headers, peer) != quota && SESSION_BUCKET + sessionPeer != quota
    ensures StartsWith(FailureKey(headers, peer), TOKEN_BUCKET) <==> !StartsWith(FailureKey(headers, peer), PEER_BUCKET)
  {
    var key, session := FailureKey(headers, peer), SESSION_BUCKET + sessionPeer;
    assert session[13] == 's' && session[1] == 'u';
    assert key[1] == 'u' && (key[13] == 't' || key[13] == 'p');
    assert Tokens.IsHex(quota[1]);
    assert (TOKEN_BUCKET + key)[13] == 't';
    assert StartsWith(key, TOKEN_BUCKET) ==> key[13] == key[..|TOKEN_BUCKET|][13] == TOKEN_BUCKET[13];
    assert StartsWith(key, PEER_BUCKET) ==> key[13] == key[..|PEER_BUCKET|][13] == PEER_BUCKET[13];
  }

  // ---- One request, alone on the limiter ----

  datatype Outcome =
    | Limited(retryAfter: int)          // refused before any verification
    | Rejected                          // verification failed
    | QuotaLimited(retryAfter: int)     // verified, but the token's own quota is exhausted
    | Admitted(decision: Decision)

  /** `_authenticate` with the verification result as a parameter: the token id of a verified
      credential, or `None` for an authentication error. The clock is read once. */
  method AuthenticateRequest(limiter: FixedWindowRateLimiter, failureKey: string, now: real, verified: Option<string>)
    returns (r: Outcome)
    requires limiter.Valid()
    modifies limiter`windows
    ensures var c := P.Config(limiter.requests, limiter.windowSeconds);
            var s := P.State(old(limiter.windows), []);
            var w := WindowOf(now, limiter.windowSeconds);
            && (r.Limited? <==> Loaded(s.table, failureKey, w) >= limiter.requests)
            && (r.Limited? ==> limiter.windows == s.table)
            && (r.Rejected? <==> !r.Limited? && verified.None?)
            && (r.Rejected? ==> P.IsRun(c, s, [P.Reserve(failureKey, now), P.Reject(0)])
                                && limiter.windows == P.After(c, s, [P.Reserve(failureKey, now), P.Reject(0)]).table
                                && Loaded(limiter.windows, failureKey, w) == Loaded(s.table, failureKey, w) + 1)
            && (r.QuotaLimited? || r.Admitted? ==>
                  verified.Some?
                  && var run := [P.Reserve(failureKey, now), P.Refund(0), P.Charge(verified.value, now)];
                  && P.IsRun(c, s, run)
                  && limiter.windows == P.After(c, s, run).table
                  && (verified.value != failureKey ==>
                        && Loaded(limiter.windows, failureKey, w) == Loaded(s.table, failureKey, w)
                        && (r.Admitted? <==> Loaded(s.table, verified.value, w) < limiter.requests)))
    ensures r.Limited? || r.QuotaLimited? ==> r.retryAfter == ResetAfter(now, limiter.windowSeconds)
    ensures r.Admitted? ==> verified.Some?
                            && r.decision.limit == limiter.requests && r.decision.resetAfterSeconds == ResetAfter(now, limiter.windowSeconds)
                            && r.decision.remaining == limiter.requests - Loaded(limiter.windows, verified.value, WindowOf(now, limiter.windowSeconds))
                            && Loaded(limiter.windows, verified.value, WindowOf(now, limiter.windowSeconds)) >= 1
  {
    ghost var c := P.Config(limiter.requests, limiter.windowSeconds);
    ghost var s := P.State(limiter.windows, []);
    var reservation := limiter.Check(failureKey, now);
    if reservation.Err? {
      return Limited(reservation.error);
    }
    ghost var s1 := P.Next(c, s, P.Reserve(failureKey, now));
    if verified.None? {
      P.RunCons(c, s1, P.Reject(0), []);
      P.RunCons(c, s, P.Reserve(failureKey, now), [P.Reject(0)]);
      assert [P.Reserve(failureKey, now)] + [P.Reject(0)] == [P.Reserve(failureKey, now), P.Reject(0)];
      return Rejected;
    }
    limiter.Release(failureKey, now);
    ghost var s2 := P.Next(c, s1, P.Refund(0));
    assert limiter.windows == s2.table;
    RefundUndoesReserve(s.table, c.limit, failureKey, WindowOf(now, c.span), verified.value, WindowOf(now, c.span));
    var decision := limiter.Check(verified.value, now);
    P.RunCons(c, s2, P.Charge(verified.value, now), []);
    P.RunCons(c, s1, P.Refund(0), [P.Charge(verified.value, now)]);
    P.RunCons(c, s, P.Reserve(failureKey, now), [P.Refund(0), P.Charge(verified.value, now)]);
    assert [P.Refund(0)] + [P.Charge(verified.value, now)] == [P.Refund(0), P.Charge(verified.value, now)];
    assert [P.Reserve(failureKey, now)] + [P.Refund(0), P.Charge(verified.value, now)]
        == [P.Reserve(failureKey, now), P.Refund(0), P.Charge(verified.value, now)];
    if decision.Err? {
      return QuotaLimited(decision.error);
    }
    return Admitted(decision.value);
  }
}
