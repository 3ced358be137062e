/** The process-local limiter of rate_limit.py: one (window, count) pair per key. */
module FixedWindow {
  import opened Wrappers

  datatype Entry = Entry(window: int, count: nat)

  type Table = map<string, Entry>

  datatype Decision = Decision(limit: int, remaining: int, resetAfterSeconds: int)

  /** `now // window_seconds` on a clock reading; the readings are reals. */
  function WindowOf(now: real, span: int): int
    requires span >= 1
  {
    (now / span as real).Floor
  }

  /** A reading lies in its own window. */
  lemma WindowBounds(now: real, span: int)
    requires span >= 1
    ensures var w := WindowOf(now, span); (w * span) as real <= now < ((w + 1) * span) as real
  {
    Scaled(WindowOf(now, span), now, span);
    Scaled(WindowOf(now, span) + 1, now, span);
  }

  lemma Scaled(a: int, now: real, span: int)
    requires span >= 1
    ensures a as real <= now / span as real ==> (a * span) as real <= now
    ensures now / span as real < a as real ==> now < (a * span) as real
  {
    var s, q := span as real, now / span as real;
    Quotient(now, s);
    Product(a, span);
    if a as real <= q {
      ScaleMonotone(a as real, q, s);
    } else {
      ScaleMonotone(q, a as real, s);
    }
  }

  lemma Quotient(a: real, b: real)
    requires b > 0.0
    ensures a / b * b == a
  {
  }

  lemma Product(a: int, b: int)
    ensures (a * b) as real == a as real * b as real
  {
  }

  lemma ScaleMonotone(a: real, b: real, s: real)
    requires a <= b && s > 0.0
    ensures a * s <= b * s
    ensures a < b ==> a * s < b * s
  {
    assert (b - a) * s == b * s - a * s;
  }

  /** The windows of two readings are ordered as the readings are, and two readings at most
      one span apart lie in the same or in neighbouring windows. */
  lemma WindowsOfSpan(a: real, b: real, span: int)
    requires span >= 1 && a <= b
    ensures WindowOf(a, span) <= WindowOf(b, span)
    ensures b <= a + span as real ==> WindowOf(b, span) <= WindowOf(a, span) + 1
  {
    var v, w := WindowOf(a, span), WindowOf(b, span);
    WindowBounds(a, span);
    WindowBounds(b, span);
    if w < v {
      IntScale(w + 1, v, span);
    }
    assert (v + 2) * span == (v + 1) * span + span;
    if w > v + 1 && b <= a + span as real {
      IntScale(v + 2, w, span);
    }
  }

  lemma IntScale(a: int, b: int, s: int)
    requires a <= b && s >= 1
    ensures a * s <= b * s
  {
    assert (b - a) * s >= 0;
  }

  /** `max(1, int((window + 1) * window_seconds - now))`: at least a second, at most the window, and within
      one second of the window's end, past it only when less than a second is left. */
  function ResetAfter(now: real, span: int): (r: int)
    requires span >= 1
    ensures 1 <= r <= span
    ensures var end := ((WindowOf(now, span) + 1) * span) as real;
            end - 1.0 < now + r as real < end + 1.0 && (r > 1 ==> now + r as real <= end)
  {
    var w := WindowOf(now, span);
    var left := (((w + 1) * span) as real - now).Floor;
    WindowBounds(now, span);
    assert (w + 1) * span == w * span + span;
    if left < 1 then 1 else left
  }

  /** How many reservations the pair stored for `key` counts in window `w`. */
  function Loaded(t: Table, key: string, w: int): nat {
    if key in t && t[key].window == w then t[key].count else 0
  }

  /** `check` as a table transformation: refused checks write nothing, and a check from any other
      window restarts the pair. */
  function Reserved(t: Table, limit: int, key: string, w: int): Table {
    if Loaded(t, key, w) >= limit then t else t[key := Entry(w, Loaded(t, key, w) + 1)]
  }

  /** `release` as a table transformation. */
  function Released(t: Table, key: string, w: int): Table {
    if key !in t || t[key].window != w then t
    else if t[key].count <= 1 then t - {key}
    else t[key := Entry(w, t[key].count - 1)]
  }

  class FixedWindowRateLimiter {
    const requests: int
    const windowSeconds: int
    var windows: Table

    ghost predicate Valid() {
      requests >= 1 && windowSeconds >= 1
    }

    constructor (requests: int, windowSeconds: int)
      ensures this.requests == requests && this.windowSeconds == windowSeconds && windows == map[]
    {
      this.requests, this.windowSeconds, windows := requests, windowSeconds, map[];
    }

    method Release(key: string, now: real)
      requires Valid()
      modifies this`windows
      ensures windows == Released(old(windows), key, WindowOf(now, windowSeconds))
      ensures forall k :: k in old(windows) && (k != key || old(windows)[k].window != WindowOf(now, windowSeconds))
                ==> k in windows && windows[k] == old(windows)[k]
      ensures forall k :: k in windows ==> k in old(windows)
      ensures key in old(windows) && old(windows)[key].window == WindowOf(now, windowSeconds) ==>
                Loaded(windows, key, WindowOf(now, windowSeconds)) == (if old(windows)[key].count == 0 then 0 else old(windows)[key].count - 1)
    {
      var window := WindowOf(now, windowSeconds);
      if key !in windows {
        return;
      }
      var Entry(currentWindow, count) := windows[key];
      if currentWindow != window {
        return;
      }
      if count <= 1 {
        windows := windows - {key};
      } else {
        windows := windows[key := Entry(currentWindow, count - 1)];
      }
    }

    /** `Err` carries the retry delay of the rate-limit error. */
    method Check(key: string, now: real) returns (r: Result<Decision, int>)
      requires Valid()
      modifies this`windows
      ensures var w := WindowOf(now, windowSeconds);
              && (r.Err? <==> key in old(windows) && old(windows)[key].window == w && old(windows)[key].count >= requests)
              && (r.Err? ==> windows == old(windows))
              && (r.Ok? ==> windows == old(windows)[key := Entry(w, (if key in old(windows) && old(windows)[key].window == w
                                                                       then old(windows)[key].count else 0) + 1)])
      ensures windows == Reserved(old(windows), requests, key, WindowOf(now, windowSeconds))
      ensures r.Ok? <==> Loaded(old(windows), key, WindowOf(now, windowSeconds)) < requests
      ensures r.Ok? ==> r.value.limit == requests
                        && r.value.remaining == requests - Loaded(windows, key, WindowOf(now, windowSeconds))
                        && 0 <= r.value.remaining < requests
                        && r.value.resetAfterSeconds == ResetAfter(now, windowSeconds)
      ensures r.Err? ==> r.error == ResetAfter(now, windowSeconds)
    {
      var window := WindowOf(now, windowSeconds);
      var currentWindow, count := window, 0;
      if key in windows {
        currentWindow, count := windows[key].window, windows[key].count;
      }
      if currentWindow != window {
        currentWindow, count := window, 0;
      }
      if count >= requests {
        return Err(ResetAfter(now, windowSeconds));
      }
      count := count + 1;
      windows := windows[key := Entry(currentWindow, count)];
      return Ok(Decision(requests, requests - count, ResetAfter(now, windowSeconds)));
    }
  }

  /** The constructor's argument check, with its `ValueError` as `None`. */
  method NewLimiter(requests: int, windowSeconds: int) returns (r: Option<FixedWindowRateLimiter>)
    ensures r.Some? <==> requests >= 1 && windowSeconds >= 1
    ensures r.Some? ==> fresh(r.value) && r.value.Valid() && r.value.windows == map[]
                        && r.value.requests == requests && r.value.windowSeconds == windowSeconds
  {
    if requests < 1 || windowSeconds < 1 {
      return None;
    }
    var limiter := new FixedWindowRateLimiter(requests, windowSeconds);
    return Some(limiter);
  }

  /** A refund undoes its own reservation: the window's load is what it was, and no other
      key's pair has moved. */
  lemma RefundUndoesReserve(t: Table, limit: int, key: string, w: int, other: string, v: int)
    requires Loaded(t, key, w) < limit
    ensures var u := Released(Reserved(t, limit, key, w), key, w);
            && Loaded(u, key, w) == Loaded(t, key, w)
            && (other != key ==> Loaded(u, other, v) == Loaded(t, other, v))
            && (key in t && t[key].window == w && t[key].count >= 1 ==> u == t)
  {
    var u := Released(Reserved(t, limit, key, w), key, w);
    if key in t && t[key].window == w && t[key].count >= 1 {
      assert u[key] == t[key];
      assert u == t;
    }
  }
}
