/** The per-client fixed-window rate limiter inside `make_app` of
    gateway/src/basedai_gateway/server.py. */
module RateLimiter {

  datatype Window = Window(start: int, count: nat)

  datatype Request = Request(ip: string, now: int)

  datatype Limits = Limits(limit: int := 240, window: int := 60)

  /** Decision and new entry for one request. */
  function Admit(l: Limits, w: Window, now: int): (bool, Window) {
    if now - w.start >= l.window then (true, Window(now, 1))
    else if w.count >= l.limit then (false, w)
    else (true, Window(w.start, w.count + 1))
  }

  function EntryOf(hits: map<string, Window>, ip: string): Window {
    if ip in hits then hits[ip] else Window(0, 0)
  }

  class Limiter {
    const limits: Limits
    var hits: map<string, Window>

    constructor (limits: Limits)
      ensures this.limits == limits && hits == map[]
    {
      this.limits := limits;
      hits := map[];
    }

    /** The entry of a client exists from its first request on. */
    method Handle(ip: string, now: int) returns (accepted: bool)
      modifies this
      ensures accepted == Admit(limits, EntryOf(old(hits), ip), now).0
      ensures hits == old(hits)[ip := Admit(limits, EntryOf(old(hits), ip), now).1]
    {
      if ip !in hits {
        hits := hits[ip := Window(0, 0)];
      }
      var w := hits[ip];
      if now - w.start >= limits.window {
        hits := hits[ip := Window(now, 1)];
      } else {
        if w.count >= limits.limit {
          return false;
        }
        hits := hits[ip := Window(w.start, w.count + 1)];
      }
      return true;
    }
  }

  // ----- runs

  function Run(l: Limits, requests: seq<Request>): map<string, Window> {
    if requests == [] then map[]
    else
      var before, r := Run(l, requests[..|requests| - 1]), requests[|requests| - 1];
      before[r.ip := Admit(l, EntryOf(before, r.ip), r.now).1]
  }

  /** The times of one client's requests. */
  function TimesOf(requests: seq<Request>, ip: string): seq<int> {
    if requests == [] then []
    else
      var r := requests[|requests| - 1];
      TimesOf(requests[..|requests| - 1], ip) + if r.ip == ip then [r.now] else []
  }

  /** The entry of a client that makes requests at these times. */
  function Serve(l: Limits, times: seq<int>): Window {
    if times == [] then Window(0, 0)
    else Admit(l, Serve(l, times[..|times| - 1]), times[|times| - 1]).1
  }

  /** Clients do not influence each other. */
  lemma {:induction false} ClientsAreIsolated(l: Limits, requests: seq<Request>, ip: string)
    ensures EntryOf(Run(l, requests), ip) == Serve(l, TimesOf(requests, ip))
  {
    if requests != [] {
      var before, r := requests[..|requests| - 1], requests[|requests| - 1];
      ClientsAreIsolated(l, before, ip);
      if r.ip == ip {
        assert (TimesOf(before, ip) + [r.now])[..|TimesOf(before, ip)|] == TimesOf(before, ip);
      } else {
        assert TimesOf(requests, ip) == TimesOf(before, ip);
      }
    }
  }

  predicate AcceptedNext(l: Limits, times: seq<int>, now: int) {
    Admit(l, Serve(l, times), now).0
  }

  /** How many accepted requests fall into `[a, a + window)`. */
  function AcceptedIn(l: Limits, times: seq<int>, a: int): nat {
    if times == [] then 0
    else
      var before, now := times[..|times| - 1], times[|times| - 1];
      AcceptedIn(l, before, a) + if a <= now < a + l.window && AcceptedNext(l, before, now) then 1 else 0
  }

  ghost predicate Nondecreasing(times: seq<int>) {
    forall i, j :: 0 <= i < j < |times| ==> times[i] <= times[j]
  }

  lemma ServeSnoc(l: Limits, times: seq<int>, now: int, a: int)
    ensures Serve(l, times + [now]) == Admit(l, Serve(l, times), now).1
    ensures AcceptedIn(l, times + [now], a)
         == AcceptedIn(l, times, a) + if a <= now < a + l.window && AcceptedNext(l, times, now) then 1 else 0
  {}

  /** Accepted requests of one client among all, decided by the shared table. */
  function AcceptedFrom(l: Limits, requests: seq<Request>, ip: string, a: int): nat {
    if requests == [] then 0
    else
      var before, r := requests[..|requests| - 1], requests[|requests| - 1];
      AcceptedFrom(l, before, ip, a)
      + if r.ip == ip && a <= r.now < a + l.window && Admit(l, EntryOf(Run(l, before), ip), r.now).0 then 1 else 0
  }

  lemma {:induction false} AcceptedFromIsolated(l: Limits, requests: seq<Request>, ip: string, a: int)
    ensures AcceptedFrom(l, requests, ip, a) == AcceptedIn(l, TimesOf(requests, ip), a)
  {
    if requests != [] {
      var before, r := requests[..|requests| - 1], requests[|requests| - 1];
      AcceptedFromIsolated(l, before, ip, a);
      ClientsAreIsolated(l, before, ip);
      if r.ip == ip {
        ServeSnoc(l, TimesOf(before, ip), r.now, a);
      } else {
        assert TimesOf(requests, ip) == TimesOf(before, ip);
      }
    }
  }

  lemma {:induction false} TimesOfBounds(requests: seq<Request>, ip: string, lo: int, hi: int)
    requires forall i :: 0 <= i < |requests| ==> lo <= requests[i].now <= hi
    requires forall i, j :: 0 <= i < j < |requests| ==> requests[i].now <= requests[j].now
    ensures Nondecreasing(TimesOf(requests, ip))
    ensures forall i :: 0 <= i < |TimesOf(requests, ip)| ==> lo <= TimesOf(requests, ip)[i] <= hi
  {
    if requests != [] {
      TimesOfBounds(requests[..|requests| - 1], ip, lo, requests[|requests| - 1].now);
    }
  }

  // ----- the bound

  lemma {:induction false} NoneBefore(l: Limits, times: seq<int>, a: int)
    requires forall i :: 0 <= i < |times| ==> times[i] < a
    ensures AcceptedIn(l, times, a) == 0
  {
    if times != [] {
      NoneBefore(l, times[..|times| - 1], a);
    }
  }

  /** The bound for the interval from `a` on, as it depends on where the current window
      lies; `k` is 1 if every window starts with an accepted request. */
  ghost predicate Within(l: Limits, times: seq<int>, a: int, k: int)
    requires times != []
  {
    var w, n := Serve(l, times), AcceptedIn(l, times, a);
    && 1 <= w.count <= l.limit && w.start <= times[|times| - 1]
    && (a > w.start ==> n <= w.count - k)
    && (a <= w.start < a + l.window ==> n <= l.limit - k + w.count)
    && n <= 2 * l.limit - k
  }

  lemma WithinStep(l: Limits, times: seq<int>, now: int, a: int, k: int)
    requires l.limit >= 1 && 0 <= k <= 1 && times != []
    requires Within(l, times, a, k) && Nondecreasing(times + [now])
    ensures Within(l, times + [now], a, k)
  {
    ServeSnoc(l, times, now, a);
    var all := times + [now];
    assert all[|times| - 1] == times[|times| - 1] && all[|times|] == now;
    if a > now {
      forall i | 0 <= i < |all|
        ensures all[i] < a
      {
        assert i < |times| ==> all[i] <= all[|times|];
      }
      NoneBefore(l, all, a);
    }
  }

  lemma WithinOne(l: Limits, now: int, a: int, k: int)
    requires l.limit >= 1 && 0 <= k <= 1
    requires now >= if k == 1 then l.window else 0
    ensures Within(l, [now], a, k)
  {}

  lemma {:induction false} AlwaysWithin(l: Limits, times: seq<int>, a: int, k: int)
    requires l.limit >= 1 && 0 <= k <= 1 && times != [] && Nondecreasing(times)
    requires times[0] >= if k == 1 then l.window else 0
    ensures Within(l, times, a, k)
  {
    var before, now := times[..|times| - 1], times[|times| - 1];
    assert times == before + [now];
    if before == [] {
      assert times == [now];
      WithinOne(l, now, a, k);
    } else {
      AlwaysWithin(l, before, a, k);
      WithinStep(l, before, now, a, k);
    }
  }

  lemma TimesBound(l: Limits, times: seq<int>, a: int)
    requires l.limit >= 1 && Nondecreasing(times)
    requires times != [] ==> times[0] >= 0
    ensures AcceptedIn(l, times, a) <= 2 * l.limit
    ensures (times != [] ==> times[0] >= l.window) ==> AcceptedIn(l, times, a) <= 2 * l.limit - 1
  {
    if times != [] {
      AlwaysWithin(l, times, a, 0);
      if times[0] >= l.window {
        AlwaysWithin(l, times, a, 1);
      }
    }
  }

  /** In every run with a clock that never goes back, any interval as long as the window
      holds at most `2 * limit` accepted requests of one client, and one less if the
      clock starts at or after the window length. */
  lemma RateBound(l: Limits, requests: seq<Request>, ip: string, a: int, start: int)
    requires l.limit >= 1 && start >= 0
    requires forall i :: 0 <= i < |requests| ==> requests[i].now >= start
    requires forall i, j :: 0 <= i < j < |requests| ==> requests[i].now <= requests[j].now
    ensures AcceptedFrom(l, requests, ip, a) <= 2 * l.limit
    ensures start >= l.window ==> AcceptedFrom(l, requests, ip, a) <= 2 * l.limit - 1
  {
    AcceptedFromIsolated(l, requests, ip, a);
    if requests != [] {
      TimesOfBounds(requests, ip, start, requests[|requests| - 1].now);
      TimesBound(l, TimesOf(requests, ip), a);
    }
  }

  // ----- nobody is turned away too early

  /** Nothing is ever accepted at or after the end of the current window. */
  lemma {:induction false} NoneAfterWindow(l: Limits, times: seq<int>, a: int)
    requires l.window > 0 && a >= Serve(l, times).start + l.window
    ensures AcceptedIn(l, times, a) == 0
  {
    if times != [] {
      NoneAfterWindow(l, times[..|times| - 1], a);
    }
  }

  /** The counter is the number of requests accepted since the window started, also when
      that is the window nobody opened, which starts at zero. */
  lemma {:induction false} CounterIsExact(l: Limits, times: seq<int>)
    requires l.window > 0 && times != [] && Nondecreasing(times) && times[0] >= 0
    ensures Serve(l, times).start <= times[|times| - 1]
    ensures AcceptedIn(l, times, Serve(l, times).start) == Serve(l, times).count
  {
    var before, now := times[..|times| - 1], times[|times| - 1];
    assert times == before + [now];
    if before == [] {
      ServeSnoc(l, before, now, now);
      ServeSnoc(l, before, now, 0);
    } else {
      CounterIsExact(l, before);
      var w := Serve(l, before);
      if now - w.start >= l.window {
        NoneAfterWindow(l, before, now);
        ServeSnoc(l, before, now, now);
      } else {
        assert before[|before| - 1] <= now;
        ServeSnoc(l, before, now, w.start);
      }
    }
  }

  /** A request is refused exactly when the current window is still open and `limit`
      requests have been accepted since it started. */
  lemma RefusedExactlyWhenFull(l: Limits, times: seq<int>, now: int)
    requires l.window > 0 && l.limit >= 1 && Nondecreasing(times + [now])
    requires (times + [now])[0] >= 0
    ensures !AcceptedNext(l, times, now)
            <==> now < Serve(l, times).start + l.window && AcceptedIn(l, times, Serve(l, times).start) >= l.limit
    ensures times != [] ==> Serve(l, times).start <= now
  {
    if times != [] {
      assert times == (times + [now])[..|times|];
      assert (times + [now])[|times| - 1] == times[|times| - 1] <= (times + [now])[|times|];
      CounterIsExact(l, times);
    }
  }

  /** Request `i` found the window before it run out and opened one that is still open. */
  ghost predicate Opens(l: Limits, times: seq<int>, i: nat) {
    && i < |times| && times[i] >= Serve(l, times[..i]).start + l.window
    && forall j :: i < j < |times| ==> times[j] < times[i] + l.window
  }

  lemma OpensNow(l: Limits, times: seq<int>, now: int)
    requires now >= Serve(l, times).start + l.window
    ensures Opens(l, times + [now], |times|)
  {
    assert (times + [now])[..|times|] == times;
  }

  lemma StaysOpen(l: Limits, times: seq<int>, now: int, i: nat)
    requires Opens(l, times, i) && now < times[i] + l.window
    ensures Opens(l, times + [now], i)
  {
    assert (times + [now])[..i] == times[..i];
  }

  /** The window starts with the request that opened it; as long as there is none, it starts
      at zero. */
  lemma {:induction false} WindowStarts(l: Limits, times: seq<int>) returns (i: nat)
    ensures i < |times| ==> Opens(l, times, i) && Serve(l, times).start == times[i]
    ensures i >= |times| ==> Serve(l, times).start == 0 && forall j :: 0 <= j < |times| ==> times[j] < l.window
  {
    i := 0;
    if times != [] {
      var n := |times| - 1;
      var before, now := times[..n], times[n];
      assert times == before + [now];
      i := WindowStarts(l, before);
      if now - Serve(l, before).start >= l.window {
        OpensNow(l, before, now);
        i := n;
      } else if i < n {
        StaysOpen(l, before, now, i);
      } else {
        i := |times|;
      }
    }
  }

  /** With the default limits a client gets at most 480 requests through in any 60 units of
      time, and 479 if the clock starts at 60 or later. */
  lemma DefaultRateBound(requests: seq<Request>, ip: string, a: int, start: int)
    requires start >= 0
    requires forall i :: 0 <= i < |requests| ==> requests[i].now >= start
    requires forall i, j :: 0 <= i < j < |requests| ==> requests[i].now <= requests[j].now
    ensures Limits().window == 60
    ensures AcceptedFrom(Limits(), requests, ip, a) <= if start >= 60 then 479 else 480
  {
    RateBound(Limits(), requests, ip, a, start);
  }

  // ----- the bounds are reached

  function Repeat(t: int, n: nat): seq<int> {
    if n == 0 then [] else Repeat(t, n - 1) + [t]
  }

  /** After requests at these times the entry is `w`, and `n` of them that fell into
      `[a, a + window)` were accepted. */
  ghost predicate Stands(l: Limits, times: seq<int>, a: int, w: Window, n: nat) {
    Serve(l, times) == w && AcceptedIn(l, times, a) == n
  }

  lemma OneAdmitted(l: Limits, times: seq<int>, now: int, a: int, w: Window, n: nat)
    requires Stands(l, times, a, w, n) && now - w.start < l.window && w.count < l.limit
    requires a <= now < a + l.window
    ensures Stands(l, times + [now], a, Window(w.start, w.count + 1), n + 1)
  {
    ServeSnoc(l, times, now, a);
  }

  lemma OneOpens(l: Limits, times: seq<int>, now: int, a: int, w: Window, n: nat)
    requires Stands(l, times, a, w, n) && now - w.start >= l.window
    ensures Stands(l, times + [now], a, Window(now, 1), if a <= now < a + l.window then n + 1 else n)
  {
    ServeSnoc(l, times, now, a);
  }

  /** A burst at one moment inside the open window is accepted as far as the limit goes. */
  lemma {:induction false} Burst(l: Limits, times: seq<int>, t: int, k: nat, a: int, w: Window, n: nat)
    requires Stands(l, times, a, w, n) && t - w.start < l.window && w.count + k <= l.limit
    requires a <= t < a + l.window
    ensures Stands(l, times + Repeat(t, k), a, Window(w.start, w.count + k), n + k)
  {
    if k == 0 {
      assert times + [] == times;
    } else {
      Burst(l, times, t, k - 1, a, w, n);
      OneAdmitted(l, times + Repeat(t, k - 1), t, a, Window(w.start, w.count + k - 1), n + k - 1);
      assert times + Repeat(t, k) == times + Repeat(t, k - 1) + [t];
    }
  }

  /** `limit` requests at the moment at which the last window has run out. */
  function FullBurst(l: Limits, t: int): seq<int>
    requires l.limit >= 1
  {
    [t] + Repeat(t, l.limit - 1)
  }

  lemma FullBurstAccepted(l: Limits, times: seq<int>, t: int, a: int, w: Window, n: nat)
    requires l.limit >= 1 && l.window >= 1
    requires Stands(l, times, a, w, n) && t - w.start >= l.window
    requires a <= t < a + l.window
    ensures AcceptedIn(l, times + FullBurst(l, t), a) == n + l.limit
  {
    OneOpens(l, times, t, a, w, n);
    Burst(l, times + [t], t, l.limit - 1, a, Window(t, 1), n + 1);
    assert times + FullBurst(l, t) == times + [t] + Repeat(t, l.limit - 1);
  }

  /** One request opens a window at `t`, `limit - 1` follow in its last moment, and
      `limit` more when the next one opens: `2 * limit - 1` within one window length. */
  lemma BoundIsReached(l: Limits, t: int)
    requires l.limit >= 1 && l.window >= 2 && t >= l.window
    ensures var end := t + l.window;
            AcceptedIn(l, [t] + Repeat(end - 1, l.limit - 1) + FullBurst(l, end), end - 1) == 2 * l.limit - 1
  {
    var end := t + l.window;
    assert [] + [t] == [t];
    OneOpens(l, [], t, end - 1, Window(0, 0), 0);
    Burst(l, [t], end - 1, l.limit - 1, end - 1, Window(t, 1), 0);
    FullBurstAccepted(l, [t] + Repeat(end - 1, l.limit - 1), end, end - 1, Window(t, l.limit), l.limit - 1);
  }

  /** With a clock that starts just before the window length the weaker bound is reached:
      the entry a new client starts from acts as a window nobody opened. */
  lemma EarlyClockReachesTwiceTheLimit(l: Limits)
    requires l.limit >= 1 && l.window >= 2
    ensures AcceptedIn(l, Repeat(l.window - 1, l.limit) + FullBurst(l, l.window), l.window - 1) == 2 * l.limit
  {
    var first := Repeat(l.window - 1, l.limit);
    assert [] + first == first;
    Burst(l, [], l.window - 1, l.limit, l.window - 1, Window(0, 0), 0);
    FullBurstAccepted(l, first, l.window, l.window - 1, Window(0, l.limit), l.limit);
  }
}
