/**
 * Arithmetic over whole traces of one key: how many requests any time span can admit, and what a
 * Retry-After answer promises (section 10.2.3 of RFC 9110).
 */
module RateLimitBounds {
  import opened Wrappers
  import opened RateLimiter

  predicate Sorted(times: seq<int>) {
    forall i, j | 0 <= i < j < |times| :: times[i] <= times[j]
  }

  function EntryAfter(e: Option<Entry>, limit: int, windowMs: int, t: int): Entry {
    Decide(e, limit, windowMs, t).0
  }

  predicate Admits(e: Option<Entry>, limit: int, windowMs: int, t: int) {
    Decide(e, limit, windowMs, t).1.Accepted?
  }

  /** How many of the requests at these times are accepted within [lo, hi). */
  function AcceptedWithin(e: Option<Entry>, limit: int, windowMs: int, times: seq<int>, lo: int, hi: int): nat
    decreases |times|
  {
    if |times| == 0 then 0
    else
      (if Admits(e, limit, windowMs, times[0]) && lo <= times[0] < hi then 1 else 0)
        + AcceptedWithin(Some(EntryAfter(e, limit, windowMs, times[0])), limit, windowMs, times[1..], lo, hi)
  }

  /** Windows of this length that can start in [from, hi). */
  function Windows(from: int, hi: int, windowMs: int): nat
    requires windowMs > 0
  {
    if hi <= from then 0 else CeilDiv(hi - from, windowMs)
  }

  /** What may still be accepted before `hi`, seen from `now`. */
  function Capacity(e: Option<Entry>, limit: nat, windowMs: int, now: int, hi: int): nat
    requires windowMs > 0
  {
    if hi <= now then 0
    else if Live(e, now) then Max(0, limit - e.value.count) + limit * Windows(e.value.resetAt, hi, windowMs)
    else limit * Windows(now, hi, windowMs)
  }

  lemma MulOrder(a: int, b: int, c: int)
    requires c > 0
    ensures a < b <==> a * c < b * c
    ensures a <= b <==> a * c <= b * c
  {
    assert (b - a) * c == b * c - a * c;
  }

  lemma CeilDivUnique(a: int, b: int, q: int)
    requires b > 0 && (q - 1) * b < a <= q * b
    ensures CeilDiv(a, b) == q
  {
    var r := CeilDiv(a, b);
    MulOrder(r - 1, q, b);
    MulOrder(q - 1, r, b);
  }

  lemma CeilDivMonotone(a: int, a': int, b: int)
    requires b > 0 && a <= a'
    ensures CeilDiv(a, b) <= CeilDiv(a', b)
  {
    MulOrder(CeilDiv(a, b) - 1, CeilDiv(a', b), b);
  }

  lemma WindowsShrink(from: int, later: int, hi: int, limit: nat, windowMs: int)
    requires windowMs > 0 && from <= later
    ensures Windows(later, hi, windowMs) <= Windows(from, hi, windowMs)
    ensures limit * Windows(later, hi, windowMs) <= limit * Windows(from, hi, windowMs)
  {
    if later < hi { CeilDivMonotone(hi - later, hi - from, windowMs); }
    var a, b := Windows(later, hi, windowMs), Windows(from, hi, windowMs);
    assert limit * a <= limit * b by { assert limit * (b - a) >= 0; }
  }

  /** A window opened at `t` leaves one fewer for the rest of the span. */
  lemma WindowsStep(t: int, hi: int, limit: nat, windowMs: int)
    requires windowMs > 0 && t < hi
    ensures Windows(t, hi, windowMs) == 1 + Windows(t + windowMs, hi, windowMs)
    ensures limit * Windows(t, hi, windowMs) == limit + limit * Windows(t + windowMs, hi, windowMs)
  {
    if hi - t <= windowMs {
      CeilDivUnique(hi - t, windowMs, 1);
    } else {
      var q := CeilDiv(hi - t - windowMs, windowMs);
      assert q * windowMs <= (q + 1) * windowMs - windowMs;
      CeilDivUnique(hi - t, windowMs, q + 1);
    }
    var n := Windows(t + windowMs, hi, windowMs);
    assert limit * (1 + n) == limit + limit * n;
  }

  /** Serving one request at `t` uses up capacity by at least what it accepts. */
  lemma CapacityStep(e: Option<Entry>, limit: nat, windowMs: int, now: int, t: int, hi: int)
    requires windowMs > 0 && now <= t < hi
    ensures var e' := Some(EntryAfter(e, limit, windowMs, t));
            (if Admits(e, limit, windowMs, t) then 1 else 0) + Capacity(e', limit, windowMs, t, hi)
              <= Capacity(e, limit, windowMs, now, hi)
  {
    if !Live(e, t) {
      WindowsStep(t, hi, limit, windowMs);
      if Live(e, now) {
        WindowsShrink(e.value.resetAt, t, hi, limit, windowMs);
      } else {
        WindowsShrink(now, t, hi, limit, windowMs);
      }
    }
  }

  lemma {:induction false} CapacityBound(e: Option<Entry>, limit: nat, windowMs: int, times: seq<int>, lo: int, now: int, hi: int)
    requires windowMs > 0 && Sorted(times) && (|times| > 0 ==> now <= times[0])
    ensures AcceptedWithin(e, limit, windowMs, times, lo, hi) <= Capacity(e, limit, windowMs, now, hi)
    decreases |times|
  {
    if |times| > 0 {
      var t, rest := times[0], times[1..];
      if |rest| > 0 { assert times[0] <= times[1]; }
      CapacityBound(Some(EntryAfter(e, limit, windowMs, t)), limit, windowMs, rest, lo, t, hi);
      if t < hi { CapacityStep(e, limit, windowMs, now, t, hi); }
    }
  }

  /** An entry that was stored by an accepted request. */
  predicate Used(e: Option<Entry>) {
    e.Some? ==> e.value.count >= 1
  }

  /**
   * The most that a span can admit: either every window starts inside it, or the first has been
   * opened before it by one request and closes one millisecond after its start.
   */
  function Most(limit: int, span: int, windowMs: int): int
    requires windowMs > 0
  {
    if span <= 0 then 0
    else Max(limit * CeilDiv(span, windowMs), limit - 1 + limit * CeilDiv(span - 1, windowMs))
  }

  /** Said without a maximum, and never more than one window's limit less one above the windows that fit. */
  lemma MostIs(limit: int, span: int, windowMs: int)
    requires windowMs > 0 && limit >= 1 && span >= 1
    ensures var q := CeilDiv(span, windowMs);
            && Most(limit, span, windowMs) == (if (span - 1) % windowMs == 0 then limit * q else limit * (q + 1) - 1)
            && Most(limit, span, windowMs) <= limit * (q + 1) - 1
  {
    var q, d, m := CeilDiv(span, windowMs), (span - 1) / windowMs, (span - 1) % windowMs;
    assert span - 1 == d * windowMs + m && (d + 1) * windowMs == d * windowMs + windowMs;
    CeilDivUnique(span, windowMs, d + 1);
    assert limit * (d + 1) == limit * d + limit && limit * (q + 1) == limit * q + limit;
    if m == 0 {
      assert (d - 1) * windowMs == d * windowMs - windowMs;
      CeilDivUnique(span - 1, windowMs, d);
    } else {
      CeilDivUnique(span - 1, windowMs, d + 1);
    }
  }

  /** In any span [lo, hi) one key has at most `Most` accepted requests. */
  lemma {:induction false} SpanBound(e: Option<Entry>, limit: int, windowMs: int, times: seq<int>, lo: int, hi: int)
    requires windowMs > 0 && limit >= 1 && Sorted(times) && Used(e)
    ensures AcceptedWithin(e, limit, windowMs, times, lo, hi) <= Most(limit, hi - lo, windowMs)
    decreases |times|
  {
    if |times| > 0 && times[0] < lo {
      SpanBound(Some(EntryAfter(e, limit, windowMs, times[0])), limit, windowMs, times[1..], lo, hi);
    } else {
      CapacityBound(e, limit, windowMs, times, lo, lo, hi);
      CapacityIsMost(e, limit, windowMs, lo, hi);
    }
  }

  lemma CapacityIsMost(e: Option<Entry>, limit: int, windowMs: int, lo: int, hi: int)
    requires windowMs > 0 && limit >= 1 && Used(e)
    ensures Capacity(e, limit, windowMs, lo, hi) <= Most(limit, hi - lo, windowMs)
  {
    if lo < hi && Live(e, lo) {
      WindowsShrink(lo + 1, e.value.resetAt, hi, limit, windowMs);
      if hi == lo + 1 { CeilDivUnique(0, windowMs, 0); }
    }
  }

  /** A limit below one admits nothing. */
  lemma {:induction false} ClosedLimit(e: Option<Entry>, limit: int, windowMs: int, times: seq<int>, lo: int, hi: int)
    requires limit <= 0 && (e.Some? ==> e.value.count >= 0)
    ensures AcceptedWithin(e, limit, windowMs, times, lo, hi) == 0
    decreases |times|
  {
    if |times| > 0 {
      ClosedLimit(Some(EntryAfter(e, limit, windowMs, times[0])), limit, windowMs, times[1..], lo, hi);
    }
  }

  /** Without a positive window the limiter never holds anything back, so the bound needs one. */
  lemma {:induction false} NoWindowNoLimit(limit: int, windowMs: int, e: Option<Entry>, times: seq<int>, lo: int, hi: int)
    requires windowMs <= 0 && limit >= 1 && Sorted(times)
    requires e.Some? && |times| > 0 ==> e.value.resetAt <= times[0]
    requires forall t :: t in times ==> lo <= t < hi
    ensures AcceptedWithin(e, limit, windowMs, times, lo, hi) == |times|
    decreases |times|
  {
    if |times| > 0 {
      assert times[0] in times;
      if |times| > 1 { assert times[0] <= times[1]; }
      assert forall t :: t in times[1..] ==> t in times;
      NoWindowNoLimit(limit, windowMs, Some(EntryAfter(e, limit, windowMs, times[0])), times[1..], lo, hi);
    }
  }

  // ---------------------------------------------------------------- the bound is reached

  function Burst(t: int, n: nat): (r: seq<int>)
    ensures |r| == n && forall i :: 0 <= i < n ==> r[i] == t
  {
    seq(n, _ => t)
  }

  /** A burst inside a live window fills it up. */
  lemma {:induction false} BurstFills(e: Entry, limit: int, windowMs: int, t: int, n: nat, rest: seq<int>, lo: int, hi: int)
    requires t < e.resetAt && e.count + n <= limit && lo <= t < hi
    ensures AcceptedWithin(Some(e), limit, windowMs, Burst(t, n) + rest, lo, hi)
      == n + AcceptedWithin(Some(e.(count := e.count + n)), limit, windowMs, rest, lo, hi)
    decreases n
  {
    var times := Burst(t, n) + rest;
    if n == 0 {
      assert times == rest;
    } else {
      assert times[1..] == Burst(t, n - 1) + rest;
      BurstFills(e.(count := e.count + 1), limit, windowMs, t, n - 1, rest, lo, hi);
    }
  }

  /** `k` full bursts, one window apart. */
  function Volleys(start: int, limit: nat, windowMs: int, k: nat): seq<int>
    decreases k
  {
    if k == 0 then [] else Burst(start, limit) + Volleys(start + windowMs, limit, windowMs, k - 1)
  }

  lemma {:induction false} VolleysAreSorted(start: int, limit: nat, windowMs: int, k: nat)
    requires windowMs > 0
    ensures Sorted(Volleys(start, limit, windowMs, k)) && forall t :: t in Volleys(start, limit, windowMs, k) ==> start <= t
    decreases k
  {
    if k > 0 {
      VolleysAreSorted(start + windowMs, limit, windowMs, k - 1);
      SortedConcat(Burst(start, limit), Volleys(start + windowMs, limit, windowMs, k - 1), start);
    }
  }

  lemma SortedConcat(a: seq<int>, b: seq<int>, middle: int)
    requires Sorted(a) && Sorted(b) && (forall t :: t in a ==> t <= middle) && (forall t :: t in b ==> middle <= t)
    ensures Sorted(a + b)
  {
    assert forall i | 0 <= i < |a| :: a[i] in a;
    assert forall i | 0 <= i < |b| :: b[i] in b;
  }

  /** A burst on a window that is over opens a new one and fills it. */
  lemma BurstOpens(e: Option<Entry>, limit: int, windowMs: int, t: int, rest: seq<int>, lo: int, hi: int)
    requires !Live(e, t) && limit >= 1 && windowMs > 0 && lo <= t < hi
    ensures AcceptedWithin(e, limit, windowMs, Burst(t, limit) + rest, lo, hi)
      == limit + AcceptedWithin(Some(Entry(limit, t + windowMs)), limit, windowMs, rest, lo, hi)
  {
    var times := Burst(t, limit) + rest;
    assert times[0] == t && times[1..] == Burst(t, limit - 1) + rest;
    BurstFills(Entry(1, t + windowMs), limit, windowMs, t, limit - 1, rest, lo, hi);
  }

  /** All `k` bursts come before `hi`. */
  predicate Fit(start: int, windowMs: int, k: nat, hi: int)
    decreases k
  {
    k == 0 || (start < hi && Fit(start + windowMs, windowMs, k - 1, hi))
  }

  lemma {:induction false} LastFits(start: int, windowMs: int, k: nat, hi: int)
    requires windowMs > 0 && (k > 0 ==> (k - 1) * windowMs < hi - start)
    ensures Fit(start, windowMs, k, hi)
    decreases k
  {
    if k > 0 {
      MulOrder(0, k, windowMs);
      assert (k - 1) * windowMs == (k - 2) * windowMs + windowMs;
      LastFits(start + windowMs, windowMs, k - 1, hi);
    }
  }

  /** Every one of these bursts is accepted as a whole. */
  lemma {:induction false} VolleysAreAccepted(e: Option<Entry>, limit: int, windowMs: int, start: int, k: nat, lo: int, hi: int)
    requires !Live(e, start) && limit >= 1 && windowMs > 0 && lo <= start && Fit(start, windowMs, k, hi)
    ensures AcceptedWithin(e, limit, windowMs, Volleys(start, limit, windowMs, k), lo, hi) == limit * k
    decreases k
  {
    if k > 0 {
      BurstOpens(e, limit, windowMs, start, Volleys(start + windowMs, limit, windowMs, k - 1), lo, hi);
      VolleysAreAccepted(Some(Entry(limit, start + windowMs)), limit, windowMs, start + windowMs, k - 1, lo, hi);
      assert limit * k == limit + limit * (k - 1);
    }
  }

  /** Bursts from the start of the span on: every window starts inside it. */
  lemma FreshWindows(limit: int, windowMs: int, span: int) returns (times: seq<int>)
    requires limit >= 1 && windowMs >= 1 && span >= 1
    ensures Sorted(times)
    ensures AcceptedWithin(None, limit, windowMs, times, 0, span) == limit * CeilDiv(span, windowMs)
  {
    var q := CeilDiv(span, windowMs);
    MulOrder(0, q, windowMs);
    times := Volleys(0, limit, windowMs, q);
    VolleysAreSorted(0, limit, windowMs, q);
    LastFits(0, windowMs, q, span);
    VolleysAreAccepted(None, limit, windowMs, 0, q, 0, span);
  }

  /** One request just early enough to open a window that closes right after the span has begun. */
  lemma BorrowedWindow(limit: int, windowMs: int, span: int) returns (times: seq<int>)
    requires limit >= 1 && windowMs >= 2 && span >= 1
    ensures Sorted(times)
    ensures AcceptedWithin(None, limit, windowMs, times, 0, span) == limit - 1 + limit * CeilDiv(span - 1, windowMs)
  {
    var q := CeilDiv(span - 1, windowMs);
    MulOrder(-1, q, windowMs);
    var volleys := Volleys(1, limit, windowMs, q);
    var rest := Burst(0, limit - 1) + volleys;
    times := [1 - windowMs] + rest;
    VolleysAreSorted(1, limit, windowMs, q);
    SortedConcat(Burst(0, limit - 1), volleys, 0);
    SortedConcat([1 - windowMs], rest, 1 - windowMs);
    var borrowed := Entry(1, 1);
    assert times[1..] == rest && EntryAfter(None, limit, windowMs, 1 - windowMs) == borrowed;
    BurstFills(borrowed, limit, windowMs, 0, limit - 1, volleys, 0, span);
    LastFits(1, windowMs, q, span);
    VolleysAreAccepted(Some(Entry(limit, 1)), limit, windowMs, 1, q, 0, span);
  }

  /** For every limit, window and span there is a trace that reaches the bound. */
  lemma BoundIsReached(limit: int, windowMs: int, span: int) returns (times: seq<int>)
    requires limit >= 1 && windowMs >= 1 && span >= 0
    ensures Sorted(times)
    ensures AcceptedWithin(None, limit, windowMs, times, 0, span) == Most(limit, span, windowMs)
  {
    if span == 0 {
      times := [];
    } else {
      MostIs(limit, span, windowMs);
      if limit * CeilDiv(span, windowMs) == Most(limit, span, windowMs) {
        times := FreshWindows(limit, windowMs, span);
      } else {
        times := BorrowedWindow(limit, windowMs, span);
      }
    }
  }

  // ---------------------------------------------------------------- Retry-After

  /** The entry after serving these requests. */
  function EntryAfterAll(e: Option<Entry>, limit: int, windowMs: int, times: seq<int>): Option<Entry>
    decreases |times|
  {
    if |times| == 0 then e
    else EntryAfterAll(Some(EntryAfter(e, limit, windowMs, times[0])), limit, windowMs, times[1..])
  }

  /** A full live entry rejects everything before its reset and does not change. */
  lemma {:induction false} FullUntilReset(e: Entry, limit: int, windowMs: int, times: seq<int>)
    requires e.count >= limit && forall t :: t in times ==> t < e.resetAt
    ensures EntryAfterAll(Some(e), limit, windowMs, times) == Some(e)
    decreases |times|
  {
    if |times| > 0 {
      assert times[0] in times;
      assert forall t :: t in times[1..] ==> t in times;
      FullUntilReset(e, limit, windowMs, times[1..]);
    }
  }

  /**
   * After a rejection at `now` with a positive window: whatever requests come strictly before
   * `now + retryAfterMs`, the next request is rejected if it too comes before, and accepted if it
   * comes then or later; and waiting the header's whole seconds is enough, one second less is not.
   */
  lemma RetryAfterIsExact(e: Option<Entry>, limit: int, windowMs: int, now: int, between: seq<int>, next: int)
    requires windowMs > 0 && limit >= 1 && Decide(e, limit, windowMs, now).1.Rejected?
    requires forall t :: t in between ==> now <= t < now + Decide(e, limit, windowMs, now).1.retryAfterMs
    requires now <= next
    ensures var (kept, rejection) := Decide(e, limit, windowMs, now);
            var reached := EntryAfterAll(Some(kept), limit, windowMs, between);
            && (Admits(reached, limit, windowMs, next) <==> next >= now + rejection.retryAfterMs)
            && rejection.retryAfterMs > 0
            && now + 1000 * rejection.retryAfterSeconds >= now + rejection.retryAfterMs
            && now + 1000 * (rejection.retryAfterSeconds - 1) < now + rejection.retryAfterMs
  {
    var (kept, rejection) := Decide(e, limit, windowMs, now);
    FullUntilReset(kept, limit, windowMs, between);
  }

  // ---------------------------------------------------------------- the shared table

  function Times(trace: seq<Request>): (times: seq<int>)
    ensures |times| == |trace| && forall i :: 0 <= i < |trace| ==> times[i] == trace[i].now
  {
    seq(|trace|, i requires 0 <= i < |trace| => trace[i].now)
  }

  /** Acceptances within [lo, hi) among the decisions on these requests. */
  function CountAccepted(decisions: seq<Decision>, requests: seq<Request>, lo: int, hi: int): nat
    requires |decisions| == |requests|
  {
    if |decisions| == 0 then 0
    else (if decisions[0].Accepted? && lo <= requests[0].now < hi then 1 else 0) + CountAccepted(decisions[1..], requests[1..], lo, hi)
  }

  lemma {:induction false} PrivateCount(rules: seq<Rule>, e: Option<Entry>, requests: seq<Request>, limit: int, windowMs: int,
                                             lo: int, hi: int)
    requires forall r | r in requests ::
      FindRule(rules, r.path).Some? && (FindRule(rules, r.path).value.limit, FindRule(rules, r.path).value.windowMs) == (limit, windowMs)
    ensures |PrivateDecisions(rules, e, requests)| == |requests|
    ensures CountAccepted(PrivateDecisions(rules, e, requests), requests, lo, hi)
      == AcceptedWithin(e, limit, windowMs, Times(requests), lo, hi)
    decreases |requests|
  {
    if |requests| > 0 {
      assert requests[0] in requests;
      assert Times(requests)[1..] == Times(requests[1..]);
      assert forall r :: r in requests[1..] ==> r in requests;
      PrivateCount(rules, Some(EntryAfter(e, limit, windowMs, requests[0].now)), requests[1..], limit, windowMs, lo, hi);
    }
  }

  lemma SortedCons(first: Request, rest: seq<Request>)
    requires Sorted(Times(rest)) && forall r :: r in rest ==> first.now <= r.now
    ensures Sorted(Times([first] + rest))
  {
    assert forall i | 0 <= i < |rest| :: rest[i] in rest;
  }

  lemma {:induction false} RequestsOfKey(rules: seq<Rule>, trace: seq<Request>, key: string)
    requires Clocked(trace)
    ensures var requests := RequestsOf(rules, trace, key);
            && Sorted(Times(requests))
            && (forall r :: r in requests ==> r in trace && Concerns(rules, r, key))
    decreases |trace|
  {
    if |trace| > 0 {
      RequestsOfKey(rules, trace[1..], key);
      var rest := RequestsOf(rules, trace[1..], key);
      forall r | r in rest
        ensures trace[0].now <= r.now
      {
        var i :| 0 <= i < |trace[1..]| && trace[1..][i] == r;
        assert trace[0].now <= trace[i + 1].now;
      }
      assert forall r :: r in trace[1..] ==> r in trace;
      SortedCons(trace[0], rest);
    }
  }

  /** At the gateway a key's requests all meet the limit and window of its bucket. */
  lemma GatewayKeyRule(o: Options, isAuth: string -> bool, isOnboarding: string -> bool, isAgent: string -> bool,
                       isProbe: string -> bool, r: Request, b: Bucket, ip: string)
    requires Concerns(GatewayRules(o, isAuth, isOnboarding, isAgent, isProbe), r, KeyOf(b, ip))
    ensures var rule := FindRule(GatewayRules(o, isAuth, isOnboarding, isAgent, isProbe), r.path).value;
            (rule.limit, rule.windowMs) == LimitOf(o, b)
  {
    GatewayRuleOf(o, isAuth, isOnboarding, isAgent, isProbe, r.path);
    KeysAreDistinct(FindRule(GatewayRules(o, isAuth, isOnboarding, isAgent, isProbe), r.path).value.bucket, r.ip, b, ip);
  }

  /**
   * The gateway: over any trace with a clock that never goes back, starting from an empty table,
   * one client has at most `Most` accepted requests of a bucket in any span, whatever the other
   * clients do.
   */
  lemma GatewayTraceBound(o: Options, isAuth: string -> bool, isOnboarding: string -> bool, isAgent: string -> bool,
                          isProbe: string -> bool, trace: seq<Request>, b: Bucket, ip: string, lo: int, hi: int)
    requires Clocked(trace) && LimitOf(o, b).0 >= 1 && LimitOf(o, b).1 > 0
    ensures var rules := GatewayRules(o, isAuth, isOnboarding, isAgent, isProbe);
            var requests := RequestsOf(rules, trace, KeyOf(b, ip));
            var decisions := SharedDecisions(rules, map[], trace, KeyOf(b, ip));
            && |decisions| == |requests|
            && CountAccepted(decisions, requests, lo, hi) <= Most(LimitOf(o, b).0, hi - lo, LimitOf(o, b).1)
  {
    var rules := GatewayRules(o, isAuth, isOnboarding, isAgent, isProbe);
    var key := KeyOf(b, ip);
    var requests := RequestsOf(rules, trace, key);
    SharedRefinesPrivate(rules, map[], trace, key, None);
    RequestsOfKey(rules, trace, key);
    forall r | r in requests
      ensures FindRule(rules, r.path).Some?
      ensures (FindRule(rules, r.path).value.limit, FindRule(rules, r.path).value.windowMs) == LimitOf(o, b)
    {
      GatewayKeyRule(o, isAuth, isOnboarding, isAgent, isProbe, r, b, ip);
    }
    PrivateCount(rules, None, requests, LimitOf(o, b).0, LimitOf(o, b).1, lo, hi);
    SpanBound(None, LimitOf(o, b).0, LimitOf(o, b).1, Times(requests), lo, hi);
  }

  /** The shared table after serving a trace. */
  function TableAfter(rules: seq<Rule>, entries: Table, trace: seq<Request>): Table
    decreases |trace|
  {
    if |trace| == 0 then entries else TableAfter(rules, Handled(rules, entries, trace[0]).0, trace[1..])
  }

  /** Requests that come while a full entry is live leave it as the table's knowledge of its key. */
  lemma {:induction false} StaysFull(rules: seq<Rule>, entries: Table, key: string, full: Entry, trace: seq<Request>, limit: int, now: int)
    requires Represents(entries, key, Some(full), now) && full.count >= limit && Clocked(trace)
    requires |trace| > 0 ==> now <= trace[0].now
    requires forall r | r in trace && Concerns(rules, r, key) :: r.now < full.resetAt && FindRule(rules, r.path).value.limit == limit
    ensures Represents(TableAfter(rules, entries, trace), key, Some(full), if |trace| > 0 then trace[|trace| - 1].now else now)
    decreases |trace|
  {
    if |trace| > 0 {
      var r, rest := trace[0], trace[1..];
      assert r in trace;
      assert forall q :: q in rest ==> q in trace;
      if |rest| > 0 { assert trace[0].now <= trace[1].now && rest[|rest| - 1] == trace[|trace| - 1]; }
      HandledRepresents(rules, entries, key, Some(full), r);
      StaysFull(rules, Handled(rules, entries, r).0, key, full, rest, limit, r.now);
    }
  }

  /** The next request of the key, whatever was served since the rejection, under any rules. */
  lemma SharedRetryAfter(rules: seq<Rule>, entries: Table, r: Request, between: seq<Request>, next: Request, key: string,
                         limit: int, windowMs: int)
    requires limit >= 1 && windowMs > 0 && Clocked([r] + between + [next])
    requires Concerns(rules, r, key) && Concerns(rules, next, key) && Handled(rules, entries, r).1.Rejected?
    requires forall q | q in [r] + between + [next] && Concerns(rules, q, key) ::
               var rule := FindRule(rules, q.path).value; (rule.limit, rule.windowMs) == (limit, windowMs)
    requires forall q | q in between && Concerns(rules, q, key) :: q.now < r.now + Handled(rules, entries, r).1.retryAfterMs
    ensures var (after, rejection) := Handled(rules, entries, r);
            Handled(rules, TableAfter(rules, after, between), next).1.Accepted? <==> next.now >= r.now + rejection.retryAfterMs
  {
    var trace := [r] + between + [next];
    var (after, rejection) := Handled(rules, entries, r);
    var e := Lookup(entries, key);
    assert r in trace && next in trace && trace[0] == r && trace[|trace| - 1] == next;
    HandledRepresents(rules, entries, key, e, r);
    var full := after[key];
    RejectedIsFull(e, limit, windowMs, r.now);
    assert forall q :: q in between ==> q in trace;
    ClockedPart(r, between, next);
    StaysFull(rules, after, key, full, between, limit, r.now);
    var table := TableAfter(rules, after, between);
    HandledRepresents(rules, table, key, Some(full), next);
  }

  /** What a rejection says about the entry it met. */
  lemma RejectedIsFull(e: Option<Entry>, limit: int, windowMs: int, now: int)
    requires limit >= 1 && windowMs > 0 && Decide(e, limit, windowMs, now).1.Rejected?
    ensures var (kept, rejection) := Decide(e, limit, windowMs, now);
            kept.count >= limit && kept.resetAt == now + rejection.retryAfterMs && rejection.retryAfterMs > 0
  {
  }

  lemma ClockedPart(r: Request, between: seq<Request>, next: Request)
    requires Clocked([r] + between + [next])
    ensures Clocked(between) && r.now <= next.now
    ensures |between| > 0 ==> r.now <= between[0].now && between[|between| - 1].now <= next.now
  {
    var trace := [r] + between + [next];
    assert forall i | 0 <= i < |between| :: between[i] == trace[i + 1];
    assert trace[0] == r && trace[|trace| - 1] == next;
  }

  /**
   * The gateway's Retry-After: after a rejected request of a client and bucket, whatever the other
   * clients send meanwhile and whatever this one sends before the announced moment, its next request
   * is accepted exactly if it comes at that moment or later.
   */
  lemma GatewayRetryAfter(o: Options, isAuth: string -> bool, isOnboarding: string -> bool, isAgent: string -> bool,
                          isProbe: string -> bool, entries: Table, r: Request, between: seq<Request>, next: Request,
                          b: Bucket, ip: string)
    requires LimitOf(o, b).0 >= 1 && LimitOf(o, b).1 > 0 && Clocked([r] + between + [next])
    requires var rules := GatewayRules(o, isAuth, isOnboarding, isAgent, isProbe);
             && Concerns(rules, r, KeyOf(b, ip)) && Concerns(rules, next, KeyOf(b, ip))
             && Handled(rules, entries, r).1.Rejected?
             && forall q | q in between && Concerns(rules, q, KeyOf(b, ip)) :: q.now < r.now + Handled(rules, entries, r).1.retryAfterMs
    ensures var rules := GatewayRules(o, isAuth, isOnboarding, isAgent, isProbe);
            var (after, rejection) := Handled(rules, entries, r);
            Handled(rules, TableAfter(rules, after, between), next).1.Accepted? <==> next.now >= r.now + rejection.retryAfterMs
  {
    var rules, key := GatewayRules(o, isAuth, isOnboarding, isAgent, isProbe), KeyOf(b, ip);
    forall q | q in [r] + between + [next] && Concerns(rules, q, key)
      ensures var rule := FindRule(rules, q.path).value; (rule.limit, rule.windowMs) == LimitOf(o, b)
    {
      GatewayKeyRule(o, isAuth, isOnboarding, isAgent, isProbe, q, b, ip);
    }
    SharedRetryAfter(rules, entries, r, between, next, key, LimitOf(o, b).0, LimitOf(o, b).1);
  }
}
