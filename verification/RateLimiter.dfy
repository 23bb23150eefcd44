/**
 * The gateway's fixed-window rate limiter (api/src/lib/gateway-rate-limits.ts): one shared table
 * with opportunistic eviction, and its refinement to independent limiters per key.
 */
module RateLimiter {
  import opened Wrappers

  datatype Bucket = AgentDelivery | Auth | Global | Onboarding

  datatype Rule = Rule(bucket: Bucket, limit: int, windowMs: int, matches: string -> bool)

  datatype Entry = Entry(count: int, resetAt: int)

  type Table = map<string, Entry>

  datatype Request = Request(path: string, ip: string, now: int)

  datatype Decision =
    | Unlimited
    | Accepted(limit: int, remaining: int, resetSeconds: int)
    | Rejected(retryAfterMs: int, retryAfterSeconds: int)

  function Max(a: int, b: int): int {
    if a >= b then a else b
  }

  /** Rounds up, also below zero: Euclidean division of the negation. */
  function CeilDiv(a: int, b: int): (r: int)
    requires b > 0
    ensures (r - 1) * b < a <= r * b
  {
    -((-a) / b)
  }

  function BucketName(b: Bucket): string {
    match b
    case AgentDelivery => "agentDelivery"
    case Auth => "auth"
    case Global => "global"
    case Onboarding => "onboarding"
  }

  function KeyOf(b: Bucket, ip: string): string {
    BucketName(b) + ":" + ip
  }

  /** No two bucket/client pairs share an entry. */
  lemma KeysAreDistinct(b: Bucket, ip: string, b': Bucket, ip': string)
    requires KeyOf(b, ip) == KeyOf(b', ip')
    ensures b == b' && ip == ip'
  {
    var k := KeyOf(b, ip);
    assert k[1] == BucketName(b)[1] == BucketName(b')[1];
    assert k[|BucketName(b)| + 1..] == ip;
    assert k[|BucketName(b')| + 1..] == ip';
  }

  /** `rules.find`: the first rule that matches the path. */
  function FindRule(rules: seq<Rule>, path: string): (r: Option<Rule>) {
    if |rules| == 0 then None
    else if rules[0].matches(path) then Some(rules[0])
    else FindRule(rules[1..], path)
  }

  /** `rules[i]` matches the path and none before it does. */
  predicate MatchesFirst(rules: seq<Rule>, path: string, i: int) {
    0 <= i < |rules| && rules[i].matches(path) && forall k | 0 <= k < i :: !rules[k].matches(path)
  }

  lemma LaterMatches(rules: seq<Rule>, path: string)
    requires |rules| > 0 && !rules[0].matches(path)
    ensures forall i :: MatchesFirst(rules[1..], path, i) ==> MatchesFirst(rules, path, i + 1)
    ensures forall i :: MatchesFirst(rules, path, i) ==> i > 0 && MatchesFirst(rules[1..], path, i - 1)
  {
    assert forall k | 0 < k < |rules| :: rules[1..][k - 1] == rules[k];
  }

  /** The rule found is the first match in the order of the list; none is found exactly if none matches. */
  lemma {:induction false} FindsFirstMatch(rules: seq<Rule>, path: string)
    ensures FindRule(rules, path).None? <==> forall k | 0 <= k < |rules| :: !rules[k].matches(path)
    ensures forall i | MatchesFirst(rules, path, i) :: FindRule(rules, path) == Some(rules[i])
    ensures FindRule(rules, path).Some? ==> exists i :: MatchesFirst(rules, path, i) && FindRule(rules, path) == Some(rules[i])
  {
    if |rules| > 0 {
      FindsFirstMatch(rules[1..], path);
      if rules[0].matches(path) {
        assert MatchesFirst(rules, path, 0);
      } else {
        LaterMatches(rules, path);
        if i :| MatchesFirst(rules[1..], path, i) && FindRule(rules[1..], path) == Some(rules[1..][i]) {
          assert MatchesFirst(rules, path, i + 1);
        }
      }
    }
  }

  lemma NoneFoundExactly(rules: seq<Rule>, path: string)
    ensures FindRule(rules, path).None? <==> forall k | 0 <= k < |rules| :: !rules[k].matches(path)
  {
    FindsFirstMatch(rules, path);
  }

  /** Entries past their window are dropped, but only when the table is large. */
  function Evict(entries: Table, now: int): Table {
    if |entries| > 1000 then map k | k in entries && entries[k].resetAt > now :: entries[k] else entries
  }

  predicate Live(e: Option<Entry>, now: int) {
    e.Some? && e.value.resetAt > now
  }

  /** The entry in force at `now`: the stored one, or a new window. */
  function Current(e: Option<Entry>, windowMs: int, now: int): Entry {
    if Live(e, now) then e.value else Entry(0, now + windowMs)
  }

  function Lookup(entries: Table, key: string): Option<Entry> {
    if key in entries then Some(entries[key]) else None
  }

  /** What one entry decides, and how it is left. */
  function Decide(e: Option<Entry>, limit: int, windowMs: int, now: int): (Entry, Decision) {
    var entry := Current(e, windowMs, now);
    if entry.count >= limit then
      var retryAfterMs := Max(0, entry.resetAt - now);
      (entry, Rejected(retryAfterMs, Max(1, CeilDiv(retryAfterMs, 1000))))
    else
      var used := entry.(count := entry.count + 1);
      (used, Accepted(limit, Max(0, limit - used.count), CeilDiv(used.resetAt, 1000)))
  }

  /**
   * What a request is told. It is refused exactly when a window that is not over has counted the limit,
   * or the limit admits nothing. The seconds announced are the milliseconds rounded up.
   */
  lemma DecisionTells(e: Option<Entry>, limit: int, windowMs: int, now: int)
    ensures var (left, d) := Decide(e, limit, windowMs, now);
            var open := e.Some? && now < e.value.resetAt;
            && left.resetAt == (if open then e.value.resetAt else now + windowMs)
            && (d.Rejected? <==> if open then limit <= e.value.count else limit <= 0)
            && (d.Rejected? ==>
                  && left.count == (if open then e.value.count else 0)
                  && (left.resetAt >= now ==> now + d.retryAfterMs == left.resetAt) && (left.resetAt < now ==> d.retryAfterMs == 0)
                  && d.retryAfterSeconds >= 1 && 1000 * d.retryAfterSeconds >= d.retryAfterMs
                  && (d.retryAfterSeconds > 1 ==> 1000 * (d.retryAfterSeconds - 1) < d.retryAfterMs))
            && (!d.Rejected? ==>
                  && d.Accepted? && d.limit == limit && left.count == 1 + (if open then e.value.count else 0)
                  && left.count <= limit && d.remaining == limit - left.count
                  && 1000 * (d.resetSeconds - 1) < left.resetAt <= 1000 * d.resetSeconds)
  {
  }

  function Handled(rules: seq<Rule>, entries: Table, r: Request): (Table, Decision) {
    var rule := FindRule(rules, r.path);
    if rule.None? then (entries, Unlimited)
    else
      var kept := Evict(entries, r.now);
      var key := KeyOf(rule.value.bucket, r.ip);
      var (entry, decision) := Decide(Lookup(kept, key), rule.value.limit, rule.value.windowMs, r.now);
      (kept[key := entry], decision)
  }

  /** A request touches the entry of the first matching rule and its client alone, and is told that rule's limit. */
  lemma HandledTouches(rules: seq<Rule>, entries: Table, r: Request, i: int)
    requires MatchesFirst(rules, r.path, i)
    ensures var (next, d) := Handled(rules, entries, r);
            var key := KeyOf(rules[i].bucket, r.ip);
            && key in next && next.Keys <= entries.Keys + {key}
            && (forall k | k in next && k != key :: next[k] == entries[k])
            && (d.Accepted? || d.Rejected?)
            && (d.Accepted? ==> d.limit == rules[i].limit && next[key].count <= rules[i].limit)
            && (d.Rejected? ==> next[key].count >= rules[i].limit)
  {
    FindsFirstMatch(rules, r.path);
    var rule := rules[i];
    DecisionTells(Lookup(Evict(entries, r.now), KeyOf(rule.bucket, r.ip)), rule.limit, rule.windowMs, r.now);
  }

  class Middleware {
    const rules: seq<Rule>
    var entries: Table

    constructor (rules: seq<Rule>)
      ensures this.rules == rules && entries == map[]
    {
      this.rules := rules;
      entries := map[];
    }

    /** The eviction loop visits every entry once, in any order. */
    method EvictExpired(now: int)
      modifies this`entries
      ensures entries == Evict(old(entries), now)
      ensures |old(entries)| <= 1000 ==> entries == old(entries)
      ensures |old(entries)| > 1000 ==>
        forall k, e :: k in entries && entries[k] == e <==> k in old(entries) && old(entries)[k] == e && now < e.resetAt
    {
      if |entries| > 1000 {
        var pending := entries.Keys;
        while pending != {}
          invariant pending <= entries.Keys <= old(entries).Keys
          invariant forall k :: k in entries ==> entries[k] == old(entries)[k]
          invariant forall k :: k in old(entries) && k !in pending ==> (k in entries <==> old(entries)[k].resetAt > now)
          decreases pending
        {
          var k :| k in pending;
          if entries[k].resetAt <= now {
            entries := entries - {k};
          }
          pending := pending - {k};
        }
      }
    }

    method Handle(r: Request) returns (d: Decision)
      modifies this`entries
      ensures (entries, d) == Handled(rules, old(entries), r)
      ensures d == Unlimited <==> forall k | 0 <= k < |rules| :: !rules[k].matches(r.path)
      ensures d == Unlimited ==> entries == old(entries)
    {
      NoneFoundExactly(rules, r.path);
      var rule := FindRule(rules, r.path);
      if rule.None? {
        return Unlimited;
      }
      EvictExpired(r.now);
      ghost var kept := entries;
      var key := KeyOf(rule.value.bucket, r.ip);
      var entry := Current(Lookup(entries, key), rule.value.windowMs, r.now);
      if !Live(Lookup(entries, key), r.now) {
        entries := entries[key := entry];
      }
      if entry.count >= rule.value.limit {
        var retryAfterMs := Max(0, entry.resetAt - r.now);
        assert entries == kept[key := entry];
        return Rejected(retryAfterMs, Max(1, CeilDiv(retryAfterMs, 1000)));
      }
      entry := entry.(count := entry.count + 1);
      entries := entries[key := entry];
      assert entries == kept[key := entry];
      d := Accepted(rule.value.limit, Max(0, rule.value.limit - entry.count), CeilDiv(entry.resetAt, 1000));
    }
  }

  // ---------------------------------------------------------------- refinement

  /** The request counts against `key`. */
  predicate Concerns(rules: seq<Rule>, r: Request, key: string) {
    var rule := FindRule(rules, r.path);
    rule.Some? && KeyOf(rule.value.bucket, r.ip) == key
  }

  predicate Clocked(trace: seq<Request>) {
    forall i, j | 0 <= i < j < |trace| :: trace[i].now <= trace[j].now
  }

  /** The shared table's decisions on the requests of one key. */
  function SharedDecisions(rules: seq<Rule>, entries: Table, trace: seq<Request>, key: string): seq<Decision>
    decreases |trace|
  {
    if |trace| == 0 then []
    else
      var (next, d) := Handled(rules, entries, trace[0]);
      (if Concerns(rules, trace[0], key) then [d] else []) + SharedDecisions(rules, next, trace[1..], key)
  }

  function RequestsOf(rules: seq<Rule>, trace: seq<Request>, key: string): seq<Request> {
    if |trace| == 0 then []
    else (if Concerns(rules, trace[0], key) then [trace[0]] else []) + RequestsOf(rules, trace[1..], key)
  }

  /** A private limiter for one key: a single entry, never evicted, fed that key's requests only. */
  function PrivateDecisions(rules: seq<Rule>, e: Option<Entry>, trace: seq<Request>): seq<Decision>
    requires forall r :: r in trace ==> FindRule(rules, r.path).Some?
    decreases |trace|
  {
    if |trace| == 0 then []
    else
      assert trace[0] in trace;
      var rule := FindRule(rules, trace[0].path).value;
      var (next, d) := Decide(e, rule.limit, rule.windowMs, trace[0].now);
      [d] + PrivateDecisions(rules, Some(next), trace[1..])
  }

  lemma {:induction false} RequestsOfMatch(rules: seq<Rule>, trace: seq<Request>, key: string)
    ensures forall r :: r in RequestsOf(rules, trace, key) ==> FindRule(rules, r.path).Some?
  {
    if |trace| > 0 {
      RequestsOfMatch(rules, trace[1..], key);
    }
  }

  /** The table may have forgotten a private entry only once its window is over. */
  predicate Represents(entries: Table, key: string, e: Option<Entry>, now: int) {
    Lookup(entries, key) == e || (key !in entries && !Live(e, now))
  }

  /** Neither eviction nor the traffic of other keys disturbs what the table knows about a key. */
  lemma HandledRepresents(rules: seq<Rule>, entries: Table, key: string, e: Option<Entry>, r: Request)
    requires Represents(entries, key, e, r.now)
    ensures var (next, d) := Handled(rules, entries, r);
            if Concerns(rules, r, key) then
              var rule := FindRule(rules, r.path).value;
              (next[key], d) == Decide(e, rule.limit, rule.windowMs, r.now) && key in next
            else Represents(next, key, e, r.now)
  {
  }

  /**
   * Under a clock that never goes back, the shared table decides every request of a key exactly as
   * a private limiter that sees no other key and evicts nothing.
   */
  lemma {:induction false} SharedRefinesPrivate(rules: seq<Rule>, entries: Table, trace: seq<Request>, key: string, e: Option<Entry>)
    requires Clocked(trace)
    requires |trace| > 0 ==> Represents(entries, key, e, trace[0].now)
    ensures forall r :: r in RequestsOf(rules, trace, key) ==> FindRule(rules, r.path).Some?
    ensures SharedDecisions(rules, entries, trace, key) == PrivateDecisions(rules, e, RequestsOf(rules, trace, key))
    decreases |trace|
  {
    RequestsOfMatch(rules, trace, key);
    if |trace| > 0 {
      var r, rest := trace[0], trace[1..];
      var (next, d) := Handled(rules, entries, r);
      HandledRepresents(rules, entries, key, e, r);
      if Concerns(rules, r, key) {
        SharedRefinesPrivate(rules, next, rest, key, Some(next[key]));
        assert RequestsOf(rules, trace, key)[1..] == RequestsOf(rules, rest, key);
      } else {
        if |rest| > 0 { assert trace[0].now <= trace[1].now; }
        SharedRefinesPrivate(rules, next, rest, key, e);
        assert RequestsOf(rules, trace, key) == RequestsOf(rules, rest, key);
      }
    }
  }

  // ---------------------------------------------------------------- the gateway's rules

  datatype Options = Options(
    agentDeliveryMax: int, agentDeliveryWindowMs: int, authMax: int, authWindowMs: int,
    globalMax: int, globalWindowMs: int, onboardingMax: int, onboardingWindowMs: int)

  /** The path patterns are parameters; `isProbe` recognises the health and readiness paths. */
  function GatewayRules(o: Options, isAuth: string -> bool, isOnboarding: string -> bool, isAgent: string -> bool,
                        isProbe: string -> bool): (rules: seq<Rule>)
  {
    [ Rule(Auth, o.authMax, o.authWindowMs, isAuth),
      Rule(Onboarding, o.onboardingMax, o.onboardingWindowMs, isOnboarding),
      Rule(AgentDelivery, o.agentDeliveryMax, o.agentDeliveryWindowMs, isAgent),
      Rule(Global, o.globalMax, o.globalWindowMs, (path: string) => !isProbe(path) && !isAgent(path)) ]
  }

  function LimitOf(o: Options, b: Bucket): (int, int) {
    match b
    case AgentDelivery => (o.agentDeliveryMax, o.agentDeliveryWindowMs)
    case Auth => (o.authMax, o.authWindowMs)
    case Global => (o.globalMax, o.globalWindowMs)
    case Onboarding => (o.onboardingMax, o.onboardingWindowMs)
  }

  /**
   * Which bucket a path is counted in, by the order of the rules: sign-in before onboarding before agent
   * delivery before everything else, with the limit and window of that bucket; only probes go uncounted.
   */
  lemma GatewayRuleOf(o: Options, isAuth: string -> bool, isOnboarding: string -> bool, isAgent: string -> bool,
                      isProbe: string -> bool, path: string)
    ensures var rule := FindRule(GatewayRules(o, isAuth, isOnboarding, isAgent, isProbe), path);
            var counted := (b: Bucket, limit: int, windowMs: int) =>
              rule.Some? && rule.value.bucket == b && rule.value.limit == limit && rule.value.windowMs == windowMs;
            && (isAuth(path) ==> counted(Auth, o.authMax, o.authWindowMs))
            && (!isAuth(path) && isOnboarding(path) ==> counted(Onboarding, o.onboardingMax, o.onboardingWindowMs))
            && (!isAuth(path) && !isOnboarding(path) && isAgent(path) ==>
                  counted(AgentDelivery, o.agentDeliveryMax, o.agentDeliveryWindowMs))
            && (!isAuth(path) && !isOnboarding(path) && !isAgent(path) && !isProbe(path) ==>
                  counted(Global, o.globalMax, o.globalWindowMs))
            && (rule.None? <==> !isAuth(path) && !isOnboarding(path) && !isAgent(path) && isProbe(path))
            && (rule.Some? ==> (rule.value.limit, rule.value.windowMs) == LimitOf(o, rule.value.bucket))
  {
    var rules := GatewayRules(o, isAuth, isOnboarding, isAgent, isProbe);
    FindsFirstMatch(rules, path);
    assert rules[3].matches(path) <==> !isProbe(path) && !isAgent(path);
    if isAuth(path) {
      assert MatchesFirst(rules, path, 0);
    } else if isOnboarding(path) {
      assert MatchesFirst(rules, path, 1);
    } else if isAgent(path) {
      assert MatchesFirst(rules, path, 2);
    } else if !isProbe(path) {
      assert MatchesFirst(rules, path, 3);
    }
  }
}
