/**
 * The gateway's path patterns (api/src/lib/gateway-rate-limits.ts:37-77) and the bucket of every path.
 */
module GatewayPaths {
  import opened RateLimiter

  /** The path is the route, or goes on with one of these characters. */
  predicate Under(path: string, route: string, next: string) {
    route <= path && (path == route || path[|route|] in next)
  }

  const AUTH_CALLS := ["login", "register", "googleLogin", "googleSignup", "resetPassword", "changePassword", "logout"]

  const ONBOARDING_CALLS := ["createOrganization", "waitForInvitation", "cancelWaiting"]

  predicate AuthPath(path: string) {
    exists i | 0 <= i < |AUTH_CALLS| ::
      Under(path, "/trpc/auth." + AUTH_CALLS[i], "?") || Under(path, "/cp/trpc/auth." + AUTH_CALLS[i], "?")
  }

  predicate OnboardingPath(path: string) {
    exists i | 0 <= i < |ONBOARDING_CALLS| :: Under(path, "/cp/trpc/onboarding." + ONBOARDING_CALLS[i], "?")
  }

  predicate AgentPath(path: string) {
    Under(path, "/api/agent/windows", "/?") || Under(path, "/api/agent/linux", "/?")
  }

  predicate ProbePath(path: string) {
    Under(path, "/cp/health", "?") || Under(path, "/cp/ready", "?")
  }

  function Rules(o: Options): seq<Rule> {
    GatewayRules(o, path => AuthPath(path), path => OnboardingPath(path), path => AgentPath(path), path => ProbePath(path))
  }

  /** A character that tells a route apart from others. */
  lemma Tells(path: string, route: string, next: string, k: nat)
    requires Under(path, route, next) && k < |route|
    ensures k < |path| && path[k] == route[k]
  {
  }

  lemma AuthPathsBegin(path: string)
    requires AuthPath(path)
    ensures (|path| > 1 && path[1] == 't') || (|path| > 9 && path[1] == 'c' && path[4] == 't' && path[9] == 'a')
  {
    var i :| 0 <= i < |AUTH_CALLS|
      && (Under(path, "/trpc/auth." + AUTH_CALLS[i], "?") || Under(path, "/cp/trpc/auth." + AUTH_CALLS[i], "?"));
    var short, long := "/trpc/auth." + AUTH_CALLS[i], "/cp/trpc/auth." + AUTH_CALLS[i];
    assert short[1] == 't' && long[1] == 'c' && long[4] == 't' && long[9] == 'a';
    if Under(path, short, "?") {
      Tells(path, short, "?", 1);
    } else {
      Tells(path, long, "?", 1);
      Tells(path, long, "?", 4);
      Tells(path, long, "?", 9);
    }
  }

  lemma OnboardingPathsBegin(path: string)
    requires OnboardingPath(path)
    ensures |path| > 9 && path[1] == 'c' && path[4] == 't' && path[9] == 'o'
  {
    var i :| 0 <= i < |ONBOARDING_CALLS| && Under(path, "/cp/trpc/onboarding." + ONBOARDING_CALLS[i], "?");
    var route := "/cp/trpc/onboarding." + ONBOARDING_CALLS[i];
    assert route[1] == 'c' && route[4] == 't' && route[9] == 'o';
    Tells(path, route, "?", 9);
  }

  lemma OtherPathsBegin(path: string)
    ensures AgentPath(path) ==> |path| > 1 && path[1] == 'a'
    ensures ProbePath(path) ==> |path| > 4 && path[1] == 'c' && (path[4] == 'h' || path[4] == 'r')
  {
  }

  /** No path is of two kinds, so that only the rule for everything else depends on the order of the rules. */
  lemma PathsAreApart(path: string)
    ensures AuthPath(path) ==> !OnboardingPath(path) && !AgentPath(path) && !ProbePath(path)
    ensures OnboardingPath(path) ==> !AgentPath(path) && !ProbePath(path)
    ensures AgentPath(path) ==> !ProbePath(path)
  {
    OtherPathsBegin(path);
    if AuthPath(path) { AuthPathsBegin(path); }
    if OnboardingPath(path) { OnboardingPathsBegin(path); }
  }

  /** Every path is counted in the bucket of its kind, with that bucket's limit and window; probes alone go uncounted. */
  lemma PathIsCounted(o: Options, path: string)
    ensures var rule := FindRule(Rules(o), path);
            && (rule.None? <==> ProbePath(path))
            && (rule.Some? ==>
                  && (rule.value.bucket == Auth <==> AuthPath(path))
                  && (rule.value.bucket == Onboarding <==> OnboardingPath(path))
                  && (rule.value.bucket == AgentDelivery <==> AgentPath(path))
                  && (rule.value.bucket == Global <==> !AuthPath(path) && !OnboardingPath(path) && !AgentPath(path))
                  && (AuthPath(path) ==> rule.value.limit == o.authMax && rule.value.windowMs == o.authWindowMs)
                  && (OnboardingPath(path) ==> rule.value.limit == o.onboardingMax && rule.value.windowMs == o.onboardingWindowMs)
                  && (AgentPath(path) ==> rule.value.limit == o.agentDeliveryMax && rule.value.windowMs == o.agentDeliveryWindowMs)
                  && (rule.value.bucket == Global ==> rule.value.limit == o.globalMax && rule.value.windowMs == o.globalWindowMs))
  {
    PathsAreApart(path);
    GatewayRuleOf(o, p => AuthPath(p), p => OnboardingPath(p), p => AgentPath(p), p => ProbePath(p), path);
  }

  /** The rest of a path behind a route: nothing, or one of these characters and anything. */
  predicate Ends(rest: string, next: string) {
    rest == "" || rest[0] in next
  }

  lemma UnderRoute(route: string, rest: string, next: string)
    ensures Under(route + rest, route, next) <==> Ends(rest, next)
  {
    assert rest != "" ==> (route + rest)[|route|] == rest[0];
  }

  /** The sign-in calls count with and without the gateway's prefix, and with and without a query. */
  lemma SignInsCount(call: string, rest: string)
    requires call in ["login", "register", "googleLogin", "googleSignup", "resetPassword", "changePassword", "logout"] && Ends(rest, "?")
    ensures AuthPath("/trpc/auth." + call + rest) && AuthPath("/cp/trpc/auth." + call + rest)
  {
    var i :| 0 <= i < |AUTH_CALLS| && AUTH_CALLS[i] == call;
    UnderRoute("/trpc/auth." + call, rest, "?");
    UnderRoute("/cp/trpc/auth." + call, rest, "?");
  }

  /** So do the onboarding calls, and the agents' files and the probes. */
  lemma OthersCount(call: string, rest: string)
    ensures call in ["createOrganization", "waitForInvitation", "cancelWaiting"] && Ends(rest, "?") ==>
              OnboardingPath("/cp/trpc/onboarding." + call + rest)
    ensures Ends(rest, "/?") ==> AgentPath("/api/agent/windows" + rest) && AgentPath("/api/agent/linux" + rest)
    ensures Ends(rest, "?") ==> ProbePath("/cp/health" + rest) && ProbePath("/cp/ready" + rest)
  {
    if i :| 0 <= i < |ONBOARDING_CALLS| && ONBOARDING_CALLS[i] == call {
      UnderRoute("/cp/trpc/onboarding." + call, rest, "?");
    }
    UnderRoute("/api/agent/windows", rest, "/?");
    UnderRoute("/api/agent/linux", rest, "/?");
    UnderRoute("/cp/health", rest, "?");
    UnderRoute("/cp/ready", rest, "?");
  }
}
