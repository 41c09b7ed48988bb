/**
 The bounded retry loop. Everything the loop learns from outside (clock
 readings, what an attempt returned, whether a shared budget still had a
 token, whether a sleep was interrupted) is an input, one record per round,
 because other requests use the same budgets at the same time.
 */
module RetryExecute {
  import opened Options
  import opened RetryProtocol
  import opened RetryRuns

  /** Largest duration; the remaining time when there is no outer deadline. */
  const FOREVER: int := 0x7FFF_FFFF_FFFF_FFFF

  const IDEMPOTENT: set<string> := {"GET", "HEAD", "PUT", "DELETE", "OPTIONS", "TRACE"}

  datatype Error = Dial | NetTimeout | DeadlineExceeded | Reset | Eof | Canceled | NoUpstream | NoTransport | Other

  datatype Policy = Policy(
    enabled: bool,
    maxAttempts: int,
    perTryTimeout: int,
    totalRetryBudget: int,
    retryOnStatus: set<int>,
    retryOnErrors: set<string>,
    backoff: int,
    backoffJitter: int)

  datatype Config = Config(
    policy: Policy,
    deadline: Option<int>,
    allowRetry: bool,
    budgetEnabled: bool,
    budgetError: bool,
    hasRouteBudget: bool,
    hasClientBudget: bool)
  {
    /** Every retry has to be granted a route token. */
    predicate RouteBudgetInForce() { budgetEnabled && !budgetError && hasRouteBudget }
  }

  datatype Outcome = Reply(status: int) | Failed(error: Error)

  datatype Round = Round(
    nowForDeadline: int,
    nowForBudget: int,
    outcome: Outcome,
    upstream: string,
    outerError: Option<Error>,
    routeHasToken: bool,
    clientHasToken: bool,
    jitter: nat,
    interrupted: Option<Error>)

  datatype Reason = NoReason | OnStatus(status: int) | OnError(category: string)

  datatype Result = Result(
    response: Option<int>,
    err: Option<Error>,
    retryCount: nat,
    retryReason: Reason,
    budgetExhausted: bool,
    upstream: string)

  function ClassifyError(e: Error): Option<string> {
    match e
    case Dial => Some("dial")
    case NetTimeout => Some("timeout")
    case DeadlineExceeded => Some("timeout")
    case Reset => Some("reset")
    case Eof => Some("eof")
    case _ => None
  }

  /** The shortest of the three limits, or 0 when an outer limit is used up. */
  function PerTryTimeout(perTry: int, remainingOuter: int, remainingBudget: int): (r: int)
    ensures 0 <= r
    ensures 0 < r <==> 0 < remainingOuter && 0 < remainingBudget
    ensures 0 < r ==> r <= remainingOuter && r <= remainingBudget && (0 < perTry ==> r <= perTry)
    ensures 0 < r ==> r == remainingOuter || r == remainingBudget || (0 < perTry && r == perTry)
  {
    if remainingOuter <= 0 || remainingBudget <= 0 then 0
    else if perTry <= 0 then (if remainingOuter < remainingBudget then remainingOuter else remainingBudget)
    else
      var a := if remainingOuter < perTry then remainingOuter else perTry;
      if remainingBudget < a then remainingBudget else a
  }

  function RemainingOuter(cfg: Config, round: Round): int {
    if cfg.deadline.Some? then cfg.deadline.value - round.nowForDeadline else FOREVER
  }

  function RemainingBudget(cfg: Config, start: int, round: Round): int {
    if 0 < cfg.policy.totalRetryBudget then cfg.policy.totalRetryBudget - (round.nowForBudget - start)
    else RemainingOuter(cfg, round)
  }

  /** The error that interrupted the pause before a retry, if any; no pause, no interruption. */
  function Interruption(policy: Policy, round: Round): Option<Error> {
    if policy.backoff + (if 0 < policy.backoffJitter then round.jitter else 0) <= 0 then None
    else round.interrupted
  }

  /** Attempts a request may make at all. */
  function AttemptLimit(cfg: Config): (n: int)
    ensures 1 <= n
  {
    if !cfg.policy.enabled || !cfg.allowRetry || cfg.policy.maxAttempts <= 0 then 1 else cfg.policy.maxAttempts
  }

  /**
   Every attempt of a trace ends before the outer deadline, within the retry
   budget counted from the start and within the timeout of one try, and is
   given all the time these three leave it.
   */
  predicate TimeoutsFit(cfg: Config, start: int, env: nat -> Round, trace: seq<RequestEvent>) {
    forall i :: 0 <= i < |trace| && trace[i].Attempt? ==>
      var round, end := env(trace[i].round), start + cfg.policy.totalRetryBudget;
      var timeout := trace[i].timeout;
      && 0 < timeout
      && (cfg.deadline.Some? ==> round.nowForDeadline + timeout <= cfg.deadline.value)
      && (0 < cfg.policy.totalRetryBudget ==> round.nowForBudget + timeout <= end)
      && (0 < cfg.policy.perTryTimeout ==> timeout <= cfg.policy.perTryTimeout)
      && (|| (cfg.deadline.Some? && round.nowForDeadline + timeout == cfg.deadline.value)
          || (0 < cfg.policy.totalRetryBudget && round.nowForBudget + timeout == end)
          || (0 < cfg.policy.perTryTimeout && timeout == cfg.policy.perTryTimeout)
          || (cfg.deadline.None? && timeout == FOREVER))
  }

  /** No attempt is made in a round that begins after the outer deadline or after the retry budget has run out. */
  predicate OutOfTime(cfg: Config, start: int, round: Round) {
    || (cfg.deadline.Some? && cfg.deadline.value <= round.nowForDeadline)
    || (0 < cfg.policy.totalRetryBudget && start + cfg.policy.totalRetryBudget <= round.nowForBudget)
  }

  /** The pause after the round lasts and is cut short. */
  predicate Interrupted(cfg: Config, round: Round) {
    round.interrupted.Some? && 0 < cfg.policy.backoff + (if 0 < cfg.policy.backoffJitter then round.jitter else 0)
  }

  /** The first `n` rounds began in time and paused to the end. */
  predicate OnTime(cfg: Config, start: int, env: nat -> Round, n: nat) {
    forall i :: 0 <= i < n ==> !OutOfTime(cfg, start, env(i)) && !Interrupted(cfg, env(i))
  }

  /**
   Where a request stops for lack of time: a round makes no attempt exactly
   when it is out of time, and the error is then that the deadline passed;
   a pause that is cut short ends the request with its own error.
   */
  predicate Stops(cfg: Config, start: int, env: nat -> Round, result: Result, trace: seq<RequestEvent>) {
    var n := result.retryCount;
    if Attempts(trace) == n + 1 then OnTime(cfg, start, env, n) && !OutOfTime(cfg, start, env(n))
    else if 0 < n && Interrupted(cfg, env(n - 1)) then
      OnTime(cfg, start, env, n - 1) && !OutOfTime(cfg, start, env(n - 1)) && result.err == env(n - 1).interrupted
    else OnTime(cfg, start, env, n) && OutOfTime(cfg, start, env(n)) && result.err == Some(DeadlineExceeded)
  }

  /** Why the outcome of a round calls for another one, if it does. */
  function RetryReason(cfg: Config, round: Round, last: bool): Option<Reason> {
    if last || !cfg.allowRetry then None
    else
      match round.outcome
      case Reply(status) => if status in cfg.policy.retryOnStatus then Some(OnStatus(status)) else None
      case Failed(error) =>
        var category := ClassifyError(error);
        if round.outerError.None? && category.Some? && category.value in cfg.policy.retryOnErrors
        then Some(OnError(category.value)) else None
  }

  /** The result when a round's outcome is passed on: its reply, the outer error, or the attempt's own error. */
  function Settled(result: Result, round: Round): Result {
    match round.outcome
    case Reply(status) => result.(response := Some(status))
    case Failed(error) => result.(err := if round.outerError.Some? then round.outerError else Some(error))
  }

  /** The budgets let this round be followed by a retry. */
  predicate Granted(cfg: Config, round: Round) {
    !cfg.budgetEnabled || (!cfg.budgetError && (cfg.hasRouteBudget ==> round.routeHasToken)
                           && (cfg.hasClientBudget ==> round.clientHasToken))
  }

  /** Round `i` is retried: its outcome calls for it, the attempt limit allows it and the budgets grant it. */
  predicate Retried(cfg: Config, env: nat -> Round, i: nat) {
    RetryReason(cfg, env(i), i + 1 >= AttemptLimit(cfg)).Some? && Granted(cfg, env(i))
  }

  /** What made round `i` call for a retry. */
  function Why(cfg: Config, env: nat -> Round, i: nat): Reason {
    RetryReason(cfg, env(i), i + 1 >= AttemptLimit(cfg)).GetOr(NoReason)
  }

  /** The request retries exactly as long as the rounds call for it, and passes on the outcome it stops at. */
  predicate Faithful(cfg: Config, env: nat -> Round, result: Result, trace: seq<RequestEvent>) {
    && (forall i :: 0 <= i < result.retryCount ==> Retried(cfg, env, i))
    && (Attempts(trace) != 0 ==> result.upstream == env(Attempts(trace) - 1).upstream)
    && result.retryReason == (if result.budgetExhausted then Why(cfg, env, result.retryCount)
                              else if 0 < result.retryCount then Why(cfg, env, result.retryCount - 1) else NoReason)
    && (Attempts(trace) == result.retryCount + 1 ==>
          var last := env(result.retryCount);
          && !Retried(cfg, env, result.retryCount)
          && Settled(result.(response := None, err := None), last) == result
          && (result.budgetExhausted <==> RetryReason(cfg, last, Attempts(trace) >= AttemptLimit(cfg)).Some?))
  }

  method ConsumeBudgets(cfg: Config, round: Round, before: seq<RequestEvent>)
    returns (ok: bool, trace: seq<RequestEvent>)
    ensures before <= trace && forall i :: |before| <= i < |trace| ==> !trace[i].Attempt? && !trace[i].Retry?
    ensures Attempts(trace) == Attempts(before) && Retries(trace) == Retries(before)
    ensures ok <==> Granted(cfg, round)
    ensures TokensTaken(trace) == TokensTaken(before) + if cfg.RouteBudgetInForce() && round.routeHasToken then 1 else 0
    ensures cfg.RouteBudgetInForce() && Follow(before) == Some(false) ==> Follow(trace) == Some(ok)
  {
    trace := before;
    if !cfg.budgetEnabled {
      return true, trace;
    }
    if cfg.budgetError {
      return false, trace;
    }
    if cfg.hasRouteBudget {
      Snoc(trace, TakeRoute(round.routeHasToken));
      trace := trace + [TakeRoute(round.routeHasToken)];
      if !round.routeHasToken {
        return false, trace;
      }
    }
    if cfg.hasClientBudget {
      Snoc(trace, TakeClient(round.clientHasToken));
      trace := trace + [TakeClient(round.clientHasToken)];
      if !round.clientHasToken {
        return false, trace;
      }
    }
    return true, trace;
  }

  /** What holds of a request between two rounds of the loop: every attempt so far was followed by a retry. */
  predicate BetweenRounds(cfg: Config, env: nat -> Round, result: Result, trace: seq<RequestEvent>, attempts: nat) {
    && Faithful(cfg, env, result, trace)
    && result.response.None? && result.err.None? && !result.budgetExhausted
    && attempts == result.retryCount == Attempts(trace) == Retries(trace)
    && (cfg.RouteBudgetInForce() ==> TokensTaken(trace) == attempts && Follow(trace) == Some(false))
  }

  /** What holds of a finished request. */
  predicate Finished(cfg: Config, result: Result, trace: seq<RequestEvent>) {
    && (result.response.Some? <==> result.err.None?)
    && result.retryCount == Retries(trace)
    && (Attempts(trace) == result.retryCount || Attempts(trace) == result.retryCount + 1)
    && Attempts(trace) <= AttemptLimit(cfg)
    && result.retryCount < AttemptLimit(cfg)
    && (result.response.Some? ==> Attempts(trace) == result.retryCount + 1)
    && (cfg.RouteBudgetInForce() ==>
          && Follow(trace).Some?
          && (TokensTaken(trace) == result.retryCount || TokensTaken(trace) == result.retryCount + 1))
    && (result.budgetExhausted ==> cfg.budgetEnabled)
  }

  method Execute(cfg: Config, hasAttempt: bool, start: int, env: nat -> Round)
    returns (result: Result, trace: seq<RequestEvent>)
    ensures Finished(cfg, result, trace)
    ensures hasAttempt ==> Faithful(cfg, env, result, trace)
    ensures hasAttempt ==> Stops(cfg, start, env, result, trace)
    ensures TimeoutsFit(cfg, start, env, trace)
    ensures !hasAttempt ==> trace == [] && result.err == Some(Canceled)
    ensures !cfg.allowRetry || !cfg.policy.enabled ==> result.retryCount == 0 && Attempts(trace) <= 1
  {
    result := Result(None, None, 0, NoReason, false, "");
    trace := [];
    if !hasAttempt {
      result := result.(err := Some(Canceled));
      return;
    }
    var maxAttempts := cfg.policy.maxAttempts;
    if maxAttempts <= 0 {
      maxAttempts := 1;
    }
    if !cfg.policy.enabled || !cfg.allowRetry {
      maxAttempts := 1;
    }

    var attempts := 0;
    while attempts < maxAttempts
      invariant 0 <= attempts < maxAttempts == AttemptLimit(cfg)
      invariant BetweenRounds(cfg, env, result, trace, attempts)
      invariant TimeoutsFit(cfg, start, env, trace) && OnTime(cfg, start, env, attempts)
    {
      var done;
      done, result, trace := TryOnce(cfg, attempts, start, env, result, trace);
      if done {
        return;
      }
      attempts := attempts + 1;
    }
  }

  /** One round of the loop. Unless the request is finished, another round is still allowed. */
  method TryOnce(cfg: Config, attempts: nat, start: int, env: nat -> Round, before: Result, past: seq<RequestEvent>)
    returns (done: bool, result: Result, trace: seq<RequestEvent>)
    requires attempts < AttemptLimit(cfg)
    requires BetweenRounds(cfg, env, before, past, attempts)
    requires TimeoutsFit(cfg, start, env, past) && OnTime(cfg, start, env, attempts)
    ensures TimeoutsFit(cfg, start, env, trace)
    ensures done ==> Finished(cfg, result, trace) && Faithful(cfg, env, result, trace) && Stops(cfg, start, env, result, trace)
    ensures !done ==> attempts + 1 < AttemptLimit(cfg) && BetweenRounds(cfg, env, result, trace, attempts + 1)
                      && OnTime(cfg, start, env, attempts + 1)
  {
    var round := env(attempts);
    result, trace := before, past;
    var perTry := PerTryTimeout(cfg.policy.perTryTimeout, RemainingOuter(cfg, round), RemainingBudget(cfg, start, round));
    if perTry <= 0 {
      return true, result.(err := Some(DeadlineExceeded)), trace;
    }
    Snoc(trace, Attempt(attempts, perTry));
    trace := trace + [Attempt(attempts, perTry)];
    result := result.(upstream := round.upstream);
    done, result, trace := AfterAttempt(cfg, attempts, env, result, trace);
  }

  /** What holds once the attempt of round `attempts` has come back. */
  predicate AttemptBack(cfg: Config, env: nat -> Round, result: Result, trace: seq<RequestEvent>, attempts: nat) {
    && attempts < AttemptLimit(cfg)
    && result.response.None? && result.err.None? && !result.budgetExhausted
    && attempts == result.retryCount == Retries(trace) == Attempts(trace) - 1
    && (cfg.RouteBudgetInForce() ==> TokensTaken(trace) == attempts && Follow(trace) == Some(false))
    && (forall i :: 0 <= i < attempts ==> Retried(cfg, env, i))
    && result.upstream == env(attempts).upstream
    && result.retryReason == (if 0 < attempts then Why(cfg, env, attempts - 1) else NoReason)
  }

  /** The rest of a round: stop with the outcome, or pay for a retry and pause. */
  method AfterAttempt(cfg: Config, attempts: nat, env: nat -> Round, before: Result, past: seq<RequestEvent>)
    returns (done: bool, result: Result, trace: seq<RequestEvent>)
    requires AttemptBack(cfg, env, before, past, attempts)
    ensures past <= trace && forall i :: |past| <= i < |trace| ==> !trace[i].Attempt?
    ensures done ==> Finished(cfg, result, trace) && Faithful(cfg, env, result, trace)
    ensures done ==> if Attempts(trace) == attempts + 1 == result.retryCount
                     then Interrupted(cfg, env(attempts)) && result.err == env(attempts).interrupted
                     else Attempts(trace) == attempts + 1 && result.retryCount == attempts
    ensures !done ==> !Interrupted(cfg, env(attempts))
    ensures !done ==> attempts + 1 < AttemptLimit(cfg) && BetweenRounds(cfg, env, result, trace, attempts + 1)
  {
    var round := env(attempts);
    result, trace := before, past;
    var reason := RetryReason(cfg, round, attempts + 1 >= AttemptLimit(cfg));
    if reason.None? {
      return true, Settled(result, round), trace;
    }
    result := result.(retryReason := reason.value);
    var ok;
    ok, trace := ConsumeBudgets(cfg, round, trace);
    if !ok {
      return true, Settled(result.(budgetExhausted := true), round), trace;
    }
    done, result, trace := PayAndPause(cfg, attempts, env, result, trace);
  }

  /** What holds once a retry after round `attempts` has been paid for. */
  predicate Paid(cfg: Config, env: nat -> Round, result: Result, trace: seq<RequestEvent>, attempts: nat) {
    && attempts + 1 < AttemptLimit(cfg)
    && result.response.None? && result.err.None? && !result.budgetExhausted
    && attempts == result.retryCount == Retries(trace) == Attempts(trace) - 1
    && (cfg.RouteBudgetInForce() ==> TokensTaken(trace) == attempts + 1 && Follow(trace) == Some(true))
    && (forall i :: 0 <= i <= attempts ==> Retried(cfg, env, i))
    && result.upstream == env(attempts).upstream
    && result.retryReason == Why(cfg, env, attempts)
  }

  /** The retry is counted; the pause before it may be interrupted. */
  method PayAndPause(cfg: Config, attempts: nat, env: nat -> Round, before: Result, past: seq<RequestEvent>)
    returns (done: bool, result: Result, trace: seq<RequestEvent>)
    requires Paid(cfg, env, before, past, attempts)
    ensures trace == past + [Retry]
    ensures result.retryCount == attempts + 1 == Attempts(trace)
    ensures done <==> Interrupted(cfg, env(attempts))
    ensures done ==> Finished(cfg, result, trace) && Faithful(cfg, env, result, trace) && result.err == env(attempts).interrupted
    ensures !done ==> BetweenRounds(cfg, env, result, trace, attempts + 1)
  {
    Snoc(past, Retry);
    trace := past + [Retry];
    result := before.(retryCount := before.retryCount + 1);
    var interruption := Interruption(cfg.policy, env(attempts));
    if interruption.Some? {
      return true, result.(err := interruption), trace;
    }
    return false, result, trace;
  }

  // ------------------------------------------------------------------
  // When a round is retried, and what a request returns
  // ------------------------------------------------------------------

  /**
   A round is retried if and only if retries are on and allowed, a try is
   left, its status or the kind of its error is on the policy's list (an
   error only while the request itself is still wanted), and both budgets
   grant a token where they apply.
   */
  lemma RetriedExactly(cfg: Config, env: nat -> Round, i: nat)
    ensures
      var p, round := cfg.policy, env(i);
      Retried(cfg, env, i)
      <==> && p.enabled && cfg.allowRetry && i + 1 < p.maxAttempts
           && (match round.outcome
               case Reply(status) => status in p.retryOnStatus
               case Failed(e) =>
                 && round.outerError.None?
                 && (|| (e.Dial? && "dial" in p.retryOnErrors)
                     || ((e.NetTimeout? || e.DeadlineExceeded?) && "timeout" in p.retryOnErrors)
                     || (e.Reset? && "reset" in p.retryOnErrors)
                     || (e.Eof? && "eof" in p.retryOnErrors)))
           && (!cfg.budgetEnabled ||
               (&& !cfg.budgetError && (!cfg.hasRouteBudget || round.routeHasToken)
                && (!cfg.hasClientBudget || round.clientHasToken)))
    ensures Retried(cfg, env, i) ==>
              Why(cfg, env, i) == match env(i).outcome
                                  case Reply(status) => OnStatus(status)
                                  case Failed(Dial) => OnError("dial")
                                  case Failed(Reset) => OnError("reset")
                                  case Failed(Eof) => OnError("eof")
                                  case Failed(_) => OnError("timeout")
  {
    if env(i).outcome.Failed? {
      assert ClassifyError(env(i).outcome.error).Some? ==>
          ClassifyError(env(i).outcome.error).value in {"dial", "timeout", "reset", "eof"};
    }
  }

  /**
   A request that was not stopped for lack of time returns the outcome of its
   last attempt: the reply, or the request's own error before the attempt's.
   The budgets are to blame exactly if that outcome called for a retry.
   */
  lemma PassesOn(cfg: Config, env: nat -> Round, result: Result, trace: seq<RequestEvent>)
    requires Finished(cfg, result, trace) && Faithful(cfg, env, result, trace) && Attempts(trace) == result.retryCount + 1
    ensures
      var last := env(result.retryCount);
      && result.upstream == last.upstream
      && (last.outcome.Reply? ==> result.response == Some(last.outcome.status) && result.err.None?)
      && (last.outcome.Failed? && last.outerError.Some? ==> result.response.None? && result.err == last.outerError)
      && (last.outcome.Failed? && last.outerError.None? ==> result.response.None? && result.err == Some(last.outcome.error))
    ensures result.budgetExhausted ==>
              && cfg.budgetEnabled && cfg.policy.enabled && cfg.allowRetry && result.retryCount + 1 < cfg.policy.maxAttempts
              && (|| cfg.budgetError || (cfg.hasRouteBudget && !env(result.retryCount).routeHasToken)
                  || (cfg.hasClientBudget && !env(result.retryCount).clientHasToken))
  {}

  // ------------------------------------------------------------------
  // Whole requests
  // ------------------------------------------------------------------

  /** Whether a request may be retried at all: the policy wants it, and the request can be repeated safely. */
  predicate MayRetry(policy: Policy, httpMethod: string, replayableBody: bool) {
    policy.enabled && policy.maxAttempts > 1 && httpMethod in IDEMPOTENT && replayableBody
  }

  /**
   A proxied request. Without anything to pick from, or without a transport,
   nothing is attempted. A request that is not idempotent or not replayable
   reaches an upstream at most once; one that succeeds earns the budgets a
   success only when its status is 2xx or 3xx.
   */
  method RoundTrip(cfg: Config, hasPicker: bool, hasTransport: bool, httpMethod: string, replayableBody: bool, start: int,
                   env: nat -> Round)
    returns (result: Result, trace: seq<RequestEvent>, earns: bool)
    ensures
      var repeatable := httpMethod in {"GET", "HEAD", "PUT", "DELETE", "OPTIONS", "TRACE"} && replayableBody;
      var gated := cfg.(allowRetry := cfg.policy.enabled && cfg.policy.maxAttempts > 1 && repeatable);
      && Finished(gated, result, trace) && Faithful(gated, env, result, trace) && TimeoutsFit(gated, start, env, trace)
      && (hasPicker && hasTransport ==> Stops(gated, start, env, result, trace))
    ensures !hasPicker ==> trace == [] && result.err == Some(NoUpstream)
    ensures hasPicker && !hasTransport ==> trace == [] && result.err == Some(NoTransport)
    ensures httpMethod !in IDEMPOTENT || !replayableBody ==> result.retryCount == 0 && Attempts(trace) <= 1
    ensures earns <==> result.response.Some? && 200 <= result.response.value < 400
  {
    if !hasPicker {
      return Result(None, Some(NoUpstream), 0, NoReason, false, ""), [], false;
    }
    if !hasTransport {
      return Result(None, Some(NoTransport), 0, NoReason, false, ""), [], false;
    }
    var gated := cfg.(allowRetry := MayRetry(cfg.policy, httpMethod, replayableBody));
    result, trace := Execute(gated, true, start, env);
    earns := result.response.Some? && 200 <= result.response.value < 400;
  }

  /**
   The bound of a route over its requests as they really run: each request
   does what its call of Execute traced, or has come part of the way; the
   requests interleave freely, with successes, lookups and reaping.
   */
  lemma ExecutesBounded(events: seq<Event>, cfgs: map<Request, Config>, results: map<Request, Result>,
                        traces: map<Request, seq<RequestEvent>>, percent: nat)
    requires traces.Keys == cfgs.Keys == results.Keys
    requires forall r <- traces :: cfgs[r].RouteBudgetInForce() && Finished(cfgs[r], results[r], traces[r])
    requires forall r :: Of(events, r) <= if r in traces then traces[r] else []
    requires AllAnswered(events)
    requires forall e <- events :: e.Lookup? ==> e.percent <= percent
    ensures TotalRetries(events) <= percent * Successes(events) / 100
  {
    forall r
      ensures Follow(Of(events, r)).Some?
    {
      if r in traces {
        FollowPrefix(traces[r], |Of(events, r)|);
        assert traces[r][..|Of(events, r)|] == Of(events, r);
      } else {
        assert Of(events, r) == [];
      }
    }
    RetriesBounded(events, percent);
  }
}
