/**
 The retry token budget: every recorded success earns a percentage of a
 token, every retry spends a whole one, and no more than `burst` are kept.
 Fractions of a token are exact here, in hundredths.
 */
module RetryBudget {

  datatype Tokens = Tokens(percent: int, burst: int, tokens: int, hundredths: int) {

    /** Never in debt, never above the burst, less than one token in fractions. */
    predicate Valid() {
      0 <= tokens && (tokens <= burst || tokens == 0) && 0 <= hundredths < 100
    }

    function Worth(): int { 100 * tokens + hundredths }
  }

  function Fresh(percent: int, burst: int): (b: Tokens)
    ensures b.Valid() && b.Worth() == 0
  {
    Tokens(percent, burst, 0, 0)
  }

  /** What one success is worth at most, in hundredths of a token. */
  function Earning(b: Tokens): int { if b.percent <= 0 then 0 else b.percent }

  function Min(a: int, b: int): int { if a < b then a else b }

  /** The budget after a recorded success. */
  function Credited(b: Tokens): (r: Tokens)
    ensures b.Valid() ==> r.Valid() && r.Worth() <= b.Worth() + Earning(b)
    ensures b.Valid() && 0 < b.burst && r.tokens < b.burst ==> r.Worth() == b.Worth() + Earning(b)
    ensures r.percent == b.percent && r.burst == b.burst
  {
    if b.percent <= 0 || b.burst <= 0 then b
    else
      var sum := b.hundredths + b.percent;
      b.(tokens := if sum < 100 then b.tokens else Min(b.burst, b.tokens + sum / 100), hundredths := sum % 100)
  }

  /** The budget after a granted token. */
  function Spent(b: Tokens): (r: Tokens)
    requires b.tokens > 0
    ensures b.Valid() ==> r.Valid()
    ensures r.Worth() == b.Worth() - 100
  {
    b.(tokens := b.tokens - 1)
  }

  /** A budget after `n` recorded successes and nothing else. */
  function Earned(percent: int, burst: int, n: nat): Tokens {
    if n == 0 then Fresh(percent, burst) else Credited(Earned(percent, burst, n - 1))
  }

  lemma EarnsOne(b: Tokens)
    requires b.Valid() && 0 <= b.percent && b.Worth() + b.percent < 100 * b.burst
    ensures Credited(b).Valid() && Credited(b).Worth() == b.Worth() + b.percent
  {}

  /** Until the burst is reached a new budget holds a whole token for every 100 percent earned, no more and no less. */
  lemma {:induction false} EarnsExactly(percent: nat, burst: int, n: nat)
    requires n * percent < 100 * burst
    ensures
      var b := Earned(percent, burst, n);
      b.Valid() && 100 * b.tokens + b.hundredths == n * percent && b.percent == percent && b.burst == burst
  {
    if n > 0 {
      assert n * percent == (n - 1) * percent + percent;
      EarnsExactly(percent, burst, n - 1);
      EarnsOne(Earned(percent, burst, n - 1));
    }
  }

  class Budget {
    const percent: int
    const burst: int
    var tokens: int
    var accumulator: int

    function View(): Tokens
      reads this
    {
      Tokens(percent, burst, tokens, accumulator)
    }

    constructor (percent: int, burst: int)
      ensures View() == Fresh(percent, burst)
    {
      this.percent, this.burst := percent, burst;
      tokens, accumulator := 0, 0;
    }

    method RecordSuccess()
      requires View().Valid()
      modifies this
      ensures View() == Credited(old(View())) && View().Valid()
    {
      if percent <= 0 || burst <= 0 {
        return;
      }
      accumulator := accumulator + percent;
      if accumulator < 100 {
        return;
      }
      var add := accumulator / 100;
      accumulator := accumulator - 100 * add;
      tokens := tokens + add;
      if tokens > burst {
        tokens := burst;
      }
    }

    method Consume() returns (ok: bool)
      requires View().Valid()
      modifies this
      ensures View().Valid() && (ok <==> old(tokens) > 0)
      ensures View() == if ok then Spent(old(View())) else old(View())
    {
      if tokens <= 0 {
        return false;
      }
      tokens := tokens - 1;
      return true;
    }
  }
}

/** What one proxied request does to its route's retry budget, as a protocol. */
module RetryProtocol {
  import opened Options

  /** `Attempt(round, timeout)` is the attempt made in a round of the retry loop. */
  datatype RequestEvent = Attempt(round: nat, timeout: int) | TakeRoute(granted: bool) | TakeClient(granted: bool) | Retry

  /**
   A request that has been granted a route token may retry once for it, or
   lose it to the client cap; without one it may not retry.
   */
  function Advance(paid: bool, event: RequestEvent): Option<bool> {
    match event
    case Attempt(_, _) => if paid then None else Some(false)
    case TakeRoute(granted) => if paid then None else Some(granted)
    case TakeClient(granted) => if paid then Some(granted) else None
    case Retry => if paid then Some(false) else None
  }

  /** Follows a whole trace; None if some event was out of turn. */
  function Follow(trace: seq<RequestEvent>): Option<bool> {
    if trace == [] then Some(false)
    else
      match Follow(trace[..|trace| - 1])
      case None => None
      case Some(paid) => Advance(paid, trace[|trace| - 1])
  }

  function Attempts(trace: seq<RequestEvent>): nat {
    if trace == [] then 0
    else Attempts(trace[..|trace| - 1]) + if trace[|trace| - 1].Attempt? then 1 else 0
  }

  function Retries(trace: seq<RequestEvent>): nat {
    if trace == [] then 0
    else Retries(trace[..|trace| - 1]) + if trace[|trace| - 1].Retry? then 1 else 0
  }

  function TokensTaken(trace: seq<RequestEvent>): nat {
    if trace == [] then 0
    else TokensTaken(trace[..|trace| - 1]) + if trace[|trace| - 1] == TakeRoute(true) then 1 else 0
  }

  lemma Snoc(trace: seq<RequestEvent>, event: RequestEvent)
    ensures Attempts(trace + [event]) == Attempts(trace) + if event.Attempt? then 1 else 0
    ensures Retries(trace + [event]) == Retries(trace) + if event.Retry? then 1 else 0
    ensures TokensTaken(trace + [event]) == TokensTaken(trace) + if event == TakeRoute(true) then 1 else 0
    ensures Follow(trace + [event]) == match Follow(trace) case None => None case Some(paid) => Advance(paid, event)
  {
    assert (trace + [event])[..|trace|] == trace;
  }

  /** Every beginning of a trace in turn is in turn. */
  lemma {:induction false} FollowPrefix(trace: seq<RequestEvent>, n: nat)
    requires n <= |trace| && Follow(trace).Some?
    ensures Follow(trace[..n]).Some?
    decreases |trace|
  {
    if n == |trace| {
      assert trace[..n] == trace;
    } else {
      FollowPrefix(trace[..|trace| - 1], n);
      assert trace[..|trace| - 1][..n] == trace[..n];
    }
  }

  /** However far a request has come, it has not retried more often than it was granted a token. */
  lemma {:induction false} RetriesArePaid(trace: seq<RequestEvent>)
    requires Follow(trace).Some?
    ensures Retries(trace) + (if Follow(trace).value then 1 else 0) <= TokensTaken(trace)
  {
    if trace != [] {
      RetriesArePaid(trace[..|trace| - 1]);
    }
  }
}

/**
 All requests of one route against all the budgets that route ever has. The
 registry replaces a budget when its policy changes and drops it when it is
 idle; requests in flight go on using the one they were given. Requests made
 while the route's budget is switched off take no part: they have no budget
 to ask, and the next policy that switches it on gets a new one.
 */
module RetryRuns {
  import opened Options
  import opened RetryBudget
  import opened RetryProtocol

  type Request = nat

  datatype Route = Route(
    budgets: seq<Tokens>,
    current: Option<nat>,
    /** Requests that hold a granted token they have not yet used. */
    paid: set<Request>,
    successes: nat,
    retries: nat,
    taken: nat,
    /** Hundredths of a token the recorded successes were worth at most. */
    earned: int)

  datatype Event =
    | Lookup(percent: int, burst: int, otherPolicyChanged: bool)
    | Reap
    | RecordSuccess(budget: nat)
    | Step(request: Request, budget: nat, event: RequestEvent)

  const IDLE := Route([], None, {}, 0, 0, 0, 0)

  /** The budgets in question exist, and a token is granted exactly if there is one. */
  predicate Answered(s: Route, e: Event) {
    match e
    case Lookup(_, _, _) => true
    case Reap => true
    case RecordSuccess(b) => b < |s.budgets|
    case Step(_, b, event) => b < |s.budgets| && (event.TakeRoute? ==> event.granted == (s.budgets[b].tokens > 0))
  }

  /** And a request's event is one that its own trace allows next. */
  predicate Enabled(s: Route, e: Event) {
    Answered(s, e) && (e.Step? ==> Advance(e.request in s.paid, e.event).Some?)
  }

  function Next(s: Route, e: Event): Route
    requires Enabled(s, e)
  {
    match e
    case Lookup(percent, burst, changed) =>
      if s.current.Some? && s.current.value < |s.budgets| && !changed
         && s.budgets[s.current.value].percent == percent && s.budgets[s.current.value].burst == burst
      then s
      else s.(budgets := s.budgets + [Fresh(percent, burst)], current := Some(|s.budgets|))
    case Reap => s.(current := None)
    case RecordSuccess(b) =>
      s.(budgets := s.budgets[b := Credited(s.budgets[b])], successes := s.successes + 1,
         earned := s.earned + Earning(s.budgets[b]))
    case Step(r, b, event) =>
      var paid := if Advance(r in s.paid, event).value then s.paid + {r} else s.paid - {r};
      match event
      case TakeRoute(true) => s.(budgets := s.budgets[b := Spent(s.budgets[b])], taken := s.taken + 1, paid := paid)
      case Retry => s.(retries := s.retries + 1, paid := paid)
      case _ => s.(paid := paid)
  }

  function Run(s: Route, events: seq<Event>): Option<Route> {
    if events == [] then Some(s)
    else
      match Run(s, events[..|events| - 1])
      case None => None
      case Some(t) => if Enabled(t, events[|events| - 1]) then Some(Next(t, events[|events| - 1])) else None
  }

  function Worth(budgets: seq<Tokens>): int {
    if budgets == [] then 0 else Worth(budgets[..|budgets| - 1]) + budgets[|budgets| - 1].Worth()
  }

  lemma WorthSnoc(budgets: seq<Tokens>, b: Tokens)
    ensures Worth(budgets + [b]) == Worth(budgets) + b.Worth()
  {
    assert (budgets + [b])[..|budgets|] == budgets;
  }

  lemma {:induction false} WorthUpdate(budgets: seq<Tokens>, i: nat, b: Tokens)
    requires i < |budgets|
    ensures Worth(budgets[i := b]) == Worth(budgets) - budgets[i].Worth() + b.Worth()
  {
    var n := |budgets| - 1;
    if i == n {
      assert budgets[i := b][..n] == budgets[..n];
    } else {
      WorthUpdate(budgets[..n], i, b);
      assert budgets[i := b][..n] == budgets[..n][i := b];
    }
  }

  lemma {:induction false} WorthNonNegative(budgets: seq<Tokens>)
    requires forall b <- budgets :: b.Valid()
    ensures 0 <= Worth(budgets)
  {
    if budgets != [] {
      WorthNonNegative(budgets[..|budgets| - 1]);
      assert budgets[|budgets| - 1] in budgets;
    }
  }

  /** Tokens kept, tokens spent and retries made are all covered by what successes earned. */
  predicate Inv(s: Route) {
    && (forall b <- s.budgets :: b.Valid())
    && Worth(s.budgets) + 100 * s.taken <= s.earned
    && s.retries + |s.paid| <= s.taken
  }

  lemma InvKept(s: Route, e: Event)
    requires Inv(s) && Enabled(s, e)
    ensures Inv(Next(s, e))
  {
    match e {
      case Lookup(percent, burst, _) => WorthSnoc(s.budgets, Fresh(percent, burst));
      case Reap =>
      case RecordSuccess(b) => WorthUpdate(s.budgets, b, Credited(s.budgets[b]));
      case Step(r, b, event) =>
        if event == TakeRoute(true) {
          WorthUpdate(s.budgets, b, Spent(s.budgets[b]));
        }
        assert r in s.paid ==> |s.paid - {r}| == |s.paid| - 1;
        assert r !in s.paid ==> s.paid - {r} == s.paid;
    }
  }

  lemma {:induction false} InvAlways(s: Route, events: seq<Event>)
    requires Inv(s) && Run(s, events).Some?
    ensures Inv(Run(s, events).value)
  {
    if events != [] {
      InvAlways(s, events[..|events| - 1]);
      InvKept(Run(s, events[..|events| - 1]).value, events[|events| - 1]);
    }
  }

  /** The percentage in force never exceeds `percent`. */
  predicate AtMost(budgets: seq<Tokens>, percent: nat) {
    forall b <- budgets :: b.percent <= percent
  }

  lemma {:induction false} EarnedAtMost(s: Route, events: seq<Event>, percent: nat)
    requires Run(s, events).Some?
    requires AtMost(s.budgets, percent) && s.earned <= percent * s.successes
    requires forall e <- events :: e.Lookup? ==> e.percent <= percent
    ensures AtMost(Run(s, events).value.budgets, percent)
    ensures Run(s, events).value.earned <= percent * Run(s, events).value.successes
  {
    if events != [] {
      var front := events[..|events| - 1];
      EarnedAtMost(s, front, percent);
      assert events[|events| - 1] in events;
      EarnedNext(Run(s, front).value, events[|events| - 1], percent);
    }
  }

  lemma EarnedNext(s: Route, e: Event, percent: nat)
    requires Enabled(s, e) && AtMost(s.budgets, percent) && s.earned <= percent * s.successes
    requires e.Lookup? ==> e.percent <= percent
    ensures AtMost(Next(s, e).budgets, percent) && Next(s, e).earned <= percent * Next(s, e).successes
  {
    if e.RecordSuccess? {
      assert s.budgets[e.budget] in s.budgets;
      assert percent * (s.successes + 1) == percent * s.successes + percent;
    }
  }

  // ------------------------------------------------------------------
  // One request among all
  // ------------------------------------------------------------------

  /** What one request did, in order. */
  function Of(events: seq<Event>, r: Request): seq<RequestEvent> {
    if events == [] then []
    else
      var front, e := Of(events[..|events| - 1], r), events[|events| - 1];
      if e.Step? && e.request == r then front + [e.event] else front
  }

  function TotalRetries(events: seq<Event>): nat {
    if events == [] then 0
    else
      var e := events[|events| - 1];
      TotalRetries(events[..|events| - 1]) + if e.Step? && e.event.Retry? then 1 else 0
  }

  function Successes(events: seq<Event>): nat {
    if events == [] then 0
    else Successes(events[..|events| - 1]) + if events[|events| - 1].RecordSuccess? then 1 else 0
  }

  /** Along every run a request holds an unused token exactly if its own trace says so, and the totals are those of the events. */
  lemma {:induction false} PaidExactly(events: seq<Event>, r: Request)
    requires Run(IDLE, events).Some?
    ensures Follow(Of(events, r)) == Some(r in Run(IDLE, events).value.paid)
    ensures Run(IDLE, events).value.retries == TotalRetries(events) && Run(IDLE, events).value.successes == Successes(events)
  {
    if events != [] {
      var front, e := events[..|events| - 1], events[|events| - 1];
      PaidExactly(front, r);
      if e.Step? {
        RetryProtocol.Snoc(Of(front, r), e.event);
      }
    }
  }

  /** At every point the budgets answer as they stand. */
  ghost predicate AllAnswered(events: seq<Event>) {
    forall i :: 0 <= i < |events| && Run(IDLE, events[..i]).Some? ==> Answered(Run(IDLE, events[..i]).value, events[i])
  }

  /** An event that continues its request's trace and fits the budget's answer can happen next. */
  lemma ContinuesRun(events: seq<Event>, e: Event)
    requires Run(IDLE, events).Some? && Answered(Run(IDLE, events).value, e)
    requires e.Step? ==> Follow(Of(events, e.request) + [e.event]).Some?
    ensures Run(IDLE, events + [e]).Some?
  {
    assert (events + [e])[..|events|] == events;
    if e.Step? {
      PaidExactly(events, e.request);
      RetryProtocol.Snoc(Of(events, e.request), e.event);
    }
  }

  /** Any interleaving of requests that each keep to their own protocol is a run. */
  lemma {:induction false} TracesRun(events: seq<Event>)
    requires AllAnswered(events) && forall r :: Follow(Of(events, r)).Some?
    ensures Run(IDLE, events).Some?
  {
    if events != [] {
      var front, e := events[..|events| - 1], events[|events| - 1];
      assert forall i :: 0 <= i < |front| ==> front[..i] == events[..i];
      forall r
        ensures Follow(Of(front, r)).Some?
      {
        assert Follow(Of(events, r)).Some?;
        FollowPrefix(Of(events, r), |Of(front, r)|);
        assert Of(events, r)[..|Of(front, r)|] == Of(front, r);
      }
      TracesRun(front);
      assert events == front + [e];
      assert e.Step? ==> Follow(Of(events, e.request)).Some?;
      ContinuesRun(front, e);
    }
  }

  /**
   No retry amplification: after any interleaving of requests that keep to
   the protocol, successes, policy lookups and reaping, the route has retried
   at most floor(percent * successes / 100) times, where `percent` bounds
   every policy looked up; and every budget holds between 0 and its burst.
   */
  lemma RetriesBounded(events: seq<Event>, percent: nat)
    requires AllAnswered(events) && forall r :: Follow(Of(events, r)).Some?
    requires forall e <- events :: e.Lookup? ==> e.percent <= percent
    ensures TotalRetries(events) <= percent * Successes(events) / 100
    ensures Run(IDLE, events).Some?
    ensures forall b <- Run(IDLE, events).value.budgets :: 0 <= b.tokens && (b.tokens <= b.burst || b.tokens == 0)
  {
    TracesRun(events);
    PaidExactly(events, 0);
    InvAlways(IDLE, events);
    EarnedAtMost(IDLE, events, percent);
    var s := Run(IDLE, events).value;
    WorthNonNegative(s.budgets);
    assert 100 * s.retries <= percent * s.successes;
  }
}
