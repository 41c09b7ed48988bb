/**
 The health of an endpoint over any run of probes, proxied requests and
 reconciliations: which of them eject it, which make it healthy again, and
 what its counters stand for.
 */
module EndpointHealth {
  import opened Pool
  import opened EjectBackoff

  /** A reconciliation serves the endpoint under a configuration, or removes it. */
  datatype Event =
    | Probe(at: int, ok: bool)
    | Request(at: int, ok: bool)
    | Serve(at: int, cfg: HealthConfig)
    | Remove(at: int, timeout: int)

  function Next(s: EndpointState, e: Event): EndpointState {
    match e
    case Probe(at, ok) => Probed(s, ok, at)
    case Request(at, ok) => if ok then SucceededRequest(s) else FailedRequest(s, at)
    case Serve(_, cfg) => Restored(s, cfg)
    case Remove(at, timeout) => Drained(s, timeout, at)
  }

  /** A run of an endpoint from new, as long as it is not reaped. */
  ghost predicate IsRun(cfg: HealthConfig, states: seq<EndpointState>, events: seq<Event>) {
    && |states| == |events| + 1 && states[0] == NewState(cfg)
    && forall i :: 0 <= i < |events| ==> states[i + 1] == Next(states[i], events[i])
  }

  /** The configuration in force after `n` events. */
  function CfgAt(cfg: HealthConfig, events: seq<Event>, n: nat): HealthConfig
    requires n <= |events|
  {
    if n == 0 then cfg else if events[n - 1].Serve? then events[n - 1].cfg else CfgAt(cfg, events, n - 1)
  }

  /** The last reconciliation removed the endpoint. */
  predicate Removed(events: seq<Event>, n: nat)
    requires n <= |events|
  {
    n != 0 && (events[n - 1].Remove? || (!events[n - 1].Serve? && Removed(events, n - 1)))
  }

  /** Probes with one outcome in a row, up to event `n`, while the endpoint was served; other events do not matter. */
  function ProbesInARow(events: seq<Event>, ok: bool, n: nat): nat
    requires n <= |events|
  {
    if n == 0 then 0
    else if !events[n - 1].Probe? || Removed(events, n - 1) then ProbesInARow(events, ok, n - 1)
    else if events[n - 1].ok == ok then ProbesInARow(events, ok, n - 1) + 1
    else 0
  }

  /** The event makes the endpoint healthy: it completes enough successful probes in a row. */
  predicate Heals(cfg: HealthConfig, events: seq<Event>, i: nat)
    requires i < |events|
  {
    && events[i].Probe? && events[i].ok && !Removed(events, i)
    && 0 < CfgAt(cfg, events, i).healthyAfter <= ProbesInARow(events, true, i + 1)
  }

  /** Requests that failed, while it was served, since one succeeded or the endpoint was made healthy. */
  function FailuresSince(cfg: HealthConfig, events: seq<Event>, n: nat): nat
    requires n <= |events|
  {
    if n == 0 || Heals(cfg, events, n - 1) || (events[n - 1].Request? && events[n - 1].ok) then 0
    else FailuresSince(cfg, events, n - 1) + if events[n - 1].Request? && !Removed(events, n - 1) then 1 else 0
  }

  /** The event ejects the endpoint: it is one failure too many in its series. */
  predicate Ejects(cfg: HealthConfig, events: seq<Event>, i: nat)
    requires i < |events|
  {
    && !Removed(events, i) && (events[i].Probe? || events[i].Request?) && !events[i].ok
    && 0 < CfgAt(cfg, events, i).unhealthyAfter
    && CfgAt(cfg, events, i).unhealthyAfter
       <= if events[i].Probe? then ProbesInARow(events, false, i + 1) else FailuresSince(cfg, events, i + 1)
  }

  /** The event takes a removed endpoint back. */
  predicate Returns(events: seq<Event>, i: nat)
    requires i < |events|
  {
    events[i].Serve? && Removed(events, i)
  }

  /** The event completes enough good probes, on an endpoint that is served and comes out as `t`. */
  predicate HealsTo(s: EndpointState, e: Event, t: EndpointState) {
    !s.IsDraining() && e.Probe? && e.ok && 0 < s.config.healthyAfter <= t.activeSuccesses
  }

  predicate EjectsTo(s: EndpointState, e: Event, t: EndpointState) {
    && !s.IsDraining() && (e.Probe? || e.Request?) && !e.ok
    && 0 < s.config.unhealthyAfter <= if e.Probe? then t.activeFails else t.passiveFails
  }

  /** What one event does to counters and health. */
  lemma StepIs(s: EndpointState, e: Event)
    ensures
      var t := Next(s, e);
      var probe := e.Probe? && !s.IsDraining();
      && t.config == (if e.Serve? then e.cfg else s.config)
      && t.activeSuccesses == (if !probe then s.activeSuccesses else if e.ok then s.activeSuccesses + 1 else 0)
      && t.activeFails == (if !probe then s.activeFails else if e.ok then 0 else s.activeFails + 1)
      && t.passiveFails == (if HealsTo(s, e, t) || (e.Request? && e.ok) then 0
                            else s.passiveFails + if e.Request? && !s.IsDraining() then 1 else 0)
      && t.health == (if e.Remove? then Draining
                      else if e.Serve? && s.IsDraining() then Healthy
                      else if EjectsTo(s, e, t) then Unhealthy
                      else if HealsTo(s, e, t) then Healthy
                      else s.health)
  {}

  /** The counters are the lengths of the series they are meant to count, through removals and returns. */
  lemma {:induction false} CountersExplained(cfg: HealthConfig, states: seq<EndpointState>, events: seq<Event>, n: nat)
    requires IsRun(cfg, states, events) && n <= |events|
    ensures states[n].config == CfgAt(cfg, events, n) && (states[n].IsDraining() <==> Removed(events, n))
    ensures states[n].activeFails == ProbesInARow(events, false, n)
    ensures states[n].activeSuccesses == ProbesInARow(events, true, n)
    ensures states[n].passiveFails == FailuresSince(cfg, events, n)
  {
    if n > 0 {
      CountersExplained(cfg, states, events, n - 1);
      StepIs(states[n - 1], events[n - 1]);
    }
  }

  /** Which events heal or eject is what the events say. */
  lemma DecisionsExplained(cfg: HealthConfig, states: seq<EndpointState>, events: seq<Event>, n: nat)
    requires IsRun(cfg, states, events) && n < |events|
    ensures HealsTo(states[n], events[n], states[n + 1]) <==> Heals(cfg, events, n)
    ensures EjectsTo(states[n], events[n], states[n + 1]) <==> Ejects(cfg, events, n)
  {
    CountersExplained(cfg, states, events, n);
    CountersExplained(cfg, states, events, n + 1);
  }

  /** The last event before `n` that decided the endpoint's health ejected it. */
  ghost predicate EjectedLast(cfg: HealthConfig, events: seq<Event>, n: nat)
    requires n <= |events|
  {
    exists i :: EjectedAt(cfg, events, i, n)
  }

  ghost predicate EjectedAt(cfg: HealthConfig, events: seq<Event>, i: int, n: nat)
    requires n <= |events|
  {
    0 <= i < n && Ejects(cfg, events, i) && forall j :: i < j < n ==> !Heals(cfg, events, j) && !Returns(events, j)
  }

  /**
   A removed endpoint drains. One that is served is unhealthy exactly when it
   was ejected and neither made healthy nor taken back since; waiting alone
   does not heal it.
   */
  lemma {:induction false} UnhealthyExactly(cfg: HealthConfig, states: seq<EndpointState>, events: seq<Event>, n: nat)
    requires IsRun(cfg, states, events) && n <= |events|
    ensures states[n].health == if Removed(events, n) then Draining else if EjectedLast(cfg, events, n) then Unhealthy else Healthy
  {
    if n > 0 {
      UnhealthyExactly(cfg, states, events, n - 1);
      CountersExplained(cfg, states, events, n - 1);
      DecisionsExplained(cfg, states, events, n - 1);
      StepIs(states[n - 1], events[n - 1]);
      EjectedNext(cfg, events, n - 1);
    }
  }

  lemma EjectedNext(cfg: HealthConfig, events: seq<Event>, n: nat)
    requires n < |events|
    ensures EjectedLast(cfg, events, n + 1)
       <==> Ejects(cfg, events, n) || (EjectedLast(cfg, events, n) && !Heals(cfg, events, n) && !Returns(events, n))
  {
    if Ejects(cfg, events, n) {
      assert EjectedAt(cfg, events, n, n + 1);
    } else if EjectedLast(cfg, events, n) && !Heals(cfg, events, n) && !Returns(events, n) {
      var i :| EjectedAt(cfg, events, i, n);
      assert EjectedAt(cfg, events, i, n + 1);
    }
    if EjectedLast(cfg, events, n + 1) && !Ejects(cfg, events, n) {
      var i :| EjectedAt(cfg, events, i, n + 1);
      assert EjectedAt(cfg, events, i, n);
    }
  }

  /**
   So an endpoint that was ejected, and neither made healthy nor taken back
   since, is never picked as healthy, however long ago the ejection ended.
   */
  lemma EjectedNeverPicked(cfg: HealthConfig, states: seq<EndpointState>, events: seq<Event>, i: nat, n: nat,
                           endpoints: Endpoints, order: seq<Addr>, outlier: Addr -> bool, rr: nat, now: int, a: Addr)
    requires IsRun(cfg, states, events) && n <= |events| && EjectedAt(cfg, events, i, n)
    requires a in endpoints && endpoints[a] == states[n] && order != []
    ensures
      var picked := PickOf(order, GoodAt(endpoints, now), outlier, rr);
      picked.selectedHealthy ==> picked.addr != a
  {
    UnhealthyExactly(cfg, states, events, n);
    PickMeans(order, GoodAt(endpoints, now), outlier, rr);
  }

  /**
   A new endpoint that fails its first `f` probes and passes all later ones
   is unhealthy from the configured number of failures on until the
   configured number of successes.
   */
  lemma {:induction false} DownThenUp(cfg: HealthConfig, states: seq<EndpointState>, events: seq<Event>, f: nat, n: nat)
    requires IsRun(cfg, states, events) && f <= |events| && n <= |events|
    requires forall i :: 0 <= i < |events| ==> events[i].Probe? && (events[i].ok <==> f <= i)
    ensures states[n].config == cfg
    ensures states[n].activeFails == (if n <= f then n else 0) && states[n].activeSuccesses == if n <= f then 0 else n - f
    ensures states[n].health == Unhealthy
       <==> 0 < cfg.unhealthyAfter && cfg.unhealthyAfter <= n && cfg.unhealthyAfter <= f
            && (n <= f || cfg.healthyAfter <= 0 || n - f < cfg.healthyAfter)
    ensures states[n].health != Draining
  {
    if n > 0 {
      DownThenUp(cfg, states, events, f, n - 1);
      StepIs(states[n - 1], events[n - 1]);
    }
  }

  /** Failed requests eject after the configured number too; a success among them starts the count again. */
  lemma {:induction false} FailsInARow(cfg: HealthConfig, states: seq<EndpointState>, events: seq<Event>, ok: nat, n: nat)
    requires IsRun(cfg, states, events) && ok < n <= |events|
    requires forall i :: 0 <= i < |events| ==> events[i].Request? && (events[i].ok <==> i == ok)
    ensures states[n].config == cfg && states[n].passiveFails == n - ok - 1
    ensures states[n].health == if 0 < cfg.unhealthyAfter && (cfg.unhealthyAfter <= ok || cfg.unhealthyAfter <= n - ok - 1)
                                then Unhealthy else Healthy
  {
    if ok == n - 1 {
      FailsFromNew(cfg, states, events, ok);
    } else {
      FailsInARow(cfg, states, events, ok, n - 1);
    }
    StepIs(states[n - 1], events[n - 1]);
  }

  lemma {:induction false} FailsFromNew(cfg: HealthConfig, states: seq<EndpointState>, events: seq<Event>, n: nat)
    requires IsRun(cfg, states, events) && n <= |events|
    requires forall i :: 0 <= i < n ==> events[i].Request? && !events[i].ok
    ensures states[n].config == cfg && states[n].passiveFails == n
    ensures states[n].health == if 0 < cfg.unhealthyAfter <= n then Unhealthy else Healthy
  {
    if n > 0 {
      FailsFromNew(cfg, states, events, n - 1);
      StepIs(states[n - 1], events[n - 1]);
    }
  }

  /** A removed endpoint drains until the deadline its first removal since it was last served set, whatever came after. */
  lemma {:induction false} DrainsFrom(cfg: HealthConfig, states: seq<EndpointState>, events: seq<Event>, n: nat) returns (r: nat)
    requires IsRun(cfg, states, events) && n <= |events| && states[n].health == Draining
    ensures r < n && events[r].Remove? && states[r].health != Draining
    ensures forall i :: r < i < n ==> !events[i].Serve?
    ensures states[n].drainUntil == events[r].at + events[r].timeout
  {
    StepIs(states[n - 1], events[n - 1]);
    if states[n - 1].health == Draining {
      r := DrainsFrom(cfg, states, events, n - 1);
    } else {
      r := n - 1;
    }
  }

  // ------------------------------------------------------------------
  // How long ejections last
  // ------------------------------------------------------------------

  function Base(cfg: HealthConfig): int { if cfg.baseEject <= 0 then SECOND else cfg.baseEject }

  function Max(cfg: HealthConfig): int { if cfg.maxEject <= 0 then Base(cfg) else cfg.maxEject }

  /** What one event does to the fields about ejections. */
  ghost predicate EjectionMoves(s: EndpointState, e: Event, t: EndpointState, heals: bool, ejects: bool) {
    && t.lastHealthyAt == (if heals then e.at else s.lastHealthyAt)
    && t.ejectCount == (if !ejects then s.ejectCount
                        else if 0 < s.lastHealthyAt && e.at - s.lastHealthyAt > FIVE_MINUTES then 1
                        else s.ejectCount + 1)
    && (ejects ==> t.ejectUntil == e.at + Min(Doubled(Base(s.config), Max(s.config), t.ejectCount - 1), Max(s.config)))
  }

  lemma StepEjects(s: EndpointState, e: Event)
    ensures EjectionMoves(s, e, Next(s, e), HealsTo(s, e, Next(s, e)), EjectsTo(s, e, Next(s, e)))
  {}

  /** Which events eject the endpoint and which make it healthy. */
  datatype Decisions = Decisions(ejects: seq<bool>, heals: seq<bool>)

  predicate Decided(cfg: HealthConfig, events: seq<Event>, d: Decisions) {
    && |d.ejects| == |d.heals| == |events|
    && (forall i :: 0 <= i < |events| ==> d.ejects[i] == Ejects(cfg, events, i))
    && (forall i :: 0 <= i < |events| ==> d.heals[i] == Heals(cfg, events, i))
  }

  /** The last event before `n` that made the endpoint healthy, or -1. */
  function LastHeal(d: Decisions, n: nat): (last: int)
    requires n <= |d.heals|
    ensures -1 <= last < n
  {
    if n == 0 then -1 else if d.heals[n - 1] then n - 1 else LastHeal(d, n - 1)
  }

  /** The event ejects the endpoint more than five minutes after it was last made healthy. */
  predicate EjectsLate(d: Decisions, events: seq<Event>, i: nat)
    requires i < |events| == |d.ejects| == |d.heals|
  {
    d.ejects[i] && 0 <= LastHeal(d, i) && events[i].at - events[LastHeal(d, i)].at > 300_000_000_000
  }

  function Ejections(d: Decisions, lo: nat, hi: nat): nat
    requires hi <= |d.ejects|
  {
    if hi <= lo then 0 else Ejections(d, lo, hi - 1) + if d.ejects[hi - 1] then 1 else 0
  }

  /** The count is of the ejections since event `s`: the last late one, or the start. */
  ghost predicate SeriesSince(d: Decisions, events: seq<Event>, s: nat, n: nat, state: EndpointState)
    requires n <= |events| == |d.ejects| == |d.heals|
  {
    && s <= n && (s == 0 || (s < n && EjectsLate(d, events, s)))
    && (forall i :: s < i < n ==> !EjectsLate(d, events, i))
    && state.ejectCount == Ejections(d, s, n)
    && state.lastHealthyAt == if LastHeal(d, n) < 0 then 0 else events[LastHeal(d, n)].at
  }

  /** Ties an event of a run to what it does to the state. */
  lemma EventMeans(cfg: HealthConfig, states: seq<EndpointState>, events: seq<Event>, n: nat)
    requires IsRun(cfg, states, events) && n < |events|
    ensures EjectionMoves(states[n], events[n], states[n + 1], Heals(cfg, events, n), Ejects(cfg, events, n))
    ensures states[n].config == CfgAt(cfg, events, n)
  {
    CountersExplained(cfg, states, events, n);
    DecisionsExplained(cfg, states, events, n);
    StepEjects(states[n], events[n]);
  }

  lemma SeriesNext(d: Decisions, events: seq<Event>, s: nat, n: nat, before: EndpointState, after: EndpointState) returns (s': nat)
    requires n < |events| == |d.ejects| == |d.heals| && forall e <- events :: 0 < e.at
    requires SeriesSince(d, events, s, n, before) && EjectionMoves(before, events[n], after, d.heals[n], d.ejects[n])
    ensures SeriesSince(d, events, s', n + 1, after)
  {
    s' := if EjectsLate(d, events, n) then n else s;
    if EjectsLate(d, events, n) {
      assert Ejections(d, n, n + 1) == 1;
    }
  }

  /**
   In every run the ejection count is the number of ejections since the last
   that came more than five minutes after the endpoint was last made healthy,
   or since the start.
   */
  lemma SeriesExplained(cfg: HealthConfig, states: seq<EndpointState>, events: seq<Event>, d: Decisions, n: nat)
    returns (s: nat)
    requires IsRun(cfg, states, events) && n <= |events| && Decided(cfg, events, d)
    requires forall e <- events :: 0 < e.at
    ensures SeriesSince(d, events, s, n, states[n])
  {
    forall i | 0 <= i < |events|
      ensures EjectionMoves(states[i], events[i], states[i + 1], d.heals[i], d.ejects[i])
    {
      EventMeans(cfg, states, events, i);
    }
    s := SeriesOf(states, events, d, n);
  }

  lemma {:induction false} SeriesOf(states: seq<EndpointState>, events: seq<Event>, d: Decisions, n: nat) returns (s: nat)
    requires n <= |events| == |d.ejects| == |d.heals| && |states| == |events| + 1 && forall e <- events :: 0 < e.at
    requires states[0].ejectCount == states[0].lastHealthyAt == 0
    requires forall i :: 0 <= i < |events| ==> EjectionMoves(states[i], events[i], states[i + 1], d.heals[i], d.ejects[i])
    ensures SeriesSince(d, events, s, n, states[n])
  {
    s := 0;
    if n > 0 {
      s := SeriesOf(states, events, d, n - 1);
      s := SeriesNext(d, events, s, n - 1, states[n - 1], states[n]);
    }
  }

  lemma {:induction false} SomeEjection(d: Decisions, lo: nat, i: nat, hi: nat)
    requires lo <= i < hi <= |d.ejects| && d.ejects[i]
    ensures 1 <= Ejections(d, lo, hi)
  {
    if i < hi - 1 {
      SomeEjection(d, lo, i, hi - 1);
    }
  }

  /**
   So an ejection counts as the first of a series if and only if it is the
   first ever or late, and then it lasts for the base time: an endpoint that
   has not been healthy for more than five minutes is ejected for the base
   time each time again, however often it was before.
   */
  lemma ShortExactly(cfg: HealthConfig, states: seq<EndpointState>, events: seq<Event>, d: Decisions, n: nat)
    requires IsRun(cfg, states, events) && n < |events| && Decided(cfg, events, d) && d.ejects[n]
    requires forall e <- events :: 0 < e.at
    ensures states[n + 1].ejectCount == 1 <==> EjectsLate(d, events, n) || Ejections(d, 0, n) == 0
    ensures
      var now := CfgAt(cfg, events, n);
      states[n + 1].ejectCount == 1 ==> states[n + 1].ejectUntil == events[n].at + Min(Base(now), Max(now))
  {
    var s := SeriesExplained(cfg, states, events, d, n);
    EventMeans(cfg, states, events, n);
    if s > 0 {
      SomeEjection(d, s, s, n);
      SomeEjection(d, 0, s, n);
    }
  }

  lemma {:induction false} NeverRemoved(events: seq<Event>, n: nat)
    requires n <= |events| && forall i :: 0 <= i < n ==> events[i].Probe?
    ensures !Removed(events, n)
  {
    if n > 0 {
      NeverRemoved(events, n - 1);
    }
  }

  lemma {:induction false} SameCfg(cfg: HealthConfig, events: seq<Event>, n: nat)
    requires n <= |events| && forall i :: 0 <= i < n ==> events[i].Probe?
    ensures CfgAt(cfg, events, n) == cfg
  {
    if n > 0 {
      SameCfg(cfg, events, n - 1);
    }
  }

  lemma {:induction false} RowOf(events: seq<Event>, ok: bool, lo: nat, n: nat)
    requires lo <= n <= |events| && (forall i :: 0 <= i < n ==> events[i].Probe?) && forall i :: lo <= i < n ==> events[i].ok == ok
    requires lo == 0 || (events[lo - 1].Probe? && events[lo - 1].ok != ok)
    ensures ProbesInARow(events, ok, n) == n - lo
  {
    if lo < n {
      NeverRemoved(events, n - 1);
      RowOf(events, ok, lo, n - 1);
    } else if 0 < n {
      NeverRemoved(events, n - 1);
    }
  }

  lemma {:induction false} HealStays(d: Decisions, h: nat, n: nat)
    requires h < n <= |d.heals| && d.heals[h] && forall i :: h < i < n ==> !d.heals[i]
    ensures LastHeal(d, n) == h
  {
    if h < n - 1 {
      HealStays(d, h, n - 1);
    }
  }

  /** That happens, twice in a row, to every endpoint with working health checks that then stays down. */
  lemma LateHappens(cfg: HealthConfig) returns (events: seq<Event>, d: Decisions, n: nat)
    requires 0 < cfg.healthyAfter && 0 < cfg.unhealthyAfter
    ensures n + 1 < |events| && (forall e <- events :: 0 < e.at) && Decided(cfg, events, d)
    ensures EjectsLate(d, events, n) && EjectsLate(d, events, n + 1)
  {
    var h, u := cfg.healthyAfter, cfg.unhealthyAfter;
    events := seq(h, _ => Probe(1, true)) + seq(u + 1, _ => Probe(2 + FIVE_MINUTES, false));
    n := h + u - 1;
    d := DecisionsOf(cfg, events);
    UpThenDown(cfg, events, h, u);
    assert forall i :: h <= i < |events| ==> !d.heals[i];
    HealStays(d, h - 1, n);
    HealStays(d, h - 1, n + 1);
  }

  lemma DecisionsOf(cfg: HealthConfig, events: seq<Event>) returns (d: Decisions)
    ensures Decided(cfg, events, d)
  {
    d := Decisions(seq(|events|, i requires 0 <= i < |events| => Ejects(cfg, events, i)),
                   seq(|events|, i requires 0 <= i < |events| => Heals(cfg, events, i)));
  }

  /** Enough good probes and then bad ones: which of them decide. */
  lemma UpThenDown(cfg: HealthConfig, events: seq<Event>, h: nat, u: nat)
    requires 0 < h == cfg.healthyAfter && 0 < u == cfg.unhealthyAfter && |events| == h + u + 1
    requires forall i :: 0 <= i < |events| ==> events[i].Probe? && (events[i].ok <==> i < h)
    ensures Heals(cfg, events, h - 1) && Ejects(cfg, events, h + u - 1) && Ejects(cfg, events, h + u)
  {
    ProbesOnly(cfg, events, h - 1);
    ProbesOnly(cfg, events, h + u - 1);
    ProbesOnly(cfg, events, h + u);
    RowOf(events, true, 0, h);
    RowOf(events, false, h, h + u);
    RowOf(events, false, h, h + u + 1);
  }

  lemma ProbesOnly(cfg: HealthConfig, events: seq<Event>, n: nat)
    requires n <= |events| && forall i :: 0 <= i < |events| ==> events[i].Probe?
    ensures !Removed(events, n) && CfgAt(cfg, events, n) == cfg
  {
    NeverRemoved(events, n);
    SameCfg(cfg, events, n);
  }
}
