/**
 How much of a pool outlier detection can eject at a time. Each endpoint has
 its own state and its own run of results and latency verdicts; the pool's
 configured limit is not consulted anywhere.
 */
module EjectLimit {
  import opened Arith
  import opened EjectBackoff
  import opened OutlierState
  import Configuration

  predicate IsEjected(c: Cell, now: int) { 0 < c.ejectUntil && now < c.ejectUntil }

  /** Some of the three causes can apply at all. */
  predicate CanEject(cfg: Config) {
    || 0 < cfg.consecutiveFailures
    || 0 < cfg.errorRateThresholdPercent <= 100
    || (cfg.latencyEnabled && 0 < cfg.latencyConsecutiveIntervals)
  }

  /** The past of one endpoint. */
  datatype Past = Past(cells: seq<Cell>, events: seq<Event>)

  /** A run up to `now`, on a clock that is positive and never runs backwards. */
  ghost predicate LeadsTo(cfg: Config, p: Past, now: int) {
    && IsRun(cfg, p.cells, p.events)
    && (forall i :: 0 <= i < |p.events| ==> 0 < p.events[i].at <= now)
    && (forall i, j :: 0 <= i < j < |p.events| ==> p.events[i].at <= p.events[j].at)
  }

  ghost predicate EjectedAt(cfg: Config, p: Past, now: int)
    requires LeadsTo(cfg, p, now)
  {
    IsEjected(p.cells[|p.events|], now)
  }

  // ------------------------------------------------------------------
  // Configurations that never eject
  // ------------------------------------------------------------------

  /** Nothing has been ejected, and no more results failed than there were. */
  predicate Untouched(c: Cell) { c.ejectUntil == 0 && c.windowFail <= c.windowReq }

  lemma NoShareIsTooHigh(cfg: Config, requests: int, failures: int)
    requires !(0 < cfg.errorRateThresholdPercent <= 100) && failures <= requests
    ensures !ShareTooHigh(cfg, requests, failures)
  {
    if 100 < cfg.errorRateThresholdPercent && 0 < requests {
      assert cfg.errorRateThresholdPercent * requests >= 101 * requests;
    }
  }

  lemma UntouchedByResult(c: Cell, cfg: Config, success: bool, now: int)
    requires !CanEject(cfg) && Untouched(c)
    ensures Untouched(AfterResult(c, cfg, success, now).0)
  {
    var d := Counted(c, cfg, success, now);
    NoShareIsTooHigh(cfg, d.windowReq, d.windowFail);
  }

  lemma UntouchedByLatency(c: Cell, cfg: Config, bad: bool, now: int)
    requires !CanEject(cfg) && Untouched(c)
    ensures Untouched(AfterLatency(c, cfg, bad, now).0)
  {}

  lemma {:induction false} NeverEjects(cfg: Config, cells: seq<Cell>, events: seq<Event>, n: nat)
    requires IsRun(cfg, cells, events) && n <= |events| && !CanEject(cfg)
    ensures Untouched(cells[n])
  {
    if n > 0 {
      NeverEjects(cfg, cells, events, n - 1);
      match events[n - 1] {
        case Result(at, good) => UntouchedByResult(cells[n - 1], cfg, good, at);
        case Interval(at, good) => UntouchedByLatency(cells[n - 1], cfg, !good, at);
      }
    }
  }

  // ------------------------------------------------------------------
  // All the others do
  // ------------------------------------------------------------------

  /** The cells a new endpoint goes through. */
  function CellsOf(cfg: Config, events: seq<Event>): (cells: seq<Cell>)
    ensures |cells| == |events| + 1 && cells[0] == NEW
    ensures forall i :: 0 <= i < |events| ==> cells[i + 1] == Next(cells[i], cfg, events[i]).0
  {
    if events == [] then [NEW]
    else
      var front := CellsOf(cfg, events[..|events| - 1]);
      front + [Next(front[|events| - 1], cfg, events[|events| - 1]).0]
  }

  ghost predicate Ejects(cfg: Config, cells: seq<Cell>, events: seq<Event>, i: int)
    requires IsRun(cfg, cells, events) && 0 <= i < |events|
  {
    Next(cells[i], cfg, events[i]).1 != Kept
  }

  lemma {:induction false} AllTrailing(events: seq<Event>, e: Event, n: nat)
    requires n <= |events| && !e.good && forall i :: 0 <= i < n ==> events[i] == e
    ensures Trailing(events, e.Result?, n) == n
  {
    if n > 0 {
      AllTrailing(events, e, n - 1);
    }
  }

  /** Enough failures in a row eject. */
  lemma FailuresEject(cfg: Config, cells: seq<Cell>, events: seq<Event>)
    requires IsRun(cfg, cells, events) && 0 < cfg.consecutiveFailures == |events|
    requires forall i :: 0 <= i < |events| ==> events[i] == Result(1, false)
    ensures Ejects(cfg, cells, events, |events| - 1)
  {
    AllTrailing(events, Result(1, false), |events|);
    DivIs(|events|, |events|, 1, 0);
    FailsEjectExactly(cfg, cells, events, |events| - 1);
  }

  /** Enough slow intervals in a row eject. */
  lemma SlowEjects(cfg: Config, cells: seq<Cell>, events: seq<Event>)
    requires IsRun(cfg, cells, events) && cfg.latencyEnabled && 0 < cfg.latencyConsecutiveIntervals == |events|
    requires forall i :: 0 <= i < |events| ==> events[i] == Interval(1, false)
    ensures Ejects(cfg, cells, events, |events| - 1)
  {
    AllTrailing(events, Interval(1, false), |events|);
    DivIs(|events|, |events|, 1, 0);
    SlowEjectsExactly(cfg, cells, events, |events| - 1);
  }

  lemma {:induction false} FailuresCount(cfg: Config, cells: seq<Cell>, events: seq<Event>, n: nat)
    requires IsRun(cfg, cells, events) && n <= |events| && n < cfg.MinRequests() && cfg.consecutiveFailures <= 0
    requires forall i :: 0 <= i < n ==> events[i] == Result(1, false)
    ensures cells[n].windowReq == cells[n].windowFail == n && cells[n].windowStart == if n == 0 then 0 else 1
  {
    if n > 0 {
      FailuresCount(cfg, cells, events, n - 1);
      assert cells[n] == AfterResult(cells[n - 1], cfg, false, 1).0;
    }
  }

  /** Where failures in a row do not count, enough of them eject for their share. */
  lemma ShareEjects(cfg: Config, cells: seq<Cell>, events: seq<Event>)
    requires IsRun(cfg, cells, events) && cfg.MinRequests() == |events| && cfg.consecutiveFailures <= 0
    requires 0 < cfg.errorRateThresholdPercent <= 100
    requires forall i :: 0 <= i < |events| ==> events[i] == Result(1, false)
    ensures Ejects(cfg, cells, events, |events| - 1)
  {
    var n := |events| - 1;
    FailuresCount(cfg, cells, events, n);
    assert cfg.errorRateThresholdPercent * (n + 1) <= 100 * (n + 1);
  }

  lemma {:induction false} NotYetEjected(cfg: Config, cells: seq<Cell>, events: seq<Event>, n: nat)
    requires IsRun(cfg, cells, events) && n <= |events| && forall i :: 0 <= i < n ==> !Ejects(cfg, cells, events, i)
    ensures cells[n].ejectCount == 0
  {
    if n > 0 {
      NotYetEjected(cfg, cells, events, n - 1);
      assert !Ejects(cfg, cells, events, n - 1);
      EjectsMeans(cells[n - 1], cfg, events[n - 1]);
    }
  }

  lemma {:induction false} FirstEjection(cfg: Config, cells: seq<Cell>, events: seq<Event>, n: nat) returns (m: nat)
    requires IsRun(cfg, cells, events) && n < |events| && Ejects(cfg, cells, events, n)
    ensures m <= n && Ejects(cfg, cells, events, m) && cells[m].ejectCount == 0
  {
    if i :| 0 <= i < n && Ejects(cfg, cells, events, i) {
      m := FirstEjection(cfg, cells, events, i);
    } else {
      NotYetEjected(cfg, cells, events, n);
      m := n;
    }
  }

  /** At its first ejection an endpoint is out for the base time, or the maximum if that is less. */
  lemma FirstEjectionLasts(cfg: Config, cells: seq<Cell>, events: seq<Event>, m: nat)
    requires IsRun(cfg, cells, events) && m < |events| && Ejects(cfg, cells, events, m) && cells[m].ejectCount == 0
    requires 0 < events[m].at
    ensures IsEjected(cells[m + 1], events[m].at)
  {
    EjectsMeans(cells[m], cfg, events[m]);
    assert Duration(cfg, 1) == Min(cfg.Base(), cfg.Max());
  }

  /** The events that eject an endpoint, by whatever cause the configuration has. */
  lemma EjectingEvents(cfg: Config) returns (events: seq<Event>)
    requires cfg.enabled && CanEject(cfg)
    ensures events != [] && forall i :: 0 <= i < |events| ==> events[i].at == 1
    ensures IsRun(cfg, CellsOf(cfg, events), events) && Ejects(cfg, CellsOf(cfg, events), events, |events| - 1)
  {
    if 0 < cfg.consecutiveFailures {
      events := seq(cfg.consecutiveFailures, _ => Result(1, false));
      FailuresEject(cfg, CellsOf(cfg, events), events);
    } else if 0 < cfg.errorRateThresholdPercent <= 100 {
      events := seq(cfg.MinRequests(), _ => Result(1, false));
      ShareEjects(cfg, CellsOf(cfg, events), events);
    } else {
      events := seq(cfg.latencyConsecutiveIntervals, _ => Interval(1, false));
      SlowEjects(cfg, CellsOf(cfg, events), events);
    }
  }

  lemma EjectedPast(cfg: Config) returns (p: Past)
    requires cfg.enabled && CanEject(cfg)
    ensures LeadsTo(cfg, p, 1) && EjectedAt(cfg, p, 1)
  {
    var events := EjectingEvents(cfg);
    var cells := CellsOf(cfg, events);
    var m := FirstEjection(cfg, cells, events, |events| - 1);
    FirstEjectionLasts(cfg, cells, events, m);
    p := Past(cells[..m + 2], events[..m + 1]);
  }

  // ------------------------------------------------------------------
  // The pool
  // ------------------------------------------------------------------

  /** The pasts of the endpoints of one pool. */
  ghost predicate PoolAt(cfg: Config, k: nat, pasts: seq<Past>, now: int) {
    |pasts| == k && forall j :: 0 <= j < k ==> LeadsTo(cfg, pasts[j], now)
  }

  ghost predicate AllEjected(cfg: Config, k: nat, pasts: seq<Past>, now: int) {
    PoolAt(cfg, k, pasts, now) && forall j :: 0 <= j < k ==> EjectedAt(cfg, pasts[j], now)
  }

  /** Every endpoint of a pool can be out at one instant if and only if the configuration has a cause to eject at all. */
  lemma AllEjectedExactly(cfg: Config, k: nat)
    requires cfg.enabled && 0 < k
    ensures (exists pasts: seq<Past>, now: int :: AllEjected(cfg, k, pasts, now)) <==> CanEject(cfg)
  {
    if CanEject(cfg) {
      var p := EjectedPast(cfg);
      var pasts := seq(k, _ => p);
      assert AllEjected(cfg, k, pasts, 1);
    } else {
      forall pasts: seq<Past>, now: int | PoolAt(cfg, k, pasts, now)
        ensures !AllEjected(cfg, k, pasts, now)
      {
        NeverEjects(cfg, pasts[0].cells, pasts[0].events, |pasts[0].events|);
      }
    }
  }

  /** How many of the endpoints are out. */
  ghost function EjectedCount(cfg: Config, k: nat, pasts: seq<Past>, now: int): (n: nat)
    requires PoolAt(cfg, k, pasts, now)
    ensures n <= k
  {
    if k == 0 then 0
    else EjectedCount(cfg, k - 1, pasts[..k - 1], now) + if EjectedAt(cfg, pasts[k - 1], now) then 1 else 0
  }

  lemma {:induction false} CountsAll(cfg: Config, k: nat, pasts: seq<Past>, now: int)
    requires AllEjected(cfg, k, pasts, now)
    ensures EjectedCount(cfg, k, pasts, now) == k
  {
    if k > 0 {
      CountsAll(cfg, k - 1, pasts[..k - 1], now);
    }
  }

  lemma {:induction false} CountsNone(cfg: Config, k: nat, pasts: seq<Past>, now: int)
    requires PoolAt(cfg, k, pasts, now) && !CanEject(cfg)
    ensures EjectedCount(cfg, k, pasts, now) == 0
  {
    if k > 0 {
      CountsNone(cfg, k - 1, pasts[..k - 1], now);
      NeverEjects(cfg, pasts[k - 1].cells, pasts[k - 1].events, |pasts[k - 1].events|);
    }
  }

  /** No more than `percent` of the endpoints are out. */
  ghost predicate WithinLimit(cfg: Config, k: nat, pasts: seq<Past>, now: int, percent: nat)
    requires PoolAt(cfg, k, pasts, now)
  {
    100 * EjectedCount(cfg, k, pasts, now) <= percent * k
  }

  /** A limit of `percent` is kept in every run if and only if it is no limit or the configuration never ejects. */
  lemma LimitKeptExactly(cfg: Config, k: nat, percent: nat)
    requires cfg.enabled && 0 < k
    ensures (forall pasts: seq<Past>, now: int :: PoolAt(cfg, k, pasts, now) ==> WithinLimit(cfg, k, pasts, now, percent))
       <==> 100 <= percent || !CanEject(cfg)
  {
    if 100 <= percent || !CanEject(cfg) {
      forall pasts: seq<Past>, now: int | PoolAt(cfg, k, pasts, now)
        ensures WithinLimit(cfg, k, pasts, now, percent)
      {
        if 100 <= percent {
          assert 100 * EjectedCount(cfg, k, pasts, now) <= 100 * k <= percent * k;
        } else {
          CountsNone(cfg, k, pasts, now);
        }
      }
    } else {
      AllEjectedExactly(cfg, k);
      var pasts: seq<Past>, now: int :| AllEjected(cfg, k, pasts, now);
      CountsAll(cfg, k, pasts, now);
      assert percent * k < 100 * k;
    }
  }

  // ------------------------------------------------------------------
  // Configured pools
  // ------------------------------------------------------------------

  const MILLISECOND: int := 1_000_000

  function IntOr(value: int, fallback: int): int { if value <= 0 then fallback else value }

  function DurationOr(ms: int, fallback: int): int { if ms <= 0 then fallback else ms * MILLISECOND }

  /** What a pool's settings become in a snapshot; its limit goes along and is used by nothing. */
  function Configured(o: Configuration.Outlier): Config {
    Config(o.enabled, IntOr(o.consecutiveFailures, 5), IntOr(o.errorRateThreshold, 50), DurationOr(o.errorRateWindowMs, 30 * SECOND),
           IntOr(o.minRequests, 20), DurationOr(o.baseEjectMs, 30 * SECOND), DurationOr(o.maxEjectMs, 600 * SECOND),
           o.latencyEnabled, IntOr(o.latencyConsecutiveIntervals, 3))
  }

  function ConfiguredLimit(o: Configuration.Outlier): int { IntOr(o.maxEjectPercent, 50) }

  /** Settings that are not positive fall back; the others are taken as they are, milliseconds as nanoseconds. */
  lemma ConfiguredMeans(o: Configuration.Outlier)
    ensures
      var c := Configured(o);
      && c.enabled == o.enabled && c.latencyEnabled == o.latencyEnabled
      && c.consecutiveFailures == (if o.consecutiveFailures <= 0 then 5 else o.consecutiveFailures)
      && c.errorRateThresholdPercent == (if o.errorRateThreshold <= 0 then 50 else o.errorRateThreshold)
      && c.errorRateWindow == (if o.errorRateWindowMs <= 0 then 30_000 else o.errorRateWindowMs) * 1_000_000
      && c.minRequests == (if o.minRequests <= 0 then 20 else o.minRequests)
      && c.baseEject == (if o.baseEjectMs <= 0 then 30_000 else o.baseEjectMs) * 1_000_000
      && c.maxEject == (if o.maxEjectMs <= 0 then 600_000 else o.maxEjectMs) * 1_000_000
      && c.latencyConsecutiveIntervals == (if o.latencyConsecutiveIntervals <= 0 then 3 else o.latencyConsecutiveIntervals)
      && ConfiguredLimit(o) == if o.maxEjectPercent <= 0 then 50 else o.maxEjectPercent
  {}

  /** Every pool with outlier detection and a limit below 100 percent can exceed it, with all its endpoints out at once. */
  lemma ConfiguredLimitFails(o: Configuration.Outlier, k: nat) returns (pasts: seq<Past>, now: int)
    requires o.enabled && 0 < k && ConfiguredLimit(o) < 100
    ensures AllEjected(Configured(o), k, pasts, now) && !WithinLimit(Configured(o), k, pasts, now, ConfiguredLimit(o))
  {
    var cfg := Configured(o);
    var p := EjectedPast(cfg);
    pasts, now := seq(k, _ => p), 1;
    CountsAll(cfg, k, pasts, now);
    assert ConfiguredLimit(o) * k < 100 * k;
  }
}
