/** What circuit breakers see: admissions asked for and outcomes reported, in order. */
module BreakerEvents {

  datatype Event = Allow(at: int) | Report(at: int, success: bool)

  /** Reports among the events lo, lo + 1, ..., hi - 1. */
  function Reports(events: seq<Event>, lo: int, hi: int): nat
    requires 0 <= lo && hi <= |events|
    decreases hi
  {
    if hi <= lo then 0 else Reports(events, lo, hi - 1) + if events[hi - 1].Report? then 1 else 0
  }

  /** Failing reports among the events lo, lo + 1, ..., hi - 1. */
  function Failures(events: seq<Event>, lo: int, hi: int): nat
    requires 0 <= lo && hi <= |events|
    decreases hi
  {
    if hi <= lo then 0
    else Failures(events, lo, hi - 1) + if events[hi - 1].Report? && !events[hi - 1].success then 1 else 0
  }

  /**
   Places for probes taken by the events k, ..., n - 1, where `k` is the call
   that half-opened the breaker: each call takes one while there is one, each
   report gives one back.
   */
  function Places(events: seq<Event>, k: int, n: int, probes: int): nat
    requires 0 <= k < n <= |events|
    decreases n
  {
    if n == k + 1 then 1
    else
      var taken := Places(events, k, n - 1, probes);
      if events[n - 1].Allow? then (if taken < probes then taken + 1 else taken)
      else if 0 < taken then taken - 1 else 0
  }

  /** Calls among the events k, ..., n - 1 that got a place. */
  function Admissions(events: seq<Event>, k: int, n: int, probes: int): nat
    requires 0 <= k < n <= |events|
    decreases n
  {
    if n == k + 1 then 1
    else
      Admissions(events, k, n - 1, probes)
      + if events[n - 1].Allow? && Places(events, k, n - 1, probes) < probes then 1 else 0
  }

  /** None of the events k + 1, ..., n - 1 is a report that found no place taken. */
  predicate OnlyHoldersReport(events: seq<Event>, k: int, n: int, probes: int)
    requires 0 <= k < n <= |events|
    decreases n
  {
    n == k + 1
    || (OnlyHoldersReport(events, k, n - 1, probes) && (events[n - 1].Report? ==> 0 < Places(events, k, n - 1, probes)))
  }

  /** As long as only those report that hold a place, the places taken are the admissions without the reports. */
  lemma {:induction false} PlacesBalance(events: seq<Event>, k: int, n: int, probes: int)
    requires 0 <= k < n <= |events| && OnlyHoldersReport(events, k, n, probes)
    ensures Places(events, k, n, probes) == Admissions(events, k, n, probes) - Reports(events, k + 1, n)
    decreases n
  {
    if k + 1 < n {
      PlacesBalance(events, k, n - 1, probes);
    }
  }
}

/**
 The per-pool circuit breaker. Calls are atomic here. The value functions say
 what one call does; the class does it step by step; the lemmas speak about
 whole runs under one configuration.
 */
module Breaker {
  import opened Arith
  import opened BreakerEvents

  const SECOND: int := 1_000_000_000

  datatype State = Closed | Open | HalfOpen

  datatype Config = Config(
    enabled: bool,
    failureRateThresholdPercent: int,
    minimumRequests: int,
    evaluationWindow: int,
    openDuration: int,
    halfOpenMaxProbes: int)
  {
    function Window(): int { if evaluationWindow <= 0 then SECOND else evaluationWindow }
    function OpenFor(): int { if openDuration <= 0 then SECOND else openDuration }
    function MinRequests(): int { if minimumRequests <= 0 then 1 else minimumRequests }
    function Probes(): int { if halfOpenMaxProbes <= 0 then 1 else halfOpenMaxProbes }
  }

  datatype Cell = Cell(
    state: State,
    reqCount: int,
    failCount: int,
    windowStart: int,
    openUntil: int,
    probeInFlight: int,
    probeSuccess: int,
    probeFail: int)

  function New(now: int): Cell { Cell(Closed, 0, 0, now, 0, 0, 0, 0) }

  function Opened(c: Cell, cfg: Config, now: int): Cell { c.(state := Open, openUntil := now + cfg.OpenFor()) }

  /** Enough requests, and at least the threshold share of them failed. */
  predicate Trips(cfg: Config, requests: int, failures: int) {
    && cfg.MinRequests() <= requests
    && 0 < cfg.failureRateThresholdPercent
    && cfg.failureRateThresholdPercent * requests <= 100 * failures
  }

  /** The window has run out by `now`, or was never started. */
  predicate Expired(cfg: Config, c: Cell, now: int) { c.windowStart == 0 || now - c.windowStart > cfg.Window() }

  function AfterAllow(c: Cell, cfg: Config, now: int): Cell {
    if !cfg.enabled || c.state == Closed || (c.state == Open && now < c.openUntil) then c
    else
      var h := if c.state == Open then c.(state := HalfOpen, probeInFlight := 0, probeSuccess := 0, probeFail := 0) else c;
      if h.probeInFlight + 1 > cfg.Probes() then h else h.(probeInFlight := h.probeInFlight + 1)
  }

  predicate Allowed(c: Cell, cfg: Config, now: int) {
    !cfg.enabled || c.state == Closed
    || (c.state == Open && now >= c.openUntil)
    || (c.state == HalfOpen && c.probeInFlight + 1 <= cfg.Probes())
  }

  function AfterReport(c: Cell, cfg: Config, success: bool, now: int): Cell {
    if !cfg.enabled then c
    else
      match c.state
      case Open => c
      case Closed =>
        var w := if Expired(cfg, c, now) then c.(windowStart := now, reqCount := 0, failCount := 0) else c;
        var d := w.(reqCount := w.reqCount + 1, failCount := w.failCount + if success then 0 else 1);
        if Trips(cfg, d.reqCount, d.failCount) then Opened(d, cfg, now) else d
      case HalfOpen =>
        var p := if c.probeInFlight > 0 then c.(probeInFlight := c.probeInFlight - 1) else c;
        if !success then Opened(p.(probeFail := p.probeFail + 1), cfg, now)
        else if p.probeFail == 0 && p.probeSuccess + 1 >= cfg.halfOpenMaxProbes then
          New(now).(openUntil := c.openUntil)
        else p.(probeSuccess := p.probeSuccess + 1)
  }

  class Breaker {
    var cell: Cell
    var config: Config

    constructor (config: Config, now: int)
      ensures this.config == config && cell == New(now)
    {
      this.config, cell := config, New(now);
    }

    method UpdateConfig(cfg: Config)
      modifies `config
      ensures config == cfg
    {
      config := cfg;
    }

    method TryAllow(now: int) returns (state: State, allowed: bool)
      modifies `cell
      ensures cell == AfterAllow(old(cell), config, now) && allowed == Allowed(old(cell), config, now)
      ensures !config.enabled ==> allowed && cell == old(cell)
      ensures state == if config.enabled then cell.state else Closed
    {
      if !config.enabled {
        return Closed, true;
      }
      if cell.state == Closed {
        return Closed, true;
      }
      if cell.state == Open {
        if now < cell.openUntil {
          return Open, false;
        }
        cell := cell.(state := HalfOpen);
        cell := cell.(probeInFlight := 0, probeSuccess := 0, probeFail := 0);
      }
      var maxProbes := config.halfOpenMaxProbes;
      if maxProbes <= 0 {
        maxProbes := 1;
      }
      cell := cell.(probeInFlight := cell.probeInFlight + 1);
      if cell.probeInFlight > maxProbes {
        cell := cell.(probeInFlight := cell.probeInFlight - 1);
        return HalfOpen, false;
      }
      return HalfOpen, true;
    }

    method ReportOutcome(success: bool, now: int) returns (state: State)
      requires 0 <= cell.failCount && 0 <= cell.reqCount
      modifies `cell
      ensures cell == AfterReport(old(cell), config, success, now)
      ensures !config.enabled ==> cell == old(cell)
      ensures state == if config.enabled then cell.state else Closed
    {
      if !config.enabled {
        return Closed;
      }
      match cell.state {
        case Closed =>
          RotateWindow(now);
          cell := cell.(reqCount := cell.reqCount + 1);
          if !success {
            cell := cell.(failCount := cell.failCount + 1);
          }
          MaybeOpen(now);
        case HalfOpen =>
          if cell.probeInFlight > 0 {
            cell := cell.(probeInFlight := cell.probeInFlight - 1);
          }
          if !success {
            cell := cell.(probeFail := cell.probeFail + 1);
            cell := cell.(openUntil := now + config.OpenFor());
            cell := cell.(state := Open);
            return Open;
          }
          cell := cell.(probeSuccess := cell.probeSuccess + 1);
          if cell.probeFail == 0 && cell.probeSuccess >= config.halfOpenMaxProbes {
            cell := cell.(state := Closed, windowStart := now);
            cell := cell.(reqCount := 0, failCount := 0);
            cell := cell.(probeInFlight := 0, probeSuccess := 0, probeFail := 0);
          }
        case Open =>
      }
      return cell.state;
    }

    method RotateWindow(now: int)
      modifies `cell
      ensures cell == if Expired(config, old(cell), now) then old(cell).(windowStart := now, reqCount := 0, failCount := 0)
                      else old(cell)
    {
      var window := config.evaluationWindow;
      if window <= 0 {
        window := SECOND;
      }
      if cell.windowStart == 0 || now - cell.windowStart > window {
        cell := cell.(windowStart := now, reqCount := 0, failCount := 0);
      }
    }

    /** Opens exactly when the window's counts trip the breaker. */
    method MaybeOpen(now: int)
      requires 0 <= cell.failCount && 1 <= cell.reqCount
      modifies `cell
      ensures cell == if Trips(config, old(cell).reqCount, old(cell).failCount) then Opened(old(cell), config, now)
                      else old(cell)
    {
      var minRequests := config.minimumRequests;
      if minRequests <= 0 {
        minRequests := 1;
      }
      if cell.reqCount < minRequests {
        return;
      }
      var threshold := config.failureRateThresholdPercent;
      if threshold <= 0 {
        return;
      }
      RoundedShare(cell.failCount, cell.reqCount, threshold);
      var failureRate := cell.failCount * 100 / cell.reqCount;
      if failureRate >= threshold {
        cell := cell.(openUntil := now + config.OpenFor());
        cell := cell.(state := Open);
      }
    }
  }

  // ------------------------------------------------------------------
  // Runs
  // ------------------------------------------------------------------

  function Next(c: Cell, cfg: Config, e: Event): Cell {
    match e
    case Allow(at) => AfterAllow(c, cfg, at)
    case Report(at, success) => AfterReport(c, cfg, success, at)
  }

  /** A run of an enabled breaker from new. */
  ghost predicate IsRun(cfg: Config, cells: seq<Cell>, events: seq<Event>) {
    && cfg.enabled
    && |cells| == |events| + 1
    && cells[0].state == Closed && cells[0].reqCount == cells[0].failCount == 0
    && forall i :: 0 <= i < |events| ==> cells[i + 1] == Next(cells[i], cfg, events[i])
  }

  /** The breaker is in one state from step lo to step hi. */
  ghost predicate Stays(cells: seq<Cell>, state: State, lo: int, hi: int)
    requires 0 <= lo && hi < |cells|
  {
    forall i :: lo <= i <= hi ==> cells[i].state == state
  }

  /** Report `o` opened the breaker, and it has been open ever since. */
  ghost predicate OpenSince(cfg: Config, cells: seq<Cell>, events: seq<Event>, o: int, n: int)
    requires IsRun(cfg, cells, events) && 0 <= n <= |events|
  {
    && 0 <= o < n && events[o].Report? && cells[o].state != Open
    && Stays(cells, Open, o + 1, n)
    && cells[n].openUntil == events[o].at + cfg.OpenFor()
  }

  /**
   Report `o` opened the breaker; it stayed open until call `k` half-opened
   it, no sooner than the open time after `o`; and since `k` every report
   was a success, as many as the breaker has counted.
   */
  ghost predicate ProbingSince(cfg: Config, cells: seq<Cell>, events: seq<Event>, o: int, k: int, n: int)
    requires IsRun(cfg, cells, events) && 0 <= n <= |events|
  {
    && 0 <= o < k < n && events[o].Report? && cells[o].state != Open && events[k].Allow?
    && events[o].at + cfg.OpenFor() <= events[k].at
    && Stays(cells, Open, o + 1, k) && Stays(cells, HalfOpen, k + 1, n)
    && Failures(events, k + 1, n) == 0 && Reports(events, k + 1, n) == cells[n].probeSuccess < cfg.Probes()
    && cells[n].probeFail == 0 && 0 <= cells[n].probeInFlight <= cfg.Probes()
  }

  lemma {:induction false} OpenExplained(cfg: Config, cells: seq<Cell>, events: seq<Event>, n: int) returns (o: int, k: int)
    requires IsRun(cfg, cells, events) && 0 <= n <= |events|
    ensures cells[n].state == Open ==> OpenSince(cfg, cells, events, o, n)
    ensures cells[n].state == HalfOpen ==> ProbingSince(cfg, cells, events, o, k, n)
  {
    o, k := 0, 0;
    if n > 0 {
      o, k := OpenExplained(cfg, cells, events, n - 1);
      assert cells[n] == Next(cells[n - 1], cfg, events[n - 1]);
      if cells[n].state == Open && cells[n - 1].state != Open {
        o := n - 1;
      } else if cells[n].state == HalfOpen && cells[n - 1].state == Open {
        k := n - 1;
      }
    }
  }

  /**
   A breaker that is not closed closes if and only if it is probing and the
   event is the report that completes exactly max(1, HalfOpenMaxProbes)
   successes, with no failing report since it half-opened; that was no sooner
   than the full open time after it tripped.
   */
  lemma ClosesExactly(cfg: Config, cells: seq<Cell>, events: seq<Event>, n: int) returns (o: int, k: int)
    requires IsRun(cfg, cells, events) && 0 <= n < |events| && cells[n].state != Closed
    ensures cells[n].state == HalfOpen ==> ProbingSince(cfg, cells, events, o, k, n)
    ensures cells[n + 1].state == Closed <==>
            && cells[n].state == HalfOpen && events[n].Report?
            && Failures(events, k + 1, n + 1) == 0 && Reports(events, k + 1, n + 1) == cfg.Probes()
  {
    o, k := OpenExplained(cfg, cells, events, n);
    assert cells[n + 1] == Next(cells[n], cfg, events[n]);
  }

  lemma {:induction false} PlacesTaken(cfg: Config, cells: seq<Cell>, events: seq<Event>, k: int, n: int)
    requires IsRun(cfg, cells, events) && 0 <= k < n <= |events|
    requires cells[k].state == Open && events[k].Allow? && Stays(cells, HalfOpen, k + 1, n)
    ensures cells[n].probeInFlight == Places(events, k, n, cfg.Probes())
    decreases n
  {
    if k + 1 < n {
      PlacesTaken(cfg, cells, events, k, n - 1);
    }
    assert cells[n] == Next(cells[n - 1], cfg, events[n - 1]);
  }

  /**
   A call is admitted if and only if the breaker is closed; or it has been
   open since report `o` and the full open time has passed since; or it is
   probing since call `k` and a place is left of the max(1, HalfOpenMaxProbes)
   that calls have taken and reports have given back since. An admission
   after the open time half-opens it, and a denied call changes nothing.
   */
  lemma AdmittedExactly(cfg: Config, cells: seq<Cell>, events: seq<Event>, n: int) returns (o: int, k: int)
    requires IsRun(cfg, cells, events) && 0 <= n < |events| && events[n].Allow?
    ensures cells[n].state == Closed ==> Allowed(cells[n], cfg, events[n].at)
    ensures cells[n].state == Open ==>
              && OpenSince(cfg, cells, events, o, n)
              && (Allowed(cells[n], cfg, events[n].at)
                  <==> events[o].at + (if cfg.openDuration <= 0 then SECOND else cfg.openDuration) <= events[n].at)
              && (cells[n + 1].state == HalfOpen <==> Allowed(cells[n], cfg, events[n].at))
    ensures cells[n].state == HalfOpen ==>
              var probes := if cfg.halfOpenMaxProbes <= 0 then 1 else cfg.halfOpenMaxProbes;
              && ProbingSince(cfg, cells, events, o, k, n)
              && (Allowed(cells[n], cfg, events[n].at) <==> Places(events, k, n, probes) < probes)
    ensures !Allowed(cells[n], cfg, events[n].at) ==> cells[n + 1] == cells[n]
  {
    o, k := OpenExplained(cfg, cells, events, n);
    assert cells[n + 1] == Next(cells[n], cfg, events[n]);
    if cells[n].state == HalfOpen {
      PlacesTaken(cfg, cells, events, k, n);
    }
  }

  /** Between being open and being closed again lies all of that. */
  lemma {:induction false} OpenThenClosed(cfg: Config, cells: seq<Cell>, events: seq<Event>, i: int, j: int)
    returns (o: int, k: int, n: int)
    requires IsRun(cfg, cells, events) && 0 <= i < j <= |events|
    requires cells[i].state == Open && cells[j].state == Closed
    ensures i <= k < n < j && ProbingSince(cfg, cells, events, o, k, n) && events[n].Report?
    ensures Failures(events, k + 1, n + 1) == 0 && Reports(events, k + 1, n + 1) == cfg.Probes()
    decreases j
  {
    if cells[j - 1].state == Closed {
      o, k, n := OpenThenClosed(cfg, cells, events, i, j - 1);
    } else {
      n := j - 1;
      o, k := ClosesExactly(cfg, cells, events, n);
      if k < i {
        assert cells[i].state == HalfOpen;
      }
    }
  }

  // ------------------------------------------------------------------
  // Probes that never report
  // ------------------------------------------------------------------

  /** Half-open with every place for a probe taken. */
  predicate AllOut(c: Cell, cfg: Config) { c.state == HalfOpen && c.probeInFlight == cfg.Probes() }

  /**
   Probes that never report hold their places for good: once all are out,
   nothing about the breaker changes, however late, if and only if nothing
   is reported.
   */
  lemma {:induction false} StuckExactly(cfg: Config, cells: seq<Cell>, events: seq<Event>, i: int, j: int)
    requires IsRun(cfg, cells, events) && 0 <= i <= j <= |events| && AllOut(cells[i], cfg)
    ensures (forall m :: i <= m <= j ==> cells[m] == cells[i]) <==> Reports(events, i, j) == 0
    decreases j
  {
    if i < j {
      StuckExactly(cfg, cells, events, i, j - 1);
      assert cells[j] == Next(cells[j - 1], cfg, events[j - 1]);
      if forall m :: i <= m <= j - 1 ==> cells[m] == cells[i] {
        assert cells[j - 1] == cells[i];
      }
    }
  }

  /** And while nothing is reported, every request is denied. */
  lemma DeniedUntilReport(cfg: Config, cells: seq<Cell>, events: seq<Event>, i: int, j: int)
    requires IsRun(cfg, cells, events) && 0 <= i <= j < |events| && AllOut(cells[i], cfg)
    requires Reports(events, i, j) == 0 && events[j].Allow?
    ensures !Allowed(cells[j], cfg, events[j].at)
  {
    StuckExactly(cfg, cells, events, i, j);
    assert cells[j] == cells[i];
  }

  /** The cells a breaker goes through from `c`. */
  function CellsFrom(cfg: Config, c: Cell, events: seq<Event>): (cells: seq<Cell>)
    ensures |cells| == |events| + 1 && cells[0] == c
    ensures forall i :: 0 <= i < |events| ==> cells[i + 1] == Next(cells[i], cfg, events[i])
  {
    if events == [] then [c]
    else
      var front := CellsFrom(cfg, c, events[..|events| - 1]);
      front + [Next(front[|events| - 1], cfg, events[|events| - 1])]
  }

  /** Failing reports at one instant count up until there are enough to trip. */
  lemma {:induction false} FailsUntilTripped(cfg: Config, cells: seq<Cell>, events: seq<Event>, n: nat)
    requires IsRun(cfg, cells, events) && cells[0] == New(1) && 0 < cfg.failureRateThresholdPercent <= 100
    requires n <= cfg.MinRequests() <= |events| && forall i :: 0 <= i < n ==> events[i] == Report(1, false)
    ensures cells[n].openUntil == if n == cfg.MinRequests() then 1 + cfg.OpenFor() else 0
    ensures cells[n].state == if n == cfg.MinRequests() then Open else Closed
    ensures cells[n].reqCount == cells[n].failCount == n && cells[n].windowStart == 1
  {
    if n > 0 {
      FailsUntilTripped(cfg, cells, events, n - 1);
      assert cells[n] == Next(cells[n - 1], cfg, events[n - 1]);
      assert cfg.failureRateThresholdPercent * n <= 100 * n;
    }
  }

  /** From then on each admission after the open time takes a place. */
  lemma {:induction false} PlacesFill(cfg: Config, cells: seq<Cell>, events: seq<Event>, m: nat, n: nat)
    requires IsRun(cfg, cells, events) && m + n <= |events| && n <= cfg.Probes()
    requires cells[m].state == Open
    requires forall i :: m <= i < m + n ==> events[i].Allow? && cells[m].openUntil <= events[i].at
    ensures n > 0 ==> cells[m + n].state == HalfOpen && cells[m + n].probeInFlight == n
  {
    if n > 0 {
      PlacesFill(cfg, cells, events, m, n - 1);
      assert cells[m + n] == Next(cells[m + n - 1], cfg, events[m + n - 1]);
    }
  }

  /** A run with all probes out, for every enabled configuration that can trip at all. */
  lemma ProbesRunOut(cfg: Config) returns (cells: seq<Cell>, events: seq<Event>)
    requires cfg.enabled && 0 < cfg.failureRateThresholdPercent <= 100
    ensures IsRun(cfg, cells, events) && AllOut(cells[|events|], cfg)
  {
    var m, n := cfg.MinRequests(), cfg.Probes();
    events := seq(m, _ => Report(1, false)) + seq(n, _ => Allow(1 + cfg.OpenFor()));
    cells := CellsFrom(cfg, New(1), events);
    FailsUntilTripped(cfg, cells, events, m);
    PlacesFill(cfg, cells, events, m, n);
  }

  /** With any other threshold the breaker never leaves its closed state. */
  lemma {:induction false} NeverTrips(cfg: Config, cells: seq<Cell>, events: seq<Event>, n: nat)
    requires IsRun(cfg, cells, events) && n <= |events|
    requires cfg.failureRateThresholdPercent <= 0 || 100 < cfg.failureRateThresholdPercent
    ensures cells[n].state == Closed && 0 <= cells[n].failCount <= cells[n].reqCount
  {
    if n > 0 {
      NeverTrips(cfg, cells, events, n - 1);
      assert cells[n] == Next(cells[n - 1], cfg, events[n - 1]);
      if 100 < cfg.failureRateThresholdPercent && 0 < cells[n].reqCount {
        NoShareIsEnough(cfg.failureRateThresholdPercent, cells[n].reqCount, cells[n].failCount);
      }
    }
  }

  lemma NoShareIsEnough(threshold: int, requests: int, failures: int)
    requires 100 < threshold && failures <= requests && 0 < requests
    ensures threshold * requests > 100 * failures
  {
    assert threshold * requests >= 101 * requests;
  }

  /** An enabled breaker can get stuck if and only if its threshold is between 1 and 100 percent. */
  lemma CanGetStuckExactly(cfg: Config)
    requires cfg.enabled
    ensures (exists cells: seq<Cell>, events: seq<Event> :: IsRun(cfg, cells, events) && AllOut(cells[|events|], cfg))
       <==> 0 < cfg.failureRateThresholdPercent <= 100
  {
    if 0 < cfg.failureRateThresholdPercent <= 100 {
      var cells, events := ProbesRunOut(cfg);
    } else {
      forall cells: seq<Cell>, events: seq<Event> | IsRun(cfg, cells, events)
        ensures !AllOut(cells[|events|], cfg)
      {
        NeverTrips(cfg, cells, events, |events|);
      }
    }
  }

  // ------------------------------------------------------------------
  // Tripping
  // ------------------------------------------------------------------

  /**
   The current evaluation window began with event `w`: at the start of the
   run, right after a closing, or with a report that found the previous
   window run out. Its counts are the reports since, all of them in time.
   */
  ghost predicate WindowSince(cfg: Config, cells: seq<Cell>, events: seq<Event>, w: int, n: int)
    requires IsRun(cfg, cells, events) && 0 <= n <= |events|
  {
    && 0 <= w <= n && Stays(cells, Closed, w, n)
    && (w == 0 || cells[w - 1].state != Closed || (w < n && events[w].Report? && Expired(cfg, cells[w], events[w].at)))
    && cells[n].reqCount == Reports(events, w, n) && cells[n].failCount == Failures(events, w, n)
    && cells[n].windowStart == (if w < n && events[w].Report? && Expired(cfg, cells[w], events[w].at) then events[w].at
                                else if w == 0 then cells[0].windowStart else events[w - 1].at)
    && forall i :: w < i < n && events[i].Report? ==> events[i].at - cells[n].windowStart <= cfg.Window()
  }

  lemma {:induction false} WindowExplained(cfg: Config, cells: seq<Cell>, events: seq<Event>, n: int) returns (w: int)
    requires IsRun(cfg, cells, events) && 0 <= n <= |events|
    ensures cells[n].state == Closed ==> WindowSince(cfg, cells, events, w, n)
  {
    w := 0;
    if n > 0 {
      w := WindowExplained(cfg, cells, events, n - 1);
      assert cells[n] == Next(cells[n - 1], cfg, events[n - 1]);
      if cells[n - 1].state != Closed {
        w := n;
      } else if events[n - 1].Report? && Expired(cfg, cells[n - 1], events[n - 1].at) {
        w := n - 1;
      }
    }
  }

  /**
   A closed breaker trips on a report exactly when, counting that report,
   the current window has enough requests and a high enough share of failures.
   */
  lemma TripsExactly(cfg: Config, cells: seq<Cell>, events: seq<Event>, n: int) returns (w: int)
    requires IsRun(cfg, cells, events) && 0 <= n < |events|
    requires cells[n].state == Closed && events[n].Report?
    ensures
      var window := if cfg.evaluationWindow <= 0 then SECOND else cfg.evaluationWindow;
      if cells[n].windowStart == 0 || events[n].at - cells[n].windowStart > window then w == n
      else WindowSince(cfg, cells, events, w, n)
    ensures
      var requests, failures := Reports(events, w, n + 1), Failures(events, w, n + 1);
      cells[n + 1].state == Open
      <==> && (if cfg.minimumRequests <= 0 then 1 else cfg.minimumRequests) <= requests
           && 0 < cfg.failureRateThresholdPercent
           && cfg.failureRateThresholdPercent * requests <= 100 * failures
  {
    w := WindowExplained(cfg, cells, events, n);
    assert cells[n + 1] == Next(cells[n], cfg, events[n]);
    if Expired(cfg, cells[n], events[n].at) {
      w := n;
    }
  }
}
