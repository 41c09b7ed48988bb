/**
 The circuit breaker of a plugin filter: it trips on failures in a row, and
 closes again after enough successful probes with none still out.
 */
module PluginBreaker {
  import opened BreakerEvents

  const SECOND: int := 1_000_000_000

  datatype State = Closed | Open | HalfOpen

  datatype Config = Config(enabled: bool, consecutiveFailures: int, openDuration: int, halfOpenProbes: int) {
    function Threshold(): int { if consecutiveFailures <= 0 then 1 else consecutiveFailures }
    function OpenFor(): int { if openDuration <= 0 then SECOND else openDuration }
    function Probes(): int { if halfOpenProbes <= 0 then 1 else halfOpenProbes }
  }

  datatype Cell = Cell(state: State, consecutiveFails: int, openUntil: int, inFlight: int, successes: int)

  const NEW := Cell(Closed, 0, 0, 0, 0)

  function AfterAllow(c: Cell, cfg: Config, now: int): Cell {
    if !cfg.enabled || c.state == Closed || (c.state == Open && now < c.openUntil) then c
    else
      var h := if c.state == Open then c.(state := HalfOpen, inFlight := 0, successes := 0) else c;
      if h.inFlight >= cfg.Probes() then h else h.(inFlight := h.inFlight + 1)
  }

  predicate Allowed(c: Cell, cfg: Config, now: int) {
    !cfg.enabled || c.state == Closed
    || (c.state == Open && now >= c.openUntil)
    || (c.state == HalfOpen && c.inFlight < cfg.Probes())
  }

  function AfterReport(c: Cell, cfg: Config, success: bool, now: int): Cell {
    if !cfg.enabled then c
    else
      match c.state
      case Open => c
      case Closed =>
        if success then c.(consecutiveFails := 0)
        else if c.consecutiveFails + 1 >= cfg.Threshold() then
          Cell(Open, c.consecutiveFails + 1, now + cfg.OpenFor(), 0, 0)
        else c.(consecutiveFails := c.consecutiveFails + 1)
      case HalfOpen =>
        var inFlight := if c.inFlight > 0 then c.inFlight - 1 else c.inFlight;
        if !success then Cell(Open, 0, now + cfg.OpenFor(), inFlight, 0)
        else if c.successes + 1 >= cfg.Probes() && inFlight == 0 then NEW
        else c.(inFlight := inFlight, successes := c.successes + 1)
  }

  class Breaker {
    var config: Config
    var cell: Cell

    constructor (config: Config)
      ensures this.config == config && cell == NEW
    {
      this.config, cell := config, NEW;
    }

    /** Switching the breaker off forgets everything; any other change keeps its state. */
    method UpdateConfig(cfg: Config)
      modifies this
      ensures config == cfg && cell == if cfg.enabled then old(cell) else NEW
    {
      config := cfg;
      if !cfg.enabled {
        cell := cell.(state := Closed, consecutiveFails := 0);
        cell := cell.(inFlight := 0, successes := 0, openUntil := 0);
      }
    }

    method TryAllow(now: int) returns (state: State, allowed: bool)
      modifies `cell
      ensures cell == AfterAllow(old(cell), config, now) && allowed == Allowed(old(cell), config, now)
      ensures !config.enabled ==> allowed && cell == old(cell)
      ensures state == if config.enabled then cell.state else Closed
    {
      if !config.enabled {
        return Closed, true;
      }
      match cell.state {
        case Closed => return cell.state, true;
        case Open =>
          if now < cell.openUntil {
            return cell.state, false;
          }
          cell := cell.(state := HalfOpen, inFlight := 0, successes := 0);
        case HalfOpen =>
      }
      var maxProbes := config.halfOpenProbes;
      if maxProbes <= 0 {
        maxProbes := 1;
      }
      if cell.inFlight >= maxProbes {
        return cell.state, false;
      }
      cell := cell.(inFlight := cell.inFlight + 1);
      return cell.state, true;
    }

    method ReportOutcome(success: bool, now: int) returns (state: State)
      modifies `cell
      ensures cell == AfterReport(old(cell), config, success, now)
      ensures !config.enabled ==> cell == old(cell)
      ensures state == if config.enabled then cell.state else Closed
    {
      if !config.enabled {
        return Closed;
      }
      match cell.state {
        case Closed =>
          if success {
            cell := cell.(consecutiveFails := 0);
            return cell.state;
          }
          cell := cell.(consecutiveFails := cell.consecutiveFails + 1);
          var threshold := config.consecutiveFailures;
          if threshold <= 0 {
            threshold := 1;
          }
          if cell.consecutiveFails >= threshold {
            cell := cell.(state := Open, openUntil := now + config.OpenFor());
            cell := cell.(inFlight := 0, successes := 0);
          }
        case HalfOpen =>
          if cell.inFlight > 0 {
            cell := cell.(inFlight := cell.inFlight - 1);
          }
          if !success {
            cell := cell.(state := Open, openUntil := now + config.OpenFor());
            cell := cell.(consecutiveFails := 0, successes := 0);
            return cell.state;
          }
          cell := cell.(successes := cell.successes + 1);
          var maxProbes := config.halfOpenProbes;
          if maxProbes <= 0 {
            maxProbes := 1;
          }
          if cell.successes >= maxProbes && cell.inFlight == 0 {
            cell := cell.(state := Closed, consecutiveFails := 0);
            cell := cell.(successes := 0, openUntil := 0);
          }
        case Open =>
      }
      return cell.state;
    }
  }

  // ------------------------------------------------------------------
  // Runs
  // ------------------------------------------------------------------

  function Next(c: Cell, cfg: Config, e: Event): Cell {
    match e
    case Allow(at) => AfterAllow(c, cfg, at)
    case Report(at, success) => AfterReport(c, cfg, success, at)
  }

  ghost predicate IsRun(cfg: Config, cells: seq<Cell>, events: seq<Event>) {
    && cfg.enabled
    && |cells| == |events| + 1 && cells[0] == NEW
    && forall i :: 0 <= i < |events| ==> cells[i + 1] == Next(cells[i], cfg, events[i])
  }

  ghost predicate Stays(cells: seq<Cell>, state: State, lo: int, hi: int)
    requires 0 <= lo && hi < |cells|
  {
    forall i :: lo <= i <= hi ==> cells[i].state == state
  }

  /** Failing reports in a row at the end of the events lo, ..., hi - 1. */
  function Trailing(events: seq<Event>, lo: int, hi: int): nat
    requires 0 <= lo && hi <= |events|
    decreases hi
  {
    if hi <= lo then 0
    else if events[hi - 1].Allow? then Trailing(events, lo, hi - 1)
    else if events[hi - 1].success then 0
    else Trailing(events, lo, hi - 1) + 1
  }

  /** Closed since step `c`, with the trailing failures counted. */
  ghost predicate ClosedSince(cfg: Config, cells: seq<Cell>, events: seq<Event>, c: int, n: int)
    requires IsRun(cfg, cells, events) && 0 <= n <= |events|
  {
    && 0 <= c <= n && Stays(cells, Closed, c, n) && (c == 0 || cells[c - 1].state != Closed)
    && cells[n].consecutiveFails == Trailing(events, c, n) < cfg.Threshold()
  }

  ghost predicate OpenSince(cfg: Config, cells: seq<Cell>, events: seq<Event>, o: int, n: int)
    requires IsRun(cfg, cells, events) && 0 <= n <= |events|
  {
    && 0 <= o < n && events[o].Report? && !events[o].success && cells[o].state != Open
    && Stays(cells, Open, o + 1, n)
    && cells[n].openUntil == events[o].at + cfg.OpenFor()
  }

  /** Half-opened by call `k`, a full open time after report `o`, with only successes reported since. */
  ghost predicate ProbingSince(cfg: Config, cells: seq<Cell>, events: seq<Event>, o: int, k: int, n: int)
    requires IsRun(cfg, cells, events) && 0 <= n <= |events|
  {
    && 0 <= o < k < n && events[o].Report? && !events[o].success && events[k].Allow?
    && events[o].at + cfg.OpenFor() <= events[k].at
    && Stays(cells, Open, o + 1, k) && Stays(cells, HalfOpen, k + 1, n)
    && Failures(events, k + 1, n) == 0 && Reports(events, k + 1, n) == cells[n].successes
    && 0 <= cells[n].inFlight <= cfg.Probes()
  }

  lemma {:induction false} Explained(cfg: Config, cells: seq<Cell>, events: seq<Event>, n: int)
    returns (c: int, o: int, k: int)
    requires IsRun(cfg, cells, events) && 0 <= n <= |events|
    ensures cells[n].state == Closed ==> ClosedSince(cfg, cells, events, c, n)
    ensures cells[n].state == Open ==> OpenSince(cfg, cells, events, o, n)
    ensures cells[n].state == HalfOpen ==> ProbingSince(cfg, cells, events, o, k, n)
  {
    c, o, k := 0, 0, 0;
    if n > 0 {
      c, o, k := Explained(cfg, cells, events, n - 1);
      assert cells[n] == Next(cells[n - 1], cfg, events[n - 1]);
      if cells[n].state != cells[n - 1].state {
        match cells[n].state {
          case Closed => c := n;
          case Open => o := n - 1;
          case HalfOpen => k := n - 1;
        }
      }
    }
  }

  /** A closed breaker trips exactly on the report that completes enough failures in a row. */
  lemma TripsExactly(cfg: Config, cells: seq<Cell>, events: seq<Event>, n: int) returns (c: int)
    requires IsRun(cfg, cells, events) && 0 <= n < |events| && cells[n].state == Closed
    ensures ClosedSince(cfg, cells, events, c, n)
    ensures cells[n + 1].state == Open
       <==> events[n].Report? && Trailing(events, c, n + 1) >= if cfg.consecutiveFailures <= 0 then 1 else cfg.consecutiveFailures
  {
    var o, k;
    c, o, k := Explained(cfg, cells, events, n);
    assert cells[n + 1] == Next(cells[n], cfg, events[n]);
  }

  /**
   A probing breaker closes exactly on a success report by which enough
   successes have come in and no admitted probe is still out. So it closes
   only after the full open time and then at least max(1, HalfOpenProbes)
   success reports with no failing report in between.
   */
  lemma ClosesExactly(cfg: Config, cells: seq<Cell>, events: seq<Event>, n: int) returns (o: int, k: int)
    requires IsRun(cfg, cells, events) && 0 <= n < |events| && cells[n].state == HalfOpen
    ensures ProbingSince(cfg, cells, events, o, k, n)
    ensures cells[n + 1].state == Closed <==>
            && events[n].Report? && Failures(events, k + 1, n + 1) == 0
            && Reports(events, k + 1, n + 1) >= cfg.Probes() && Places(events, k, n, cfg.Probes()) <= 1
  {
    var c;
    c, o, k := Explained(cfg, cells, events, n);
    assert cells[n + 1] == Next(cells[n], cfg, events[n]);
    PlacesTaken(cfg, cells, events, k, n);
  }

  lemma {:induction false} PlacesTaken(cfg: Config, cells: seq<Cell>, events: seq<Event>, k: int, n: int)
    requires IsRun(cfg, cells, events) && 0 <= k < n <= |events|
    requires cells[k].state == Open && events[k].Allow? && Stays(cells, HalfOpen, k + 1, n)
    ensures cells[n].inFlight == Places(events, k, n, cfg.Probes())
    decreases n
  {
    if k + 1 < n {
      PlacesTaken(cfg, cells, events, k, n - 1);
    }
    assert cells[n] == Next(cells[n - 1], cfg, events[n - 1]);
  }

  /**
   A call is admitted if and only if the breaker is closed, or has been open
   for the full open time, or is probing with a place left of those that
   calls have taken and reports have given back since it half-opened.
   */
  lemma AdmittedExactly(cfg: Config, cells: seq<Cell>, events: seq<Event>, n: int) returns (o: int, k: int)
    requires IsRun(cfg, cells, events) && 0 <= n < |events| && events[n].Allow?
    ensures cells[n].state == Closed ==> Allowed(cells[n], cfg, events[n].at)
    ensures cells[n].state == Open ==>
              && OpenSince(cfg, cells, events, o, n)
              && (Allowed(cells[n], cfg, events[n].at)
                  <==> events[o].at + (if cfg.openDuration <= 0 then SECOND else cfg.openDuration) <= events[n].at)
              && (cells[n + 1].state == HalfOpen <==> Allowed(cells[n], cfg, events[n].at))
    ensures cells[n].state == HalfOpen ==>
              var probes := if cfg.halfOpenProbes <= 0 then 1 else cfg.halfOpenProbes;
              && ProbingSince(cfg, cells, events, o, k, n)
              && (Allowed(cells[n], cfg, events[n].at) <==> Places(events, k, n, probes) < probes)
    ensures !Allowed(cells[n], cfg, events[n].at) ==> cells[n + 1] == cells[n]
  {
    var c;
    c, o, k := Explained(cfg, cells, events, n);
    assert cells[n + 1] == Next(cells[n], cfg, events[n]);
    if cells[n].state == HalfOpen {
      PlacesTaken(cfg, cells, events, k, n);
    }
  }

  /** Between being open and being closed again lies the open time and enough successes. */
  lemma {:induction false} OpenThenClosed(cfg: Config, cells: seq<Cell>, events: seq<Event>, i: int, j: int)
    returns (o: int, k: int, n: int)
    requires IsRun(cfg, cells, events) && 0 <= i < j <= |events|
    requires cells[i].state == Open && cells[j].state == Closed
    ensures i <= k < n < j && ProbingSince(cfg, cells, events, o, k, n)
    ensures Failures(events, k + 1, n + 1) == 0 && Reports(events, k + 1, n + 1) >= cfg.Probes()
    decreases j
  {
    if cells[j - 1].state == Closed {
      o, k, n := OpenThenClosed(cfg, cells, events, i, j - 1);
    } else {
      n := j - 1;
      assert cells[n + 1] == Next(cells[n], cfg, events[n]);
      o, k := ClosesExactly(cfg, cells, events, n);
      if k < i {
        assert cells[i].state == HalfOpen;
      }
    }
  }

  // ------------------------------------------------------------------
  // Probes that never report
  // ------------------------------------------------------------------

  /** Half-open with every place for a probe taken. */
  predicate AllOut(c: Cell, cfg: Config) { c.state == HalfOpen && c.inFlight == cfg.Probes() }

  /** With all probes out nothing about the breaker changes if and only if nothing is reported. */
  lemma {:induction false} StuckExactly(cfg: Config, cells: seq<Cell>, events: seq<Event>, i: int, j: int)
    requires IsRun(cfg, cells, events) && 0 <= i <= j <= |events| && AllOut(cells[i], cfg)
    ensures (forall m :: i <= m <= j ==> cells[m] == cells[i]) <==> Reports(events, i, j) == 0
    decreases j
  {
    if i < j {
      StuckExactly(cfg, cells, events, i, j - 1);
      assert cells[j] == Next(cells[j - 1], cfg, events[j - 1]);
      if forall m :: i <= m <= j - 1 ==> cells[m] == cells[i] {
        assert cells[j - 1] == cells[i];
      }
    }
  }

  /** And while nothing is reported, every call is denied. */
  lemma DeniedUntilReport(cfg: Config, cells: seq<Cell>, events: seq<Event>, i: int, j: int)
    requires IsRun(cfg, cells, events) && 0 <= i <= j < |events| && AllOut(cells[i], cfg)
    requires Reports(events, i, j) == 0 && events[j].Allow?
    ensures !Allowed(cells[j], cfg, events[j].at)
  {
    StuckExactly(cfg, cells, events, i, j);
    assert cells[j] == cells[i];
  }

  /** The cells a new breaker goes through. */
  function CellsOf(cfg: Config, events: seq<Event>): (cells: seq<Cell>)
    ensures |cells| == |events| + 1 && cells[0] == NEW
    ensures forall i :: 0 <= i < |events| ==> cells[i + 1] == Next(cells[i], cfg, events[i])
  {
    if events == [] then [NEW]
    else
      var front := CellsOf(cfg, events[..|events| - 1]);
      front + [Next(front[|events| - 1], cfg, events[|events| - 1])]
  }

  lemma {:induction false} FailsUntilTripped(cfg: Config, cells: seq<Cell>, events: seq<Event>, n: nat)
    requires IsRun(cfg, cells, events) && n <= cfg.Threshold() <= |events|
    requires forall i :: 0 <= i < n ==> events[i] == Report(1, false)
    ensures cells[n].state == if n == cfg.Threshold() then Open else Closed
    ensures cells[n].openUntil == if n == cfg.Threshold() then 1 + cfg.OpenFor() else 0
    ensures cells[n].consecutiveFails == n
  {
    if n > 0 {
      FailsUntilTripped(cfg, cells, events, n - 1);
      assert cells[n] == Next(cells[n - 1], cfg, events[n - 1]);
    }
  }

  lemma {:induction false} PlacesFill(cfg: Config, cells: seq<Cell>, events: seq<Event>, m: nat, n: nat)
    requires IsRun(cfg, cells, events) && m + n <= |events| && n <= cfg.Probes() && cells[m].state == Open
    requires forall i :: m <= i < m + n ==> events[i].Allow? && cells[m].openUntil <= events[i].at
    ensures n > 0 ==> cells[m + n].state == HalfOpen && cells[m + n].inFlight == n
  {
    if n > 0 {
      PlacesFill(cfg, cells, events, m, n - 1);
      assert cells[m + n] == Next(cells[m + n - 1], cfg, events[m + n - 1]);
    }
  }

  /** Every enabled breaker can come to that: it always has a threshold to trip at. */
  lemma ProbesRunOut(cfg: Config) returns (cells: seq<Cell>, events: seq<Event>)
    requires cfg.enabled
    ensures IsRun(cfg, cells, events) && AllOut(cells[|events|], cfg)
  {
    var m, n := cfg.Threshold(), cfg.Probes();
    events := seq(m, _ => Report(1, false)) + seq(n, _ => Allow(1 + cfg.OpenFor()));
    cells := CellsOf(cfg, events);
    FailsUntilTripped(cfg, cells, events, m);
    PlacesFill(cfg, cells, events, m, n);
  }
}
