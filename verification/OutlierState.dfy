/**
 The outlier state of one endpoint: request outcomes and latency verdicts
 come in, and enough bad ones in a row, or too high a failure share, eject it.
 */
module OutlierState {
  import opened Arith
  import opened EjectBackoff

  const FIVE_MINUTES: int := 300 * SECOND

  datatype Config = Config(
    enabled: bool,
    consecutiveFailures: int,
    errorRateThresholdPercent: int,
    errorRateWindow: int,
    minRequests: int,
    baseEject: int,
    maxEject: int,
    latencyEnabled: bool,
    latencyConsecutiveIntervals: int)
  {
    predicate Fits() { baseEject < LIMIT && maxEject < LIMIT }
    function Base(): int { if baseEject <= 0 then SECOND else baseEject }
    function Max(): int { if maxEject <= 0 then Base() else maxEject }
    function Window(): int { if errorRateWindow <= 0 then SECOND else errorRateWindow }
    function MinRequests(): int { if minRequests <= 0 then 1 else minRequests }
  }

  datatype Cell = Cell(
    ejectUntil: int,
    consecutiveFails: nat,
    ejectCount: nat,
    lastEjectAt: int,
    windowReq: nat,
    windowFail: nat,
    windowStart: int,
    latencyBadIntervals: nat)

  datatype Reason = Kept | ConsecutiveFail | ErrorRate | Latency

  const NEW := Cell(0, 0, 0, 0, 0, 0, 0, 0)

  /** Ejections less than five minutes apart double the ejection time, up to the maximum. */
  function Ejected(c: Cell, cfg: Config, now: int): Cell {
    var count := 1 + if 0 < c.lastEjectAt && now - c.lastEjectAt > FIVE_MINUTES then 0 else c.ejectCount;
    c.(ejectCount := count, lastEjectAt := now,
       ejectUntil := now + Min(Doubled(cfg.Base(), cfg.Max(), count - 1), cfg.Max()))
  }

  /** The window has run out by `now`, or was never started. */
  predicate RanOut(c: Cell, cfg: Config, now: int) { c.windowStart == 0 || now - c.windowStart > cfg.Window() }

  /** The counters once an outcome is counted, in a fresh window if the old one ran out. */
  function Counted(c: Cell, cfg: Config, success: bool, now: int): Cell {
    var w := if RanOut(c, cfg, now)
             then c.(windowStart := now, windowReq := 0, windowFail := 0) else c;
    w.(windowReq := w.windowReq + 1, windowFail := w.windowFail + if success then 0 else 1,
       consecutiveFails := if success then 0 else w.consecutiveFails + 1)
  }

  predicate TooManyInARow(c: Cell, cfg: Config) { 0 < cfg.consecutiveFailures <= c.consecutiveFails }

  /** Enough requests, and at least the threshold share of them failed. */
  predicate ShareTooHigh(cfg: Config, requests: int, failures: int) {
    && cfg.MinRequests() <= requests
    && 0 < cfg.errorRateThresholdPercent
    && cfg.errorRateThresholdPercent * requests <= 100 * failures
  }

  predicate TooHighAShare(c: Cell, cfg: Config) { ShareTooHigh(cfg, c.windowReq, c.windowFail) }

  /** Failures in a row are looked at first; each cause starts its own count afresh. */
  function AfterResult(c: Cell, cfg: Config, success: bool, now: int): (Cell, Reason) {
    if !cfg.enabled then (c, Kept)
    else
      var d := Counted(c, cfg, success, now);
      if !success && TooManyInARow(d, cfg) then (Ejected(d.(consecutiveFails := 0), cfg, now), ConsecutiveFail)
      else if TooHighAShare(d, cfg) then (Ejected(d.(windowReq := 0, windowFail := 0), cfg, now), ErrorRate)
      else (d, Kept)
  }

  function AfterLatency(c: Cell, cfg: Config, bad: bool, now: int): (Cell, Reason) {
    if !cfg.enabled || !cfg.latencyEnabled then (c, Kept)
    else if !bad then (c.(latencyBadIntervals := 0), Kept)
    else if 0 < cfg.latencyConsecutiveIntervals <= c.latencyBadIntervals + 1 then
      (Ejected(c.(latencyBadIntervals := 0), cfg, now), Latency)
    else (c.(latencyBadIntervals := c.latencyBadIntervals + 1), Kept)
  }

  class EndpointState {
    var c: Cell

    constructor ()
      ensures c == NEW
    {
      c := NEW;
    }

    method RecordResult(cfg: Config, success: bool, now: int) returns (reason: Reason)
      requires cfg.Fits()
      modifies this
      ensures (c, reason) == AfterResult(old(c), cfg, success, now)
      ensures !cfg.enabled ==> c == old(c) && reason == Kept
    {
      if !cfg.enabled {
        return Kept;
      }
      var window := cfg.errorRateWindow;
      if window <= 0 {
        window := SECOND;
      }
      if c.windowStart == 0 || now - c.windowStart > window {
        c := c.(windowStart := now, windowReq := 0, windowFail := 0);
      }
      c := c.(windowReq := c.windowReq + 1);
      if !success {
        c := c.(windowFail := c.windowFail + 1);
        c := c.(consecutiveFails := c.consecutiveFails + 1);
        if cfg.consecutiveFailures > 0 && c.consecutiveFails >= cfg.consecutiveFailures {
          c := c.(consecutiveFails := 0);
          Eject(cfg, now);
          return ConsecutiveFail;
        }
      } else {
        c := c.(consecutiveFails := 0);
      }
      reason := JudgeShare(cfg, now);
    }

    /** The error-rate half of RecordResult. */
    method JudgeShare(cfg: Config, now: int) returns (reason: Reason)
      requires cfg.Fits()
      modifies this
      ensures if TooHighAShare(old(c), cfg)
              then c == Ejected(old(c).(windowReq := 0, windowFail := 0), cfg, now) && reason == ErrorRate
              else c == old(c) && reason == Kept
    {
      var minReq := cfg.minRequests;
      if minReq <= 0 {
        minReq := 1;
      }
      if c.windowReq < minReq {
        return Kept;
      }
      var threshold := cfg.errorRateThresholdPercent;
      if threshold <= 0 {
        return Kept;
      }
      RoundedShare(c.windowFail, c.windowReq, threshold);
      var failRate := c.windowFail * 100 / c.windowReq;
      if failRate >= threshold {
        c := c.(windowReq := 0, windowFail := 0);
        Eject(cfg, now);
        return ErrorRate;
      }
      return Kept;
    }

    method ObserveLatency(cfg: Config, bad: bool, now: int) returns (reason: Reason)
      requires cfg.Fits()
      modifies this
      ensures (c, reason) == AfterLatency(old(c), cfg, bad, now)
      ensures !cfg.enabled || !cfg.latencyEnabled ==> c == old(c) && reason == Kept
    {
      if !cfg.enabled || !cfg.latencyEnabled {
        return Kept;
      }
      if bad {
        c := c.(latencyBadIntervals := c.latencyBadIntervals + 1);
        if cfg.latencyConsecutiveIntervals > 0 && c.latencyBadIntervals >= cfg.latencyConsecutiveIntervals {
          c := c.(latencyBadIntervals := 0);
          Eject(cfg, now);
          return Latency;
        }
      } else {
        c := c.(latencyBadIntervals := 0);
      }
      return Kept;
    }

    method Eject(cfg: Config, now: int)
      requires cfg.Fits()
      modifies this
      ensures c == Ejected(old(c), cfg, now)
    {
      if c.lastEjectAt > 0 && now - c.lastEjectAt > FIVE_MINUTES {
        c := c.(ejectCount := 0);
      }
      c := c.(ejectCount := c.ejectCount + 1);
      var duration := EjectDuration(cfg.baseEject, cfg.maxEject, c.ejectCount);
      c := c.(lastEjectAt := now);
      c := c.(ejectUntil := now + duration);
    }
  }

  // ------------------------------------------------------------------
  // Runs
  // ------------------------------------------------------------------

  datatype Event = Result(at: int, good: bool) | Interval(at: int, good: bool)

  function Next(c: Cell, cfg: Config, e: Event): (Cell, Reason) {
    match e
    case Result(at, good) => AfterResult(c, cfg, good, at)
    case Interval(at, good) => AfterLatency(c, cfg, !good, at)
  }

  ghost predicate IsRun(cfg: Config, cells: seq<Cell>, events: seq<Event>) {
    && cfg.enabled
    && |cells| == |events| + 1 && cells[0] == NEW
    && forall i :: 0 <= i < |events| ==> cells[i + 1] == Next(cells[i], cfg, events[i]).0
  }

  /** Bad events in a row at the end of the first `n`, among results or among latency intervals. */
  function Trailing(events: seq<Event>, results: bool, n: nat): nat
    requires n <= |events|
  {
    if n == 0 then 0
    else if events[n - 1].Result? != results then Trailing(events, results, n - 1)
    else if events[n - 1].good then 0
    else Trailing(events, results, n - 1) + 1
  }

  lemma {:induction false} FailsTrailing(cfg: Config, cells: seq<Cell>, events: seq<Event>, n: nat)
    requires IsRun(cfg, cells, events) && n <= |events| && 0 < cfg.consecutiveFailures
    ensures cells[n].consecutiveFails == Trailing(events, true, n) % cfg.consecutiveFailures
  {
    DivIs(0, cfg.consecutiveFailures, 0, 0);
    if n != 0 {
      FailsTrailing(cfg, cells, events, n - 1);
      assert cells[n] == Next(cells[n - 1], cfg, events[n - 1]).0;
      ModNext(Trailing(events, true, n - 1), cfg.consecutiveFailures);
    }
  }

  lemma {:induction false} SlowTrailing(cfg: Config, cells: seq<Cell>, events: seq<Event>, n: nat)
    requires IsRun(cfg, cells, events) && n <= |events| && cfg.latencyEnabled && 0 < cfg.latencyConsecutiveIntervals
    ensures cells[n].latencyBadIntervals == Trailing(events, false, n) % cfg.latencyConsecutiveIntervals
  {
    DivIs(0, cfg.latencyConsecutiveIntervals, 0, 0);
    if n != 0 {
      SlowTrailing(cfg, cells, events, n - 1);
      assert cells[n] == Next(cells[n - 1], cfg, events[n - 1]).0;
      ModNext(Trailing(events, false, n - 1), cfg.latencyConsecutiveIntervals);
    }
  }

  /**
   Whatever else happens in between, an endpoint is ejected for failures in a
   row exactly when their number reaches a multiple of the configured one.
   */
  lemma FailsEjectExactly(cfg: Config, cells: seq<Cell>, events: seq<Event>, n: nat)
    requires IsRun(cfg, cells, events) && n < |events| && 0 < cfg.consecutiveFailures
    ensures Next(cells[n], cfg, events[n]).1 == ConsecutiveFail
       <==> events[n].Result? && !events[n].good && Trailing(events, true, n + 1) % cfg.consecutiveFailures == 0
  {
    FailsTrailing(cfg, cells, events, n);
    ModNext(Trailing(events, true, n), cfg.consecutiveFailures);
  }

  /** And for latency exactly when the slow intervals in a row do. */
  lemma SlowEjectsExactly(cfg: Config, cells: seq<Cell>, events: seq<Event>, n: nat)
    requires IsRun(cfg, cells, events) && n < |events| && cfg.latencyEnabled && 0 < cfg.latencyConsecutiveIntervals
    ensures Next(cells[n], cfg, events[n]).1 == Latency
       <==> events[n].Interval? && !events[n].good && Trailing(events, false, n + 1) % cfg.latencyConsecutiveIntervals == 0
  {
    SlowTrailing(cfg, cells, events, n);
    ModNext(Trailing(events, false, n), cfg.latencyConsecutiveIntervals);
  }

  // ------------------------------------------------------------------
  // Ejections for the error share
  // ------------------------------------------------------------------

  /** Results among the events lo, ..., hi - 1. */
  function Results(events: seq<Event>, lo: int, hi: int): nat
    requires 0 <= lo && hi <= |events|
    decreases hi
  {
    if hi <= lo then 0 else Results(events, lo, hi - 1) + if events[hi - 1].Result? then 1 else 0
  }

  /** Failures among them. */
  function BadResults(events: seq<Event>, lo: int, hi: int): nat
    requires 0 <= lo && hi <= |events|
    decreases hi
  {
    if hi <= lo then 0 else BadResults(events, lo, hi - 1) + if events[hi - 1].Result? && !events[hi - 1].good then 1 else 0
  }

  /** Which events of a run eject for the error share. */
  ghost predicate SharesAre(cfg: Config, cells: seq<Cell>, events: seq<Event>, shares: seq<bool>)
    requires IsRun(cfg, cells, events)
  {
    |shares| == |events| && forall i :: 0 <= i < |events| ==> (shares[i] <==> Next(cells[i], cfg, events[i]).1 == ErrorRate)
  }

  /**
   The counts are those since event `w`: the start of the run, right after
   an ejection for the error share, or a result that found the window run
   out. Every result after it was in time and none ejected for the share.
   */
  ghost predicate CountedSince(cfg: Config, cells: seq<Cell>, events: seq<Event>, shares: seq<bool>, w: nat, n: nat)
    requires n <= |events| == |shares| && |cells| == |events| + 1
  {
    && w <= n
    && (w == 0 || shares[w - 1] || (w < n && events[w].Result? && RanOut(cells[w], cfg, events[w].at)))
    && cells[n].windowReq == Results(events, w, n) && cells[n].windowFail == BadResults(events, w, n)
    && cells[n].windowStart == (if w < n && events[w].Result? && RanOut(cells[w], cfg, events[w].at) then events[w].at
                                else cells[w].windowStart)
    && (forall i :: w < i < n && events[i].Result? ==> events[i].at - cells[n].windowStart <= cfg.Window())
    && (forall i :: w <= i < n ==> !shares[i])
  }

  /** What an event does to the window. */
  ghost predicate WindowMoves(cfg: Config, c: Cell, d: Cell, e: Event, forShare: bool) {
    var afresh := RanOut(c, cfg, e.at);
    if e.Interval? then
      !forShare && d.windowReq == c.windowReq && d.windowFail == c.windowFail && d.windowStart == c.windowStart
    else
      && d.windowStart == (if afresh then e.at else c.windowStart)
      && if forShare then d.windowReq == d.windowFail == 0
         else
           && d.windowReq == (if afresh then 0 else c.windowReq) + 1
           && d.windowFail == (if afresh then 0 else c.windowFail) + if e.good then 0 else 1
  }

  lemma WindowMeans(c: Cell, cfg: Config, e: Event)
    requires cfg.enabled
    ensures WindowMoves(cfg, c, Next(c, cfg, e).0, e, Next(c, cfg, e).1 == ErrorRate)
  {}

  lemma CountsNext(cfg: Config, cells: seq<Cell>, events: seq<Event>, shares: seq<bool>, w: nat, n: nat) returns (w': nat)
    requires n < |events| == |shares| && |cells| == |events| + 1
    requires CountedSince(cfg, cells, events, shares, w, n)
    requires WindowMoves(cfg, cells[n], cells[n + 1], events[n], shares[n])
    ensures CountedSince(cfg, cells, events, shares, w', n + 1)
  {
    w' := w;
    if events[n].Result? {
      if shares[n] {
        w' := n + 1;
      } else if RanOut(cells[n], cfg, events[n].at) {
        w' := n;
      }
    }
  }

  lemma {:induction false} CountsExplained(cfg: Config, cells: seq<Cell>, events: seq<Event>, shares: seq<bool>, n: nat)
    returns (w: nat)
    requires IsRun(cfg, cells, events) && n <= |events| && SharesAre(cfg, cells, events, shares)
    ensures CountedSince(cfg, cells, events, shares, w, n)
  {
    w := 0;
    if n > 0 {
      w := CountsExplained(cfg, cells, events, shares, n - 1);
      WindowMeans(cells[n - 1], cfg, events[n - 1]);
      w := CountsNext(cfg, cells, events, shares, w, n - 1);
    }
  }

  /**
   A result ejects for the error share if and only if it does not already
   eject for failures in a row and, counting it, the results of the current
   window are enough and a high enough share of them failed.
   */
  lemma EjectsForShareExactly(cfg: Config, cells: seq<Cell>, events: seq<Event>, shares: seq<bool>, n: nat) returns (w: nat)
    requires IsRun(cfg, cells, events) && n < |events| && events[n].Result? && SharesAre(cfg, cells, events, shares)
    ensures
      var window := if cfg.errorRateWindow <= 0 then 1_000_000_000 else cfg.errorRateWindow;
      if cells[n].windowStart == 0 || events[n].at - cells[n].windowStart > window then w == n
      else CountedSince(cfg, cells, events, shares, w, n)
    ensures w <= n
    ensures Next(cells[n], cfg, events[n]).1 == ErrorRate <==>
            && Next(cells[n], cfg, events[n]).1 != ConsecutiveFail
            && (if cfg.minRequests <= 0 then 1 else cfg.minRequests) <= Results(events, w, n + 1)
            && 0 < cfg.errorRateThresholdPercent
            && cfg.errorRateThresholdPercent * Results(events, w, n + 1) <= 100 * BadResults(events, w, n + 1)
  {
    w := CountsExplained(cfg, cells, events, shares, n);
    if RanOut(cells[n], cfg, events[n].at) {
      w := n;
    }
  }

  // ------------------------------------------------------------------
  // How long ejections last
  // ------------------------------------------------------------------

  /** Which events of a run eject. */
  ghost predicate EjectsAre(cfg: Config, cells: seq<Cell>, events: seq<Event>, ejects: seq<bool>)
    requires IsRun(cfg, cells, events)
  {
    |ejects| == |events| && forall i :: 0 <= i < |events| ==> (ejects[i] <==> Next(cells[i], cfg, events[i]).1 != Kept)
  }

  /** The last ejecting event before `n`, or -1. */
  function LastEjection(ejects: seq<bool>, n: nat): (last: int)
    requires n <= |ejects|
    ensures -1 <= last < n
  {
    if n == 0 then -1 else if ejects[n - 1] then n - 1 else LastEjection(ejects, n - 1)
  }

  /** The event ejects, as the first one ever or more than five minutes after the one before. */
  predicate Afresh(ejects: seq<bool>, events: seq<Event>, i: nat)
    requires i < |ejects| == |events|
  {
    && ejects[i]
    && (var last := LastEjection(ejects, i);
        last < 0 || events[i].at - events[last].at > 300_000_000_000)
  }

  function Ejections(ejects: seq<bool>, lo: nat, hi: nat): nat
    requires hi <= |ejects|
  {
    if hi <= lo then 0 else Ejections(ejects, lo, hi - 1) + if ejects[hi - 1] then 1 else 0
  }

  /** How long an ejection lasts when it is the `count`-th of its series. */
  function Duration(cfg: Config, count: nat): int
    requires 1 <= count
  {
    Min(Doubled(cfg.Base(), cfg.Max(), count - 1), cfg.Max())
  }

  /** That is the capped doubling, under the exact condition for the loop not to wrap around. */
  lemma DurationIs(cfg: Config, count: nat)
    requires 1 <= count && cfg.Base() < HALF && cfg.Max() <= TopDouble(cfg.Base())
    ensures Duration(cfg, count) == Backoff(cfg.Base(), cfg.Max(), count - 1)
  {
    DoubledIsBackoff(cfg.Base(), cfg.Max(), count - 1);
  }

  /** What an event does to the three fields about ejections. */
  lemma EjectsMeans(c: Cell, cfg: Config, e: Event)
    ensures
      var (d, reason) := Next(c, cfg, e);
      if reason == Kept then d.ejectCount == c.ejectCount && d.lastEjectAt == c.lastEjectAt && d.ejectUntil == c.ejectUntil
      else
        && d.lastEjectAt == e.at
        && d.ejectCount == 1 + (if 0 < c.lastEjectAt && e.at - c.lastEjectAt > FIVE_MINUTES then 0 else c.ejectCount)
        && d.ejectUntil == e.at + Duration(cfg, d.ejectCount)
  {}

  /** The fields are explained by the ejections since event `s`, the last that came afresh. */
  ghost predicate SeriesSince(cfg: Config, ejects: seq<bool>, events: seq<Event>, s: nat, n: nat, c: Cell)
    requires n <= |ejects| == |events|
  {
    var last := LastEjection(ejects, n);
    if last < 0 then c.ejectCount == c.lastEjectAt == c.ejectUntil == 0
    else
      && s <= last && Afresh(ejects, events, s) && (forall i :: s < i < n ==> !Afresh(ejects, events, i))
      && 1 <= c.ejectCount == Ejections(ejects, s, n) && c.lastEjectAt == events[last].at
      && c.ejectUntil == events[last].at + Duration(cfg, c.ejectCount)
  }

  lemma SeriesNext(cfg: Config, ejects: seq<bool>, events: seq<Event>, s: nat, n: nat, c: Cell, d: Cell) returns (s': nat)
    requires n < |ejects| == |events| && SeriesSince(cfg, ejects, events, s, n, c) && forall e <- events :: 0 < e.at
    requires
      if !ejects[n] then d.ejectCount == c.ejectCount && d.lastEjectAt == c.lastEjectAt && d.ejectUntil == c.ejectUntil
      else
        && d.lastEjectAt == events[n].at
        && d.ejectCount == 1 + (if 0 < c.lastEjectAt && events[n].at - c.lastEjectAt > FIVE_MINUTES then 0 else c.ejectCount)
        && d.ejectUntil == events[n].at + Duration(cfg, d.ejectCount)
    ensures SeriesSince(cfg, ejects, events, s', n + 1, d)
  {
    s' := if Afresh(ejects, events, n) then n else s;
    if Afresh(ejects, events, n) {
      assert Ejections(ejects, n, n + 1) == 1;
    }
  }

  /**
   In every run the ejection count is the number of ejections since the last
   that came more than five minutes after the one before, and the endpoint
   sits out the last one for as long as the doubling loop says for that count.
   */
  lemma {:induction false} SeriesExplained(cfg: Config, cells: seq<Cell>, events: seq<Event>, ejects: seq<bool>, n: nat)
    returns (s: nat)
    requires IsRun(cfg, cells, events) && n <= |events| && forall e <- events :: 0 < e.at
    requires EjectsAre(cfg, cells, events, ejects)
    ensures SeriesSince(cfg, ejects, events, s, n, cells[n])
  {
    s := 0;
    if n > 0 {
      s := SeriesExplained(cfg, cells, events, ejects, n - 1);
      EjectsMeans(cells[n - 1], cfg, events[n - 1]);
      s := SeriesNext(cfg, ejects, events, s, n - 1, cells[n - 1], cells[n]);
    }
  }
}
