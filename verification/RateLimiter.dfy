/**
 The admin rate limiter: a token bucket per client address, and a block after
 too many failed logins. Time is in seconds and exact.
 */
module RateLimiter {

  datatype Config = Config(rps: int, burst: int, maxFailures: int, blockDuration: real) {
    function Rate(): (r: real) ensures 0.0 < r { if rps <= 0 then 5.0 else rps as real }
    function Burst(): (r: real) ensures 1.0 <= r { if burst <= 0 then 10.0 else burst as real }
    function MaxFailures(): (r: int) ensures 1 <= r { if maxFailures <= 0 then 20 else maxFailures }
    function BlockFor(): (r: real) ensures 0.0 < r { if blockDuration <= 0.0 then 600.0 else blockDuration }
  }

  datatype Bucket = Bucket(remaining: real, last: real)

  /** `blockedTill` is None until the first block. */
  datatype Failures = Failures(count: int, blockedTill: Block)
  datatype Block = Never | Until(at: real)

  type Ip = string

  datatype Limiter = Limiter(buckets: map<Ip, Bucket>, failures: map<Ip, Failures>)

  const EMPTY := Limiter(map[], map[])

  predicate Blocked(l: Limiter, ip: Ip, now: real) {
    ip in l.failures && l.failures[ip].blockedTill.Until? && now < l.failures[ip].blockedTill.at
  }

  function Min(a: real, b: real): real { if a < b then a else b }

  /** What comes in during `elapsed` seconds: elapsed * rate tokens. */
  function Refill(cfg: Config, elapsed: real): (r: real)
    ensures elapsed == 0.0 ==> r == 0.0
    ensures 0.0 <= elapsed ==> 0.0 <= r
  {
    elapsed * cfg.Rate()
  }

  lemma RefillIs(cfg: Config, elapsed: real)
    ensures Refill(cfg, elapsed) == elapsed * cfg.Rate()
  {}

  lemma RefillAdds(cfg: Config, x: real, y: real)
    ensures Refill(cfg, x + y) == Refill(cfg, x) + Refill(cfg, y)
  {}

  /** Tokens an address has at `now`: refilled at the rate since it was last looked at, up to the burst. */
  function Available(l: Limiter, cfg: Config, ip: Ip, now: real): real {
    if ip !in l.buckets then cfg.Burst()
    else Min(cfg.Burst(), l.buckets[ip].remaining + Refill(cfg, now - l.buckets[ip].last))
  }

  predicate Allows(l: Limiter, cfg: Config, ip: Ip, now: real) {
    !Blocked(l, ip, now) && 1.0 <= Available(l, cfg, ip, now)
  }

  function AfterAllow(l: Limiter, cfg: Config, ip: Ip, now: real): Limiter {
    if Blocked(l, ip, now) then l
    else
      var have := Available(l, cfg, ip, now);
      l.(buckets := l.buckets[ip := Bucket(if have < 1.0 then have else have - 1.0, now)])
  }

  function AfterFailure(l: Limiter, cfg: Config, ip: Ip, now: real): Limiter {
    if Blocked(l, ip, now) then l
    else
      var f := if ip in l.failures then l.failures[ip] else Failures(0, Never);
      var count := f.count + 1;
      l.(failures := l.failures[ip := Failures(count, if count >= cfg.MaxFailures() then Until(now + cfg.BlockFor()) else f.blockedTill)])
  }

  function AfterReset(l: Limiter, ip: Ip): Limiter {
    if ip in l.failures then l.(failures := l.failures[ip := l.failures[ip].(count := 0)]) else l
  }

  class RateLimiter {
    const rate: real
    const burst: real
    const maxFailures: int
    const blockFor: real
    ghost const cfg: Config
    var l: Limiter

    ghost predicate Configured()
    {
      rate == cfg.Rate() && burst == cfg.Burst() && maxFailures == cfg.MaxFailures() && blockFor == cfg.BlockFor()
    }

    constructor (cfg: Config)
      ensures Configured() && this.cfg == cfg && l == EMPTY
    {
      this.cfg := cfg;
      rate := if cfg.rps <= 0 then 5.0 else cfg.rps as real;
      burst := if cfg.burst <= 0 then 10.0 else cfg.burst as real;
      maxFailures := if cfg.maxFailures <= 0 then 20 else cfg.maxFailures;
      blockFor := if cfg.blockDuration <= 0.0 then 600.0 else cfg.blockDuration;
      l := EMPTY;
    }

    method Allow(ip: Ip, now: real) returns (ok: bool)
      requires Configured()
      modifies `l
      ensures l == AfterAllow(old(l), cfg, ip, now) && ok == Allows(old(l), cfg, ip, now)
    {
      if ip in l.failures && l.failures[ip].blockedTill.Until? && now < l.failures[ip].blockedTill.at {
        return false;
      }
      if ip !in l.buckets {
        l := l.(buckets := l.buckets[ip := Bucket(burst, now)]);
      }
      var elapsed := now - l.buckets[ip].last;
      assert elapsed * rate == Refill(cfg, elapsed);
      var remaining := Min(burst, l.buckets[ip].remaining + elapsed * rate);
      assert remaining == Available(old(l), cfg, ip, now);
      l := l.(buckets := l.buckets[ip := Bucket(remaining, now)]);
      assert l.buckets == old(l).buckets[ip := Bucket(remaining, now)];
      if remaining < 1.0 {
        return false;
      }
      l := l.(buckets := l.buckets[ip := Bucket(remaining - 1.0, now)]);
      assert l.buckets == old(l).buckets[ip := Bucket(remaining - 1.0, now)];
      return true;
    }

    method RecordFailure(ip: Ip, now: real)
      requires Configured()
      modifies `l
      ensures l == AfterFailure(old(l), cfg, ip, now)
    {
      if ip !in l.failures {
        l := l.(failures := l.failures[ip := Failures(0, Never)]);
      }
      var state := l.failures[ip];
      if state.blockedTill.Until? && now < state.blockedTill.at {
        return;
      }
      state := state.(count := state.count + 1);
      if state.count >= maxFailures {
        state := state.(blockedTill := Until(now + blockFor));
      }
      l := l.(failures := l.failures[ip := state]);
    }

    method ResetFailures(ip: Ip)
      modifies `l
      ensures l == AfterReset(old(l), ip)
    {
      if ip in l.failures {
        l := l.(failures := l.failures[ip := l.failures[ip].(count := 0)]);
      }
    }
  }

  // ------------------------------------------------------------------
  // Runs
  // ------------------------------------------------------------------

  datatype Event = Ask(ip: Ip, at: real) | Fail(ip: Ip, at: real) | Reset(ip: Ip, at: real)

  function Next(l: Limiter, cfg: Config, e: Event): Limiter {
    match e
    case Ask(ip, at) => AfterAllow(l, cfg, ip, at)
    case Fail(ip, at) => AfterFailure(l, cfg, ip, at)
    case Reset(ip, _) => AfterReset(l, ip)
  }

  /** A run from any earlier state, on a clock that never runs backwards. */
  ghost predicate IsRun(cfg: Config, states: seq<Limiter>, events: seq<Event>) {
    && |states| == |events| + 1
    && (forall i :: 0 <= i < |events| ==> states[i + 1] == Next(states[i], cfg, events[i]))
    && (forall i, j :: 0 <= i < j < |events| ==> events[i].at <= events[j].at)
  }

  /** Requests of one address allowed among the events lo, ..., hi - 1. */
  ghost function AllowedIn(cfg: Config, states: seq<Limiter>, events: seq<Event>, ip: Ip, lo: int, hi: int): nat
    requires IsRun(cfg, states, events) && 0 <= lo && hi <= |events|
    decreases hi
  {
    if hi <= lo then 0
    else
      AllowedIn(cfg, states, events, ip, lo, hi - 1)
      + if events[hi - 1].Ask? && events[hi - 1].ip == ip && Allows(states[hi - 1], cfg, ip, events[hi - 1].at) then 1 else 0
  }

  /** An address never holds more than the burst, was never looked at in the future, and is never in debt. */
  ghost predicate Sane(l: Limiter, cfg: Config, ip: Ip, now: real) {
    ip in l.buckets ==> 0.0 <= l.buckets[ip].remaining <= cfg.Burst() && l.buckets[ip].last <= now
  }

  /** Time only adds tokens, and at most at the rate. */
  lemma AvailableGrows(l: Limiter, cfg: Config, ip: Ip, t: real, t': real)
    requires t <= t' && Sane(l, cfg, ip, t)
    ensures Available(l, cfg, ip, t) <= Available(l, cfg, ip, t') <= Available(l, cfg, ip, t) + Refill(cfg, t' - t)
    ensures 0.0 <= Available(l, cfg, ip, t) <= cfg.Burst()
  {
    if ip in l.buckets {
      RefillAdds(cfg, t - l.buckets[ip].last, t' - t);
      assert t' - l.buckets[ip].last == (t - l.buckets[ip].last) + (t' - t);
    }
  }

  /** One event at time `t` costs the address a token if it is allowed, and nothing otherwise. */
  lemma EventCosts(l: Limiter, cfg: Config, ip: Ip, e: Event)
    requires Sane(l, cfg, ip, e.at)
    ensures Sane(Next(l, cfg, e), cfg, ip, e.at)
    ensures Available(Next(l, cfg, e), cfg, ip, e.at)
         == Available(l, cfg, ip, e.at) - if e.Ask? && e.ip == ip && Allows(l, cfg, ip, e.at) then 1.0 else 0.0
  {
    AvailableGrows(l, cfg, ip, e.at, e.at);
    if e.Ask? && e.ip == ip && !Blocked(l, ip, e.at) {
      var have := Available(l, cfg, ip, e.at);
      var left := if have < 1.0 then have else have - 1.0;
      assert Next(l, cfg, e).buckets[ip] == Bucket(left, e.at);
    }
  }

  /** What was allowed, plus what is left, is covered by what there was plus what came in. */
  lemma {:induction false} TokensCover(cfg: Config, states: seq<Limiter>, events: seq<Event>, ip: Ip, lo: int, hi: int)
    requires IsRun(cfg, states, events) && 0 <= lo < hi <= |events|
    requires Sane(states[lo], cfg, ip, events[lo].at)
    ensures Sane(states[hi], cfg, ip, events[hi - 1].at)
    ensures AllowedIn(cfg, states, events, ip, lo, hi) as real + Available(states[hi], cfg, ip, events[hi - 1].at)
         <= Available(states[lo], cfg, ip, events[lo].at) + Refill(cfg, events[hi - 1].at - events[lo].at)
    decreases hi
  {
    var e := events[hi - 1];
    if hi == lo + 1 {
      EventCosts(states[lo], cfg, ip, e);
    } else {
      TokensCover(cfg, states, events, ip, lo, hi - 1);
      var before := events[hi - 2].at;
      AvailableGrows(states[hi - 1], cfg, ip, before, e.at);
      EventCosts(states[hi - 1], cfg, ip, e);
      RefillAdds(cfg, e.at - before, before - events[lo].at);
      assert e.at - events[lo].at == (e.at - before) + (before - events[lo].at);
    }
  }

  lemma {:induction false} SaneAlong(cfg: Config, states: seq<Limiter>, events: seq<Event>, ip: Ip, i: int)
    requires IsRun(cfg, states, events) && states[0] == EMPTY && 0 <= i < |events|
    ensures Sane(states[i], cfg, ip, events[i].at)
  {
    if i > 0 {
      SaneAlong(cfg, states, events, ip, i - 1);
      EventCosts(states[i - 1], cfg, ip, events[i - 1]);
    }
  }

  lemma AllowedIsCovered(cfg: Config, states: seq<Limiter>, events: seq<Event>, ip: Ip, lo: int, hi: int, d: real)
    requires IsRun(cfg, states, events) && states[0] == EMPTY && 0 <= lo < hi <= |events|
    requires d == events[hi - 1].at - events[lo].at
    ensures AllowedIn(cfg, states, events, ip, lo, hi) as real <= cfg.Burst() + Refill(cfg, d)
  {
    SaneAlong(cfg, states, events, ip, lo);
    TokensCover(cfg, states, events, ip, lo, hi);
    AvailableGrows(states[lo], cfg, ip, events[lo].at, events[lo].at);
    AvailableGrows(states[hi], cfg, ip, events[hi - 1].at, events[hi - 1].at);
  }

  /**
   Over any stretch of any run, one address is allowed at most burst + rate * d
   requests, where d is how long the stretch lasted.
   */
  lemma RateHolds(cfg: Config, states: seq<Limiter>, events: seq<Event>, ip: Ip, lo: int, hi: int)
    requires IsRun(cfg, states, events) && states[0] == EMPTY && 0 <= lo < hi <= |events|
    ensures AllowedIn(cfg, states, events, ip, lo, hi) as real
         <= cfg.Burst() + (events[hi - 1].at - events[lo].at) * cfg.Rate()
  {
    var d := events[hi - 1].at - events[lo].at;
    AllowedIsCovered(cfg, states, events, ip, lo, hi, d);
    RefillIs(cfg, d);
    assert Refill(cfg, d) == (events[hi - 1].at - events[lo].at) * cfg.Rate();
  }

  /** Between two looks tokens come in at the rate, unless the bucket is full at the later one. */
  lemma FullOrRefilled(l: Limiter, cfg: Config, ip: Ip, t: real, t': real)
    requires t <= t' && Sane(l, cfg, ip, t)
    ensures Available(l, cfg, ip, t') == cfg.Burst() || Available(l, cfg, ip, t') == Available(l, cfg, ip, t) + Refill(cfg, t' - t)
  {
    if ip in l.buckets {
      RefillAdds(cfg, t - l.buckets[ip].last, t' - t);
      assert t' - l.buckets[ip].last == (t - l.buckets[ip].last) + (t' - t);
    }
  }

  /** The tokens an address has are the burst it last had in full, less what it was allowed since, and what came in since. */
  lemma {:induction false} FullSince(cfg: Config, states: seq<Limiter>, events: seq<Event>, ip: Ip, n: int) returns (lo: int)
    requires IsRun(cfg, states, events) && states[0] == EMPTY && 0 <= n < |events|
    ensures 0 <= lo <= n
    ensures Available(states[n], cfg, ip, events[n].at)
         == cfg.Burst() - AllowedIn(cfg, states, events, ip, lo, n) as real + Refill(cfg, events[n].at - events[lo].at)
  {
    lo := n;
    if n > 0 && Available(states[n], cfg, ip, events[n].at) != cfg.Burst() {
      lo := FullSince(cfg, states, events, ip, n - 1);
      var before, now := events[n - 1].at, events[n].at;
      SaneAlong(cfg, states, events, ip, n - 1);
      EventCosts(states[n - 1], cfg, ip, events[n - 1]);
      FullOrRefilled(states[n], cfg, ip, before, now);
      RefillAdds(cfg, now - before, before - events[lo].at);
      assert now - events[lo].at == (now - before) + (before - events[lo].at);
    }
  }

  /** Counting one more at event `n`, the stretch from `lo` has no more allowed requests than burst and rate give it. */
  ghost predicate Within(cfg: Config, states: seq<Limiter>, events: seq<Event>, ip: Ip, lo: int, n: int)
    requires IsRun(cfg, states, events) && 0 <= lo <= n < |events|
  {
    AllowedIn(cfg, states, events, ip, lo, n) as real + 1.0 <= cfg.Burst() + (events[n].at - events[lo].at) * cfg.Rate()
  }

  lemma WithinIs(cfg: Config, states: seq<Limiter>, events: seq<Event>, ip: Ip, lo: int, n: int)
    requires IsRun(cfg, states, events) && 0 <= lo <= n < |events|
    ensures Within(cfg, states, events, ip, lo, n)
       <==> AllowedIn(cfg, states, events, ip, lo, n) as real + 1.0 <= cfg.Burst() + Refill(cfg, events[n].at - events[lo].at)
  {
    var d := events[n].at - events[lo].at;
    RefillIs(cfg, d);
    assert Refill(cfg, d) == (events[n].at - events[lo].at) * cfg.Rate();
  }

  lemma AllowedIsWithin(cfg: Config, states: seq<Limiter>, events: seq<Event>, ip: Ip, lo: int, n: int)
    requires IsRun(cfg, states, events) && states[0] == EMPTY && 0 <= lo <= n < |events|
    requires events[n].Ask? && events[n].ip == ip && Allows(states[n], cfg, ip, events[n].at)
    ensures Within(cfg, states, events, ip, lo, n)
  {
    AllowedIsCovered(cfg, states, events, ip, lo, n + 1, events[n].at - events[lo].at);
    WithinIs(cfg, states, events, ip, lo, n);
  }

  lemma DeniedIsNotWithin(cfg: Config, states: seq<Limiter>, events: seq<Event>, ip: Ip, n: int) returns (lo: int)
    requires IsRun(cfg, states, events) && states[0] == EMPTY && 0 <= n < |events|
    requires !Blocked(states[n], ip, events[n].at) && !Allows(states[n], cfg, ip, events[n].at)
    ensures 0 <= lo <= n && !Within(cfg, states, events, ip, lo, n)
  {
    lo := FullSince(cfg, states, events, ip, n);
    WithinIs(cfg, states, events, ip, lo, n);
  }

  /**
   An address that is not blocked is allowed a request if and only if, counting
   it, no stretch of the run up to now has more allowed requests than the burst
   and what the rate gives over that stretch.
   */
  lemma AllowedExactly(cfg: Config, states: seq<Limiter>, events: seq<Event>, ip: Ip, n: int)
    requires IsRun(cfg, states, events) && states[0] == EMPTY && 0 <= n < |events|
    requires events[n].Ask? && events[n].ip == ip && !Blocked(states[n], ip, events[n].at)
    ensures Allows(states[n], cfg, ip, events[n].at)
       <==> forall lo :: 0 <= lo <= n ==> Within(cfg, states, events, ip, lo, n)
  {
    if Allows(states[n], cfg, ip, events[n].at) {
      forall lo | 0 <= lo <= n
        ensures Within(cfg, states, events, ip, lo, n)
      {
        AllowedIsWithin(cfg, states, events, ip, lo, n);
      }
    } else {
      var lo := DeniedIsNotWithin(cfg, states, events, ip, n);
    }
  }

  /** An address's bucket was last looked at by a request of it; before its first request it has none. */
  lemma {:induction false} LastLooked(cfg: Config, states: seq<Limiter>, events: seq<Event>, ip: Ip, n: nat)
    requires IsRun(cfg, states, events) && states[0] == EMPTY && n <= |events|
    ensures ip in states[n].buckets ==>
              exists i :: 0 <= i < n && events[i].Ask? && events[i].ip == ip && events[i].at == states[n].buckets[ip].last
  {
    if n > 0 {
      LastLooked(cfg, states, events, ip, n - 1);
      assert states[n] == Next(states[n - 1], cfg, events[n - 1]);
    }
  }

  lemma EnoughRest(cfg: Config, elapsed: real)
    requires 1.0 / cfg.Rate() <= elapsed
    ensures 1.0 <= Refill(cfg, elapsed)
  {
    RefillIs(cfg, elapsed);
    RestIsEnough(elapsed, cfg.Rate());
  }

  lemma RestIsEnough(elapsed: real, rate: real)
    requires 0.0 < rate && 1.0 / rate <= elapsed
    ensures 1.0 <= elapsed * rate
  {
    assert (1.0 / rate) * rate == 1.0;
    assert 0.0 <= (elapsed - 1.0 / rate) * rate;
  }

  /** An address that is not blocked and asked for nothing during the last 1 / rate seconds, or ever, is allowed. */
  lemma AllowedWhenRested(cfg: Config, states: seq<Limiter>, events: seq<Event>, ip: Ip, n: int)
    requires IsRun(cfg, states, events) && states[0] == EMPTY && 0 <= n < |events|
    requires events[n].Ask? && events[n].ip == ip && !Blocked(states[n], ip, events[n].at)
    requires forall i :: 0 <= i < n && events[i].Ask? && events[i].ip == ip ==> events[i].at + 1.0 / cfg.Rate() <= events[n].at
    ensures Allows(states[n], cfg, ip, events[n].at)
  {
    LastLooked(cfg, states, events, ip, n);
    SaneAlong(cfg, states, events, ip, n);
    if ip in states[n].buckets {
      EnoughRest(cfg, events[n].at - states[n].buckets[ip].last);
    }
  }

  // ------------------------------------------------------------------
  // Blocks
  // ------------------------------------------------------------------

  /** Failures of an address since its last reset, not counting those that fell into a block of it. */
  ghost function Strikes(cfg: Config, events: seq<Event>, ip: Ip, n: nat): nat
    requires n <= |events|
    decreases n, 0
  {
    if n == 0 then 0
    else
      var e := events[n - 1];
      if e.ip != ip then Strikes(cfg, events, ip, n - 1)
      else if e.Reset? then 0
      else Strikes(cfg, events, ip, n - 1) + if e.Fail? && !InBlock(cfg, events, ip, n - 1, e.at) then 1 else 0
  }

  /** One of the first `n` events started a block of the address that still lasts at `now`. */
  ghost predicate InBlock(cfg: Config, events: seq<Event>, ip: Ip, n: nat, now: real)
    requires n <= |events|
    decreases n, 0
  {
    exists i :: 0 <= i < n && Blocks(cfg, events, ip, i) && now < events[i].at + cfg.BlockFor()
  }

  /** The event starts a block: a failure outside any block that completes enough of them. */
  ghost predicate Blocks(cfg: Config, events: seq<Event>, ip: Ip, i: nat)
    requires i < |events|
    decreases i, 1
  {
    && events[i].Fail? && events[i].ip == ip && !InBlock(cfg, events, ip, i, events[i].at)
    && Strikes(cfg, events, ip, i) + 1 >= cfg.MaxFailures()
  }

  function CountOf(l: Limiter, ip: Ip): int { if ip in l.failures then l.failures[ip].count else 0 }

  function BlockOf(l: Limiter, ip: Ip): Block { if ip in l.failures then l.failures[ip].blockedTill else Never }

  /** Event `i` is one of the first `n` and started a block that ends at `end`. */
  ghost predicate Started(cfg: Config, events: seq<Event>, ip: Ip, n: nat, i: int, end: real)
    requires n <= |events|
  {
    0 <= i < n && Blocks(cfg, events, ip, i) && end == events[i].at + cfg.BlockFor()
  }

  /** The block given is the one that ends last of those started so far. */
  ghost predicate LastBlock(cfg: Config, events: seq<Event>, ip: Ip, n: nat, block: Block)
    requires n <= |events|
  {
    && (block.Until? ==> exists i :: Started(cfg, events, ip, n, i, block.at))
    && (forall i, end :: Started(cfg, events, ip, n, i, end) ==> block.Until? && end <= block.at)
  }

  lemma InLastBlock(cfg: Config, events: seq<Event>, ip: Ip, n: nat, block: Block, now: real)
    requires n <= |events| && LastBlock(cfg, events, ip, n, block)
    ensures InBlock(cfg, events, ip, n, now) <==> block.Until? && now < block.at
  {
    if InBlock(cfg, events, ip, n, now) {
      var i :| 0 <= i < n && Blocks(cfg, events, ip, i) && now < events[i].at + cfg.BlockFor();
      assert Started(cfg, events, ip, n, i, events[i].at + cfg.BlockFor());
    }
    if block.Until? && now < block.at {
      var i :| Started(cfg, events, ip, n, i, block.at);
    }
  }

  lemma LastBlockNext(cfg: Config, events: seq<Event>, ip: Ip, n: nat, block: Block)
    requires n < |events| && LastBlock(cfg, events, ip, n, block)
    requires forall i, j :: 0 <= i < j < |events| ==> events[i].at <= events[j].at
    ensures LastBlock(cfg, events, ip, n + 1, if Blocks(cfg, events, ip, n) then Until(events[n].at + cfg.BlockFor()) else block)
  {
    if Blocks(cfg, events, ip, n) {
      NowLast(cfg, events, ip, n);
    } else {
      StillLast(cfg, events, ip, n, block);
    }
  }

  lemma NowLast(cfg: Config, events: seq<Event>, ip: Ip, n: nat)
    requires n < |events| && Blocks(cfg, events, ip, n)
    requires forall i, j :: 0 <= i < j < |events| ==> events[i].at <= events[j].at
    ensures LastBlock(cfg, events, ip, n + 1, Until(events[n].at + cfg.BlockFor()))
  {
    var end := events[n].at + cfg.BlockFor();
    assert Started(cfg, events, ip, n + 1, n, end);
    var m := n + 1;
    forall i, e | Started(cfg, events, ip, m, i, e)
      ensures e <= end
    {
      assert i == n || events[i].at <= events[n].at;
    }
  }

  lemma StillLast(cfg: Config, events: seq<Event>, ip: Ip, n: nat, block: Block)
    requires n < |events| && LastBlock(cfg, events, ip, n, block) && !Blocks(cfg, events, ip, n)
    ensures LastBlock(cfg, events, ip, n + 1, block)
  {
    var m := n + 1;
    forall i, e | Started(cfg, events, ip, m, i, e)
      ensures block.Until? && e <= block.at
    {
      assert i != n;
      assert Started(cfg, events, ip, n, i, e);
    }
    if block.Until? {
      var i :| Started(cfg, events, ip, n, i, block.at);
      assert Started(cfg, events, ip, n + 1, i, block.at);
    }
  }

  /** What one event does to the failures of one address. */
  lemma FailuresNext(l: Limiter, cfg: Config, e: Event, ip: Ip)
    ensures
      var l' := Next(l, cfg, e);
      var counts := e.Fail? && e.ip == ip && !Blocked(l, ip, e.at);
      && CountOf(l', ip) == (if e.Reset? && e.ip == ip then 0 else CountOf(l, ip) + if counts then 1 else 0)
      && BlockOf(l', ip) == if counts && CountOf(l, ip) + 1 >= cfg.MaxFailures() then Until(e.at + cfg.BlockFor()) else BlockOf(l, ip)
  {}

  /** Count and block of an address are what the first `n` events make them. */
  ghost predicate Explains(cfg: Config, events: seq<Event>, ip: Ip, n: nat, l: Limiter)
    requires n <= |events|
  {
    CountOf(l, ip) == Strikes(cfg, events, ip, n) && LastBlock(cfg, events, ip, n, BlockOf(l, ip))
  }

  lemma ExplainsNext(l: Limiter, cfg: Config, events: seq<Event>, ip: Ip, n: nat)
    requires n < |events| && Explains(cfg, events, ip, n, l)
    requires forall i, j :: 0 <= i < j < |events| ==> events[i].at <= events[j].at
    ensures Explains(cfg, events, ip, n + 1, Next(l, cfg, events[n]))
  {
    InLastBlock(cfg, events, ip, n, BlockOf(l, ip), events[n].at);
    FailuresNext(l, cfg, events[n], ip);
    LastBlockNext(cfg, events, ip, n, BlockOf(l, ip));
  }

  /**
   In every run from an empty limiter, an address's count is the failures
   since its last reset that did not fall into a block.
   */
  lemma {:induction false} FailuresExplained(cfg: Config, states: seq<Limiter>, events: seq<Event>, ip: Ip, n: nat)
    requires IsRun(cfg, states, events) && states[0] == EMPTY && n <= |events|
    ensures Explains(cfg, events, ip, n, states[n])
  {
    if n > 0 {
      FailuresExplained(cfg, states, events, ip, n - 1);
      ExplainsNext(states[n - 1], cfg, events, ip, n - 1);
    }
  }

  /** It is blocked exactly while a block that one of its failures started lasts. */
  lemma BlockedExactly(cfg: Config, states: seq<Limiter>, events: seq<Event>, ip: Ip, n: nat, now: real)
    requires IsRun(cfg, states, events) && states[0] == EMPTY && n <= |events|
    ensures Blocked(states[n], ip, now) <==> InBlock(cfg, events, ip, n, now)
  {
    FailuresExplained(cfg, states, events, ip, n);
    InLastBlock(cfg, events, ip, n, BlockOf(states[n], ip), now);
  }

  /** A failure outside a block starts one if and only if, counting it, there are enough since the last reset. */
  lemma BlocksExactly(cfg: Config, states: seq<Limiter>, events: seq<Event>, ip: Ip, n: nat)
    requires IsRun(cfg, states, events) && states[0] == EMPTY && n < |events|
    requires events[n].Fail? && events[n].ip == ip && !Blocked(states[n], ip, events[n].at)
    ensures Blocked(states[n + 1], ip, events[n].at) <==> Strikes(cfg, events, ip, n + 1) >= cfg.MaxFailures()
  {
    FailuresExplained(cfg, states, events, ip, n);
    BlockedExactly(cfg, states, events, ip, n, events[n].at);
    FailuresNext(states[n], cfg, events[n], ip);
  }

  /**
   The failure count is not cleared when a block runs out: once an address
   was blocked, each of its failures until a reset falls into a block or
   starts a new one.
   */
  lemma {:induction false} BlockedAgain(cfg: Config, events: seq<Event>, ip: Ip, i: nat, j: nat)
    requires i < j < |events| && Blocks(cfg, events, ip, i)
    requires forall k :: i < k < j ==> !(events[k].Reset? && events[k].ip == ip)
    ensures Strikes(cfg, events, ip, j) >= cfg.MaxFailures()
    ensures events[j].Fail? && events[j].ip == ip ==>
              InBlock(cfg, events, ip, j, events[j].at) || Blocks(cfg, events, ip, j)
  {
    if i < j - 1 {
      BlockedAgain(cfg, events, ip, i, j - 1);
    }
  }

  /** The states an empty limiter goes through. */
  function StatesOf(cfg: Config, events: seq<Event>): (states: seq<Limiter>)
    ensures |states| == |events| + 1 && states[0] == EMPTY
    ensures forall i :: 0 <= i < |events| ==> states[i + 1] == Next(states[i], cfg, events[i])
  {
    if events == [] then [EMPTY]
    else
      var front := StatesOf(cfg, events[..|events| - 1]);
      front + [Next(front[|events| - 1], cfg, events[|events| - 1])]
  }

  lemma {:induction false} NoBlockYet(cfg: Config, events: seq<Event>, ip: Ip, n: nat)
    requires n <= |events| && n < cfg.MaxFailures()
    requires forall i :: 0 <= i < n ==> events[i].Fail? && events[i].ip == ip
    ensures Strikes(cfg, events, ip, n) == n && forall i :: 0 <= i < n ==> !Blocks(cfg, events, ip, i)
  {
    if n > 0 {
      NoBlockYet(cfg, events, ip, n - 1);
      assert !InBlock(cfg, events, ip, n - 1, events[n - 1].at);
      assert !Blocks(cfg, events, ip, n - 1);
    }
  }

  /** Failures at one instant block the address from the configured number on, and for the configured time. */
  lemma {:induction false} BlockedAfter(cfg: Config, states: seq<Limiter>, events: seq<Event>, ip: Ip, at: real, n: nat, now: real)
    requires IsRun(cfg, states, events) && states[0] == EMPTY && n <= |events|
    requires forall i :: 0 <= i < n ==> events[i] == Fail(ip, at)
    ensures Blocked(states[n], ip, now)
       <==> && (if cfg.maxFailures <= 0 then 20 else cfg.maxFailures) <= n
            && now < at + if cfg.blockDuration <= 0.0 then 600.0 else cfg.blockDuration
    ensures CountOf(states[n], ip) == if n < cfg.MaxFailures() then n else cfg.MaxFailures()
    ensures n < cfg.MaxFailures() ==> BlockOf(states[n], ip) == Never
  {
    if n > 0 {
      BlockedAfter(cfg, states, events, ip, at, n - 1, now);
      BlockedAfter(cfg, states, events, ip, at, n - 1, at);
      FailuresNext(states[n - 1], cfg, events[n - 1], ip);
    }
  }

  /** Blocks happen, and so does a single failure after one that blocks again: under every configuration. */
  lemma BlockHappens(cfg: Config, ip: Ip, at: real) returns (states: seq<Limiter>, events: seq<Event>)
    ensures IsRun(cfg, states, events) && states[0] == EMPTY && |events| == cfg.MaxFailures() + 1
    ensures Blocks(cfg, events, ip, cfg.MaxFailures() - 1) && Blocks(cfg, events, ip, cfg.MaxFailures())
    ensures !Blocked(states[cfg.MaxFailures()], ip, events[cfg.MaxFailures()].at)
    ensures Blocked(states[cfg.MaxFailures() + 1], ip, events[cfg.MaxFailures()].at)
  {
    var n := cfg.MaxFailures();
    events := seq(n, _ => Fail(ip, at)) + [Fail(ip, at + cfg.BlockFor())];
    assert forall i, j :: 0 <= i < j < |events| ==> events[i].at <= events[j].at;
    states := StatesOf(cfg, events);
    assert IsRun(cfg, states, events);
    TwoBlocks(cfg, events, ip, at);
    BlockedExactly(cfg, states, events, ip, n, events[n].at);
    BlockedExactly(cfg, states, events, ip, n + 1, events[n].at);
  }

  lemma TwoBlocks(cfg: Config, events: seq<Event>, ip: Ip, at: real)
    requires |events| == cfg.MaxFailures() + 1
    requires forall i :: 0 <= i < |events| - 1 ==> events[i] == Fail(ip, at)
    requires events[|events| - 1] == Fail(ip, at + cfg.BlockFor())
    ensures
      var n := cfg.MaxFailures();
      && Blocks(cfg, events, ip, n - 1) && Blocks(cfg, events, ip, n)
      && !InBlock(cfg, events, ip, n, events[n].at) && InBlock(cfg, events, ip, n + 1, events[n].at)
  {
    var n := cfg.MaxFailures();
    NoBlockYet(cfg, events, ip, n - 1);
    assert !InBlock(cfg, events, ip, n - 1, events[n - 1].at);
    assert Blocks(cfg, events, ip, n - 1);
    BlockedAgain(cfg, events, ip, n - 1, n);
    assert !InBlock(cfg, events, ip, n, events[n].at);
    assert Blocks(cfg, events, ip, n);
  }
}
