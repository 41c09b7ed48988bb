/**
 The endpoints of an upstream pool: reconciled against the configuration,
 drained when removed, picked in turn, ejected while unhealthy and reaped
 once drained and idle. Calls are atomic here; a pick and the start of the
 attempt it was made for are one step.
 */
module Pool {
  import opened Arith
  import opened EjectBackoff

  const WORD: int := 0x1_0000_0000_0000_0000

  /** The turn counter is 64 bits wide. */
  function NextTurn(rr: nat): (next: nat)
    ensures next < WORD
  {
    (rr + 1) % WORD
  }

  const FIVE_MINUTES: int := 300 * SECOND

  datatype Addr = Addr(name: string)

  datatype Health = Healthy | Unhealthy | Draining

  datatype HealthConfig = HealthConfig(unhealthyAfter: int, healthyAfter: int, baseEject: int, maxEject: int) {
    /** The durations are 64-bit. */
    predicate Fits() { baseEject < LIMIT && maxEject < LIMIT }
  }

  // ------------------------------------------------------------------
  // One endpoint
  // ------------------------------------------------------------------

  datatype EndpointState = EndpointState(
    health: Health,
    ejectUntil: int,
    activeFails: nat,
    activeSuccesses: nat,
    passiveFails: nat,
    inflight: int,
    ejectCount: nat,
    lastHealthyAt: int,
    lastSeen: int,
    drainUntil: int,
    config: HealthConfig)
  {
    predicate IsDraining() { health == Draining }

    predicate IsEjected(now: int) { 0 < ejectUntil && now < ejectUntil }

    predicate DrainDeadlineReached(now: int) { 0 < drainUntil <= now }

    /** Healthy and not sitting out an ejection. */
    predicate Good(now: int) { health == Healthy && !IsEjected(now) }
  }

  function NewState(config: HealthConfig): EndpointState { EndpointState(Healthy, 0, 0, 0, 0, 0, 0, 0, 0, 0, config) }

  /** Configured again: an endpoint that was draining is healthy again, any other keeps its health. */
  function Restored(s: EndpointState, cfg: HealthConfig): EndpointState {
    if s.IsDraining() then s.(config := cfg, health := Healthy, drainUntil := 0) else s.(config := cfg)
  }

  /** No longer configured: the drain deadline is set once, by the first removal. */
  function Drained(s: EndpointState, timeout: int, now: int): EndpointState {
    if s.IsDraining() then s else s.(health := Draining, drainUntil := now + timeout)
  }

  /** Ejections double the ejection time; one more than five minutes after the last good probe starts afresh. */
  function Ejected(s: EndpointState, now: int): (r: EndpointState)
    ensures 1 <= r.ejectCount && r.health == Unhealthy
  {
    var base := if s.config.baseEject <= 0 then SECOND else s.config.baseEject;
    var max := if s.config.maxEject <= 0 then base else s.config.maxEject;
    var count := 1 + if 0 < s.lastHealthyAt && now - s.lastHealthyAt > FIVE_MINUTES then 0 else s.ejectCount;
    s.(health := Unhealthy, ejectCount := count, ejectUntil := now + Min(Doubled(base, max, count - 1), max))
  }

  /** The ejection lasts for the capped doubling, under the exact condition for the loop not to wrap around. */
  lemma EjectedUntil(s: EndpointState, now: int)
    ensures
      var base := if s.config.baseEject <= 0 then SECOND else s.config.baseEject;
      var max := if s.config.maxEject <= 0 then base else s.config.maxEject;
      base < HALF && max <= TopDouble(base) ==>
        Ejected(s, now).ejectUntil == now + Backoff(base, max, Ejected(s, now).ejectCount - 1)
  {
    var base := if s.config.baseEject <= 0 then SECOND else s.config.baseEject;
    var max := if s.config.maxEject <= 0 then base else s.config.maxEject;
    if base < HALF && max <= TopDouble(base) {
      DoubledIsBackoff(base, max, Ejected(s, now).ejectCount - 1);
    }
  }

  /** A probe came back: while draining nothing counts; enough in a row decide the health. */
  function Probed(s: EndpointState, success: bool, now: int): EndpointState {
    if s.IsDraining() then s
    else if success then
      var t := s.(activeSuccesses := s.activeSuccesses + 1, activeFails := 0);
      if 0 < s.config.healthyAfter <= t.activeSuccesses
      then t.(health := Healthy, ejectUntil := 0, passiveFails := 0, lastHealthyAt := now) else t
    else
      var t := s.(activeFails := s.activeFails + 1, activeSuccesses := 0);
      if 0 < s.config.unhealthyAfter <= t.activeFails then Ejected(t, now) else t
  }

  /** A proxied request failed on the endpoint. */
  function FailedRequest(s: EndpointState, now: int): EndpointState {
    if s.IsDraining() then s
    else
      var t := s.(passiveFails := s.passiveFails + 1);
      if 0 < s.config.unhealthyAfter <= t.passiveFails then Ejected(t, now) else t
  }

  /** A proxied request succeeded on the endpoint. */
  function SucceededRequest(s: EndpointState): EndpointState { s.(passiveFails := 0) }

  /** Nothing an endpoint reports about itself moves it into or out of draining, or changes its attempts. */
  ghost predicate SameStanding(s: EndpointState, s': EndpointState) {
    s'.IsDraining() == s.IsDraining() && s'.inflight == s.inflight && s'.config == s.config
  }

  lemma ReportsKeepStanding(s: EndpointState, success: bool, now: int)
    ensures SameStanding(s, Probed(s, success, now))
    ensures SameStanding(s, FailedRequest(s, now)) && SameStanding(s, SucceededRequest(s))
  {
    if !s.IsDraining() {
      var a := s.(activeFails := s.activeFails + 1, activeSuccesses := 0);
      var b := s.(passiveFails := s.passiveFails + 1);
      assert SameStanding(s, Ejected(a, now)) && SameStanding(s, Ejected(b, now));
    }
  }

  /** The endpoint object, step by step. */
  class Endpoint {
    const addr: Addr
    var s: EndpointState

    /** The object that a pool keeps in state `s`. */
    constructor At(addr: Addr, s: EndpointState)
      ensures this.addr == addr && this.s == s
    {
      this.addr, this.s := addr, s;
    }

    constructor (addr: Addr, config: HealthConfig)
      ensures this.addr == addr && s == NewState(config)
    {
      this.addr := addr;
      s := NewState(config);
    }

    method Restore(cfg: HealthConfig)
      modifies this
      ensures s == Restored(old(s), cfg)
    {
      s := s.(config := cfg);
      if s.health == Draining {
        s := s.(health := Healthy, drainUntil := 0);
      }
    }

    method MarkDraining(timeout: int, now: int)
      modifies this
      ensures s == Drained(old(s), timeout, now)
    {
      if s.health == Draining {
        return;
      }
      s := s.(health := Draining);
      s := s.(drainUntil := now + timeout);
    }

    method RecordActiveSuccess(now: int)
      modifies this
      ensures s == Probed(old(s), true, now)
    {
      if s.health == Draining {
        return;
      }
      s := s.(activeSuccesses := s.activeSuccesses + 1);
      s := s.(activeFails := 0);
      if s.config.healthyAfter > 0 && s.activeSuccesses >= s.config.healthyAfter {
        s := s.(health := Healthy, ejectUntil := 0);
        s := s.(passiveFails := 0, activeFails := 0, lastHealthyAt := now);
      }
    }

    method RecordActiveFailure(now: int)
      requires s.config.Fits()
      modifies this
      ensures s == Probed(old(s), false, now)
    {
      if s.health == Draining {
        return;
      }
      s := s.(activeFails := s.activeFails + 1);
      s := s.(activeSuccesses := 0);
      if s.config.unhealthyAfter > 0 && s.activeFails >= s.config.unhealthyAfter {
        Eject(now);
      }
    }

    method RecordPassiveSuccess()
      modifies this
      ensures s == SucceededRequest(old(s))
    {
      s := s.(passiveFails := 0);
    }

    method RecordPassiveFailure(now: int)
      requires s.config.Fits()
      modifies this
      ensures s == FailedRequest(old(s), now)
    {
      if s.health == Draining {
        return;
      }
      s := s.(passiveFails := s.passiveFails + 1);
      if s.config.unhealthyAfter > 0 && s.passiveFails >= s.config.unhealthyAfter {
        Eject(now);
      }
    }

    method Eject(now: int)
      requires s.config.Fits()
      modifies this
      ensures s == Ejected(old(s), now)
    {
      s := s.(health := Unhealthy);
      if s.lastHealthyAt > 0 && now - s.lastHealthyAt > FIVE_MINUTES {
        s := s.(ejectCount := 0);
      }
      s := s.(ejectCount := s.ejectCount + 1);
      var duration := EjectDuration(s.config.baseEject, s.config.maxEject, s.ejectCount);
      s := s.(ejectUntil := now + duration);
    }
  }

  // ------------------------------------------------------------------
  // Picking
  // ------------------------------------------------------------------

  /** The endpoints of `order` that are healthy, not ejected and not outliers. */
  function Eligible(order: seq<Addr>, healthy: set<Addr>, outlier: Addr -> bool): seq<Addr> {
    if order == [] then []
    else
      var front, last := order[..|order| - 1], order[|order| - 1];
      if last in healthy && !outlier(last) then Eligible(front, healthy, outlier) + [last]
      else Eligible(front, healthy, outlier)
  }

  /** Some endpoint is left out only because it is an outlier. */
  predicate Suppressed(order: seq<Addr>, healthy: set<Addr>, outlier: Addr -> bool) {
    order != [] &&
    (Suppressed(order[..|order| - 1], healthy, outlier)
     || (order[|order| - 1] in healthy && outlier(order[|order| - 1])))
  }

  lemma {:induction false} EligibleMembers(order: seq<Addr>, healthy: set<Addr>, outlier: Addr -> bool, a: Addr)
    ensures a in Eligible(order, healthy, outlier) <==> a in order && a in healthy && !outlier(a)
  {
    if order != [] {
      EligibleMembers(order[..|order| - 1], healthy, outlier, a);
      assert order == order[..|order| - 1] + [order[|order| - 1]];
    }
  }

  function Members(order: seq<Addr>): set<Addr> {
    if order == [] then {} else Members(order[..|order| - 1]) + {order[|order| - 1]}
  }

  lemma {:induction false} MembersAre(order: seq<Addr>)
    ensures forall a :: a in Members(order) <==> a in order
  {
    if order != [] {
      MembersAre(order[..|order| - 1]);
      assert order == order[..|order| - 1] + [order[|order| - 1]];
    }
  }

  lemma NoMembers(order: seq<Addr>)
    ensures Members(order) == {} <==> order == []
  {
    if order != [] {
      assert order[|order| - 1] in Members(order);
    }
  }

  /** Eligible endpoints are among the candidates. */
  lemma EligibleWithin(order: seq<Addr>, healthy: set<Addr>, outlier: Addr -> bool)
    ensures forall a <- Eligible(order, healthy, outlier) :: a in order
  {
    forall a <- Eligible(order, healthy, outlier)
      ensures a in order
    {
      EligibleMembers(order, healthy, outlier, a);
    }
  }

  datatype PickResult = PickResult(addr: Addr, selectedHealthy: bool, selectedFailOpen: bool, outlierIgnored: bool,
                                   endpointEjected: bool)

  const NO_PICK := PickResult(Addr(""), false, false, false, false)

  /**
   In turn among the eligible endpoints; if there is none, in turn among all
   configured ones, since refusing to serve would be worse.
   */
  function PickOf(order: seq<Addr>, healthy: set<Addr>, outlier: Addr -> bool, rr: nat): PickResult
    requires order != []
  {
    var eligible := Eligible(order, healthy, outlier);
    if eligible != [] then PickResult(eligible[rr % |eligible|], true, false, false, false)
    else
      var addr := order[rr % |order|];
      PickResult(addr, false, true, Suppressed(order, healthy, outlier), addr !in healthy || outlier(addr))
  }

  /**
   A pick is always a configured endpoint, and a good one whenever there is
   one; it fails open exactly when no configured endpoint is good.
   */
  lemma PickMeans(order: seq<Addr>, healthy: set<Addr>, outlier: Addr -> bool, rr: nat)
    requires order != []
    ensures
      var r := PickOf(order, healthy, outlier, rr);
      && r.addr in order
      && (r.selectedHealthy <==> exists a <- order :: a in healthy && !outlier(a))
      && r.selectedFailOpen == !r.selectedHealthy
      && r.endpointEjected == !(r.addr in healthy && !outlier(r.addr))
  {
    var eligible := Eligible(order, healthy, outlier);
    forall a: Addr
      ensures a in eligible <==> a in order && a in healthy && !outlier(a)
    {
      EligibleMembers(order, healthy, outlier, a);
    }
    if eligible != [] {
      assert eligible[rr % |eligible|] in eligible;
    }
  }

  // ------------------------------------------------------------------
  // The pool
  // ------------------------------------------------------------------

  type Endpoints = map<Addr, EndpointState>

  /**
   Served endpoints are there; an endpoint is draining exactly when it is not
   served; in-flight counts are the attempts in progress, and none of those
   is on an endpoint that is gone.
   */
  ghost predicate Consistent(endpoints: Endpoints, served: set<Addr>, outstanding: multiset<Addr>) {
    && served <= endpoints.Keys
    && (forall a <- endpoints ::
          && (endpoints[a].IsDraining() <==> a !in served)
          && endpoints[a].inflight == outstanding[a]
          && endpoints[a].config.Fits())
    && (forall a: Addr :: 0 < outstanding[a] ==> a in endpoints)
  }

  /** The candidates that are not draining. */
  function Staying(order: seq<Addr>, endpoints: Endpoints): seq<Addr>
    requires forall a <- order :: a in endpoints
  {
    if order == [] then []
    else
      var front, last := order[..|order| - 1], order[|order| - 1];
      Staying(front, endpoints) + if endpoints[last].IsDraining() then [] else [last]
  }

  lemma {:induction false} AllStay(order: seq<Addr>, endpoints: Endpoints)
    requires forall a <- order :: a in endpoints && !endpoints[a].IsDraining()
    ensures Staying(order, endpoints) == order
  {
    if order != [] {
      var front := order[..|order| - 1];
      assert order == front + [order[|order| - 1]];
      AllStay(front, endpoints);
    }
  }

  /** Among endpoints that are all draining nothing is eligible, suppressed or staying. */
  lemma {:induction false} NothingStays(order: seq<Addr>, endpoints: Endpoints, good: set<Addr>, outlier: Addr -> bool)
    requires forall a <- order :: a in endpoints && endpoints[a].IsDraining() && a !in good
    ensures Staying(order, endpoints) == [] && Eligible(order, good, outlier) == [] && !Suppressed(order, good, outlier)
  {
    if order != [] {
      NothingStays(order[..|order| - 1], endpoints, good, outlier);
    }
  }

  ghost function GoodAt(endpoints: Endpoints, now: int): set<Addr> {
    set a | a in endpoints && endpoints[a].Good(now)
  }

  /** An endpoint may go once it drained past its deadline and has no attempt in progress. */
  predicate Reapable(s: EndpointState, now: int) {
    s.IsDraining() && s.DrainDeadlineReached(now) && s.inflight == 0
  }

  lemma ReportKeeps(endpoints: Endpoints, served: set<Addr>, outstanding: multiset<Addr>, addr: Addr, s: EndpointState)
    requires Consistent(endpoints, served, outstanding) && addr in endpoints && SameStanding(endpoints[addr], s)
    ensures Consistent(endpoints[addr := s], served, outstanding)
  {}

  lemma AttemptKeeps(endpoints: Endpoints, served: set<Addr>, outstanding: multiset<Addr>, addr: Addr)
    requires Consistent(endpoints, served, outstanding) && addr in endpoints
    ensures
      var s := endpoints[addr];
      Consistent(endpoints[addr := s.(inflight := s.inflight + 1)], served, outstanding + multiset{addr})
  {}

  lemma WrittenTwice(endpoints: Endpoints, addr: Addr, s: EndpointState, t: EndpointState)
    ensures endpoints[addr := s][addr := t] == endpoints[addr := t]
  {}

  /** The endpoints of one pool. */
  class PoolRuntime {
    var config: HealthConfig
    var drainTimeout: int
    var endpoints: Endpoints
    var order: seq<Addr>
    var rr: nat
    /** The attempts in progress, by the address they were picked for. */
    ghost var outstanding: multiset<Addr>

    ghost predicate Valid()
      reads this
    {
      && rr < WORD
      && Consistent(endpoints, Members(order), outstanding)
    }

    constructor (config: HealthConfig, drainTimeout: int)
      ensures Valid() && endpoints == map[] && order == [] && rr == 0 && outstanding == multiset{}
    {
      this.config, this.drainTimeout := config, drainTimeout;
      endpoints, order, rr, outstanding := map[], [], 0, multiset{};
    }

    /**
     The pool serves exactly the given endpoints from now on. Endpoints that
     stay keep their state, removed ones start draining, returning ones are
     restored; attempts in progress are not disturbed.
     */
    method Reconcile(addrs: seq<Addr>, cfg: HealthConfig, timeout: int, now: int) returns (removed: bool)
      requires Valid() && cfg.Fits()
      modifies this
      ensures Valid() && order == addrs && rr == old(rr) && outstanding == old(outstanding)
      ensures Reconciled(old(endpoints), endpoints, Members(addrs), cfg, timeout, now)
      ensures removed <==> !(old(endpoints).Keys <= Members(addrs))
    {
      ghost var served := Members(order);
      config, drainTimeout, order := cfg, timeout, addrs;
      var i := 0;
      while i < |addrs|
        invariant 0 <= i <= |addrs|
        invariant endpoints == Wanted(old(endpoints), addrs[..i], cfg)
        invariant order == addrs && rr == old(rr) && outstanding == old(outstanding)
      {
        assert addrs[..i + 1][..i] == addrs[..i];
        var endpoint;
        if addrs[i] in endpoints {
          endpoint := new Endpoint.At(addrs[i], endpoints[addrs[i]]);
          endpoint.Restore(cfg);
        } else {
          endpoint := new Endpoint(addrs[i], cfg);
        }
        endpoints := endpoints[addrs[i] := endpoint.s];
        i := i + 1;
      }
      assert addrs[..i] == addrs;
      WantedIs(old(endpoints), addrs, cfg);
      removed := DrainOthers(Members(addrs), timeout, now);
      ReconcileKeeps(old(endpoints), endpoints, served, Members(addrs), outstanding, cfg, timeout, now);
    }

    /** Everything not configured starts draining; what is draining already keeps its deadline. */
    method DrainOthers(desired: set<Addr>, timeout: int, now: int) returns (removed: bool)
      modifies `endpoints
      ensures endpoints.Keys == old(endpoints).Keys
      ensures forall a <- endpoints ::
                endpoints[a] == if a in desired then old(endpoints)[a] else Drained(old(endpoints)[a], timeout, now)
      ensures removed <==> !(endpoints.Keys <= desired)
    {
      removed := false;
      var before, todo := endpoints, endpoints.Keys;
      while todo != {}
        invariant todo <= endpoints.Keys == before.Keys
        invariant forall a <- before ::
                    endpoints[a] == if a in desired || a in todo then before[a] else Drained(before[a], timeout, now)
        invariant removed <==> !(before.Keys <= desired + todo)
        decreases |todo|
      {
        var addr :| addr in todo;
        todo := todo - {addr};
        if addr !in desired {
          var endpoint := new Endpoint.At(addr, endpoints[addr]);
          endpoint.MarkDraining(timeout, now);
          endpoints := endpoints[addr := endpoint.s];
          removed := true;
        }
      }
    }

    /**
     Never a division by zero, and never an endpoint that was removed unless
     nothing is configured any more; then one that is still draining.
     */
    method Pick(outlier: Addr -> bool, now: int) returns (result: PickResult)
      requires Valid()
      modifies `rr, `endpoints
      ensures Valid() && endpoints.Keys == old(endpoints).Keys
      ensures endpoints == map[] ==> result == NO_PICK && rr == old(rr)
      ensures endpoints != map[] ==> result.addr in endpoints && rr == NextTurn(old(rr))
      ensures order != [] ==> endpoints != map[] && result == PickOf(order, GoodAt(old(endpoints), now), outlier, old(rr))
      ensures order != [] ==>
                (result.selectedHealthy
                 <==> exists a <- order :: a in old(endpoints) && old(endpoints)[a].health == Healthy && !outlier(a)
                                           && !(0 < old(endpoints)[a].ejectUntil && now < old(endpoints)[a].ejectUntil))
      ensures order != [] ==>
                var s := old(endpoints)[result.addr];
                result.endpointEjected
                <==> s.health != Healthy || (0 < s.ejectUntil && now < s.ejectUntil) || outlier(result.addr)
      ensures endpoints != map[] ==>
                endpoints == old(endpoints)[result.addr := old(endpoints)[result.addr].(lastSeen := now)]
      ensures endpoints != map[] ==> (result.addr in Members(order) <==> order != [])
      ensures endpoints != map[] && order == [] ==> result == PickResult(result.addr, false, true, false, true)
    {
      MembersAre(order);
      NoMembers(order);
      if endpoints == map[] {
        return NO_PICK;
      }
      var all := Candidates();
      ghost var good := GoodAt(endpoints, now);
      EligibleWithin(all, good, outlier);
      if order == [] {
        NothingStays(all, endpoints, good, outlier);
      } else {
        AllStay(all, endpoints);
      }
      if order != [] {
        PickMeans(order, good, outlier, rr);
      }
      result := PickAmong(all, outlier, now);
    }

    /** The three tiers: an eligible candidate, else one that is not draining, else any. */
    method PickAmong(all: seq<Addr>, outlier: Addr -> bool, now: int) returns (result: PickResult)
      requires Valid() && all != [] && forall a <- all :: a in endpoints
      requires forall a <- Eligible(all, GoodAt(endpoints, now), outlier) :: a in all
      requires Staying(all, endpoints) == all || Staying(all, endpoints) == []
      modifies `rr, `endpoints
      ensures Valid() && endpoints.Keys == old(endpoints).Keys && rr == NextTurn(old(rr)) && result.addr in all
      ensures endpoints == old(endpoints)[result.addr := old(endpoints)[result.addr].(lastSeen := now)]
      ensures result == PickOf(all, GoodAt(old(endpoints), now), outlier, old(rr))
    {
      var eligible, nonDraining, suppressed := Scan(all, outlier, now);
      if |eligible| > 0 {
        result := PickHealthy(eligible, now);
        return;
      }
      result := FailOpen(if |nonDraining| > 0 then nonDraining else all, outlier, suppressed, now);
    }

    method PickHealthy(eligible: seq<Addr>, now: int) returns (result: PickResult)
      requires Valid() && eligible != [] && forall a <- eligible :: a in endpoints
      modifies `rr, `endpoints
      ensures Valid() && endpoints.Keys == old(endpoints).Keys && rr == NextTurn(old(rr))
      ensures result.addr in old(endpoints)
      ensures endpoints == old(endpoints)[result.addr := old(endpoints)[result.addr].(lastSeen := now)]
      ensures
        var addr := eligible[old(rr) % |eligible|];
        addr in eligible && result == PickResult(addr, true, false, false, false)
    {
      var picked := PickFrom(eligible, now);
      return PickResult(picked, true, false, false, false);
    }

    /** The configured endpoints in order; every endpoint, in some order, when none is configured. */
    method Candidates() returns (all: seq<Addr>)
      requires Valid()
      ensures if order != [] then all == order else Members(all) == endpoints.Keys
      ensures forall a <- all :: a in endpoints
      ensures endpoints != map[] ==> all != []
    {
      MembersAre(order);
      all := [];
      var i := 0;
      while i < |order|
        invariant 0 <= i <= |order| && all == order[..i]
      {
        if order[i] in endpoints {
          all := all + [order[i]];
        }
        i := i + 1;
      }
      if |all| == 0 {
        all := Listed();
        MembersAre(all);
      }
    }

    method Listed() returns (all: seq<Addr>)
      ensures Members(all) == endpoints.Keys
    {
      all := [];
      var todo := endpoints.Keys;
      while todo != {}
        invariant todo <= endpoints.Keys && Members(all) == endpoints.Keys - todo
        decreases |todo|
      {
        var addr :| addr in todo;
        assert (all + [addr])[..|all|] == all;
        all := all + [addr];
        todo := todo - {addr};
      }
    }

    /** With no eligible endpoint, one of the candidates is picked whatever its health. */
    method FailOpen(candidates: seq<Addr>, outlier: Addr -> bool, suppressed: bool, now: int) returns (result: PickResult)
      requires Valid() && candidates != [] && forall a <- candidates :: a in endpoints
      modifies `rr, `endpoints
      ensures Valid() && endpoints.Keys == old(endpoints).Keys && rr == NextTurn(old(rr))
      ensures result.addr in old(endpoints)
      ensures endpoints == old(endpoints)[result.addr := old(endpoints)[result.addr].(lastSeen := now)]
      ensures
        var addr := candidates[old(rr) % |candidates|];
        && addr in candidates
        && result == PickResult(addr, false, true, suppressed, addr !in GoodAt(old(endpoints), now) || outlier(addr))
    {
      var picked := PickFrom(candidates, now);
      var s := endpoints[picked];
      return PickResult(picked, false, true, suppressed, s.health != Healthy || s.IsEjected(now) || outlier(picked));
    }

    /** The loop of Pick: who is eligible, who is not draining, and was anyone left out only as an outlier. */
    method Scan(all: seq<Addr>, outlier: Addr -> bool, now: int)
      returns (eligible: seq<Addr>, nonDraining: seq<Addr>, suppressed: bool)
      requires forall a <- all :: a in endpoints
      ensures eligible == Eligible(all, GoodAt(endpoints, now), outlier)
      ensures nonDraining == Staying(all, endpoints)
      ensures suppressed == Suppressed(all, GoodAt(endpoints, now), outlier)
    {
      eligible, nonDraining, suppressed := [], [], false;
      ghost var good := GoodAt(endpoints, now);
      var i := 0;
      while i < |all|
        invariant 0 <= i <= |all|
        invariant eligible == Eligible(all[..i], good, outlier)
        invariant nonDraining == Staying(all[..i], endpoints)
        invariant suppressed == Suppressed(all[..i], good, outlier)
      {
        var addr := all[i];
        assert all[..i + 1][..i] == all[..i];
        var s := endpoints[addr];
        var isOutlier := outlier(addr);
        if !s.IsDraining() {
          nonDraining := nonDraining + [addr];
        }
        if s.health == Healthy && !s.IsDraining() && !s.IsEjected(now) && !isOutlier {
          eligible := eligible + [addr];
        } else if s.health == Healthy && !s.IsEjected(now) && !s.IsDraining() && isOutlier {
          suppressed := true;
        }
        i := i + 1;
      }
      assert all[..i] == all;
    }

    /** The candidate whose turn it is. */
    method PickFrom(candidates: seq<Addr>, now: int) returns (addr: Addr)
      requires Valid() && candidates != [] && forall a <- candidates :: a in endpoints
      modifies `rr, `endpoints
      ensures Valid() && addr == candidates[old(rr) % |candidates|] && addr in candidates
      ensures rr == NextTurn(old(rr))
      ensures addr in old(endpoints) && endpoints == old(endpoints)[addr := old(endpoints)[addr].(lastSeen := now)]
    {
      var idx := rr;
      rr := NextTurn(rr);
      addr := candidates[idx % |candidates|];
      var s := endpoints[addr].(lastSeen := now);
      ReportKeeps(endpoints, Members(order), outstanding, addr, s);
      endpoints := endpoints[addr := s];
    }

    /** Picks an endpoint for an attempt and counts the attempt in flight on it. */
    method Start(outlier: Addr -> bool, now: int) returns (result: PickResult)
      requires Valid()
      modifies `rr, `endpoints, `outstanding
      ensures Valid() && endpoints.Keys == old(endpoints).Keys
      ensures endpoints == map[] ==> result == NO_PICK && outstanding == old(outstanding)
      ensures endpoints != map[] ==> outstanding == old(outstanding) + multiset{result.addr}
      ensures order != [] ==> result.addr in Members(order)
      ensures endpoints != map[] ==>
                var s := old(endpoints)[result.addr];
                endpoints == old(endpoints)[result.addr := s.(lastSeen := now, inflight := s.inflight + 1)]
    {
      result := Pick(outlier, now);
      if endpoints != map[] {
        ghost var s := old(endpoints)[result.addr];
        WrittenTwice(old(endpoints), result.addr, s.(lastSeen := now), s.(lastSeen := now, inflight := s.inflight + 1));
        Begin(result.addr);
      }
    }

    method Begin(addr: Addr)
      requires Valid() && addr in endpoints
      modifies `endpoints, `outstanding
      ensures Valid() && outstanding == old(outstanding) + multiset{addr}
      ensures
        var s := old(endpoints)[addr];
        endpoints == old(endpoints)[addr := s.(inflight := s.inflight + 1)]
    {
      AttemptKeeps(endpoints, Members(order), outstanding, addr);
      var s := endpoints[addr];
      endpoints := endpoints[addr := s.(inflight := s.inflight + 1)];
      outstanding := outstanding + multiset{addr};
    }

    /** Ends an attempt; the endpoint is looked up again by address and is still there. */
    method Done(addr: Addr)
      requires Valid() && addr in outstanding
      modifies `endpoints, `outstanding
      ensures Valid() && outstanding == old(outstanding) - multiset{addr}
      ensures addr in old(endpoints)
      ensures
        var s := old(endpoints)[addr];
        endpoints == old(endpoints)[addr := s.(inflight := s.inflight - 1)]
    {
      assert 0 < outstanding[addr];
      if addr in endpoints {
        var s := endpoints[addr];
        endpoints := endpoints[addr := s.(inflight := s.inflight - 1)];
      }
      outstanding := outstanding - multiset{addr};
    }

    /** Drops exactly the endpoints that may go, so never one that has an attempt in progress. */
    method Reap(now: int) returns (removed: set<Addr>)
      requires Valid()
      modifies `endpoints
      ensures Valid() && endpoints == old(endpoints) - removed
      ensures forall a <- old(endpoints) ::
                var s := old(endpoints)[a];
                a in removed <==> s.health == Draining && 0 < s.drainUntil <= now && s.inflight == 0
      ensures forall a <- removed :: a in old(endpoints) && outstanding[a] == 0 && a !in Members(order)
    {
      removed := {};
      var before, todo := endpoints, endpoints.Keys;
      while todo != {}
        invariant todo <= before.Keys && removed <= before.Keys - todo && endpoints == before - removed
        invariant forall a <- before :: a !in todo ==> (a in removed <==> Reapable(before[a], now))
        decreases |todo|
      {
        var addr :| addr in todo;
        todo := todo - {addr};
        var s := endpoints[addr];
        if s.health == Draining && s.DrainDeadlineReached(now) && s.inflight == 0 {
          endpoints := endpoints - {addr};
          removed := removed + {addr};
        }
      }
    }

    /** A failed request counts against its endpoint only; who is served does not change. */
    method ReportPassiveFailure(addr: Addr, now: int)
      requires Valid()
      modifies `endpoints
      ensures Valid()
      ensures endpoints == if addr in old(endpoints) then old(endpoints)[addr := FailedRequest(old(endpoints)[addr], now)]
                           else old(endpoints)
    {
      if addr in endpoints {
        ReportsKeepStanding(endpoints[addr], false, now);
        ReportKeeps(endpoints, Members(order), outstanding, addr, FailedRequest(endpoints[addr], now));
        var endpoint := new Endpoint.At(addr, endpoints[addr]);
        endpoint.RecordPassiveFailure(now);
        endpoints := endpoints[addr := endpoint.s];
      }
    }

    /** A successful request ends a series of failures on its endpoint only. */
    method ReportPassiveSuccess(addr: Addr)
      requires Valid()
      modifies `endpoints
      ensures Valid()
      ensures endpoints == if addr in old(endpoints) then old(endpoints)[addr := SucceededRequest(old(endpoints)[addr])]
                           else old(endpoints)
    {
      if addr in endpoints {
        ReportKeeps(endpoints, Members(order), outstanding, addr, SucceededRequest(endpoints[addr]));
        var endpoint := new Endpoint.At(addr, endpoints[addr]);
        endpoint.RecordPassiveSuccess();
        endpoints := endpoints[addr := endpoint.s];
      }
    }

    /** A probe outcome counts for its endpoint only; who is served does not change. */
    method ReportProbe(addr: Addr, success: bool, now: int)
      requires Valid()
      modifies `endpoints
      ensures Valid()
      ensures endpoints == if addr in old(endpoints) then old(endpoints)[addr := Probed(old(endpoints)[addr], success, now)]
                           else old(endpoints)
    {
      if addr in endpoints {
        ReportsKeepStanding(endpoints[addr], success, now);
        ReportKeeps(endpoints, Members(order), outstanding, addr, Probed(endpoints[addr], success, now));
        var endpoint := new Endpoint.At(addr, endpoints[addr]);
        if success {
          endpoint.RecordActiveSuccess(now);
        } else {
          endpoint.RecordActiveFailure(now);
        }
        endpoints := endpoints[addr := endpoint.s];
      }
    }
  }

  // ------------------------------------------------------------------
  // What a reconciliation does
  // ------------------------------------------------------------------

  function WantedState(endpoints: Endpoints, addr: Addr, cfg: HealthConfig): EndpointState {
    if addr in endpoints then Restored(endpoints[addr], cfg) else NewState(cfg)
  }

  /** The states after wanting each of `addrs` in turn; wanting one twice changes nothing more. */
  function Wanted(endpoints: Endpoints, addrs: seq<Addr>, cfg: HealthConfig): Endpoints {
    if addrs == [] then endpoints
    else
      var before, last := Wanted(endpoints, addrs[..|addrs| - 1], cfg), addrs[|addrs| - 1];
      before[last := WantedState(before, last, cfg)]
  }

  lemma {:induction false} WantedIs(endpoints: Endpoints, addrs: seq<Addr>, cfg: HealthConfig)
    ensures Wanted(endpoints, addrs, cfg).Keys == endpoints.Keys + Members(addrs)
    ensures forall a <- Wanted(endpoints, addrs, cfg) ::
              Wanted(endpoints, addrs, cfg)[a] == if a in Members(addrs) then WantedState(endpoints, a, cfg) else endpoints[a]
  {
    if addrs != [] {
      WantedIs(endpoints, addrs[..|addrs| - 1], cfg);
    }
  }

  /** Configured endpoints are wanted, all others drained. */
  ghost predicate Reconciled(before: Endpoints, after: Endpoints, desired: set<Addr>, cfg: HealthConfig, timeout: int, now: int) {
    && after.Keys == before.Keys + desired
    && forall a <- after ::
         after[a] == if a in desired then WantedState(before, a, cfg) else Drained(before[a], timeout, now)
  }

  /**
   New endpoints start clean, those that stay keep everything but their
   configuration, returning ones are healthy again without a drain deadline,
   and only those removed just now get one.
   */
  lemma ReconciledMeans(before: Endpoints, after: Endpoints, desired: set<Addr>, cfg: HealthConfig, timeout: int, now: int, a: Addr)
    requires Reconciled(before, after, desired, cfg, timeout, now)
    ensures a in after <==> a in before || a in desired
    ensures a in desired && a !in before ==>
              var s := after[a];
              && s.health == Healthy && s.config == cfg && s.ejectUntil == s.drainUntil == s.inflight == 0
              && s.activeFails == s.activeSuccesses == s.passiveFails == s.ejectCount == 0
    ensures a in desired && a in before && before[a].health != Draining ==> after[a] == before[a].(config := cfg)
    ensures a in desired && a in before && before[a].health == Draining ==>
              after[a] == before[a].(config := cfg, health := Healthy, drainUntil := 0)
    ensures a !in desired && a in before && before[a].health == Draining ==> after[a] == before[a]
    ensures a !in desired && a in before && before[a].health != Draining ==>
              after[a] == before[a].(health := Draining, drainUntil := now + timeout)
  {}

  lemma ReconcileKeeps(before: Endpoints, after: Endpoints, served: set<Addr>, desired: set<Addr>,
                       outstanding: multiset<Addr>, cfg: HealthConfig, timeout: int, now: int)
    requires Consistent(before, served, outstanding) && cfg.Fits()
    requires Reconciled(before, after, desired, cfg, timeout, now)
    ensures Consistent(after, desired, outstanding)
  {
    forall a <- after
      ensures after[a].inflight == outstanding[a]
    {
      if a !in before {
        assert outstanding[a] == 0;
      }
    }
  }

  // ------------------------------------------------------------------
  // Fairness of the turns
  // ------------------------------------------------------------------

  /** How many of the counter values start, start + 1, ..., start + k - 1 pick position `pos` of `n`. */
  function Turns(start: nat, k: nat, n: nat, pos: nat): nat
    requires 0 < n
  {
    if k == 0 then 0 else Turns(start, k - 1, n, pos) + if (start + k - 1) % n == pos then 1 else 0
  }

  /** Turns counted from zero. */
  lemma {:induction false} TurnsFromZero(k: nat, n: nat, pos: nat)
    requires pos < n
    ensures Turns(0, k, n, pos) == k / n + if pos < k % n then 1 else 0
  {
    if k == 0 {
      DivIs(0, n, 0, 0);
    } else {
      TurnsFromZero(k - 1, n, pos);
      ModNext(k - 1, n);
    }
  }

  lemma {:induction false} TurnsSplit(start: nat, k: nat, n: nat, pos: nat)
    requires 0 < n
    ensures Turns(0, start + k, n, pos) == Turns(0, start, n, pos) + Turns(start, k, n, pos)
  {
    if k != 0 {
      TurnsSplit(start, k - 1, n, pos);
    }
  }

  /** Over any `k` turns in a row every position gets its share, rounded down or up. */
  lemma TurnsAreFair(start: nat, k: nat, n: nat, pos: nat)
    requires pos < n
    ensures k / n <= Turns(start, k, n, pos) <= (k + n - 1) / n
  {
    TurnsSplit(start, k, n, pos);
    TurnsFromZero(start, n, pos);
    TurnsFromZero(start + k, n, pos);
    FairShare(start, k, n, pos);
  }

  /** Whose turn it is when a 64-bit counter has been increased `x` times. */
  function WrappedTurn(x: nat, n: nat): nat
    requires 0 < n
  {
    x % WORD % n
  }

  lemma EarlyTurn(x: nat, n: nat)
    requires 0 < n && x < WORD
    ensures WrappedTurn(x, n) == x % n
  {
    DivIs(x, WORD, 0, x);
  }

  /** The same count for a counter that is 64 bits wide. */
  function WrappedTurns(start: nat, k: nat, n: nat, pos: nat): nat
    requires 0 < n
  {
    if k == 0 then 0 else WrappedTurns(start, k - 1, n, pos) + if WrappedTurn(start + k - 1, n) == pos then 1 else 0
  }

  predicate Fair(turns: nat, k: nat, n: nat)
    requires 0 < n
  {
    k / n <= turns <= (k + n - 1) / n
  }

  /** Picks in a row are fair as long as the counter does not wrap around. */
  lemma {:induction false} FairBeforeWrap(start: nat, k: nat, n: nat, pos: nat)
    requires pos < n && start + k <= WORD
    ensures Fair(WrappedTurns(start, k, n, pos), k, n)
  {
    NoWrap(start, k, n, pos);
    TurnsAreFair(start, k, n, pos);
  }

  /** The counter after `i` picks. */
  function CounterAfter(rr: nat, i: nat): nat { if i == 0 then rr else NextTurn(CounterAfter(rr, i - 1)) }

  lemma {:induction false} CounterIs(rr: nat, i: nat)
    requires rr < WORD
    ensures CounterAfter(rr, i) == (rr + i) % WORD
  {
    if i == 0 {
      DivIs(rr, WORD, 0, rr);
    } else {
      CounterIs(rr, i - 1);
      ModNext(rr + i - 1, WORD);
      ModNext((rr + i - 1) % WORD, WORD);
      DivIs((rr + i - 1) % WORD, WORD, 0, (rr + i - 1) % WORD);
    }
  }

  /** Those a pick chooses among: the eligible endpoints or, if there is none, all configured ones. */
  function ChosenFrom(order: seq<Addr>, healthy: set<Addr>, outlier: Addr -> bool): seq<Addr> {
    var eligible := Eligible(order, healthy, outlier);
    if eligible != [] then eligible else order
  }

  /** What the pool looks like to one pick. */
  datatype View = View(healthy: set<Addr>, outlier: Addr -> bool)

  function Count(hits: seq<bool>): nat {
    if hits == [] then 0 else Count(hits[..|hits| - 1]) + if hits[|hits| - 1] then 1 else 0
  }

  /** How many of the picks made in turn, from counter `rr` on, choose an endpoint. */
  function PicksOf(order: seq<Addr>, views: seq<View>, rr: nat, addr: Addr): nat
    requires order != []
  {
    Count(seq(|views|, k requires 0 <= k < |views| => Lands(order, views[k], rr, k, addr)))
  }

  /** The pick made after `k` others chooses the endpoint. */
  predicate Lands(order: seq<Addr>, v: View, rr: nat, k: nat, addr: Addr)
    requires order != []
  {
    PickOf(order, v.healthy, v.outlier, CounterAfter(rr, k)).addr == addr
  }

  predicate Distinct(addrs: seq<Addr>) {
    forall i, j :: 0 <= i < j < |addrs| ==> addrs[i] != addrs[j]
  }

  /** Every pick chooses among the same candidates. */
  predicate SameCandidates(order: seq<Addr>, views: seq<View>, candidates: seq<Addr>) {
    forall i :: 0 <= i < |views| ==> ChosenFrom(order, views[i].healthy, views[i].outlier) == candidates
  }

  lemma PickIsTurn(order: seq<Addr>, v: View, candidates: seq<Addr>, rr: nat, pos: nat)
    requires order != [] && pos < |candidates| && Distinct(candidates)
    requires ChosenFrom(order, v.healthy, v.outlier) == candidates
    ensures PickOf(order, v.healthy, v.outlier, rr).addr == candidates[pos] <==> rr % |candidates| == pos
  {
    assert PickOf(order, v.healthy, v.outlier, rr).addr == candidates[rr % |candidates|];
  }

  lemma LandsInTurn(order: seq<Addr>, v: View, candidates: seq<Addr>, rr: nat, k: nat, pos: nat)
    requires order != [] && pos < |candidates| && Distinct(candidates) && rr < WORD
    requires ChosenFrom(order, v.healthy, v.outlier) == candidates
    ensures Lands(order, v, rr, k, candidates[pos]) <==> WrappedTurn(rr + k, |candidates|) == pos
  {
    CounterIs(rr, k);
    PickIsTurn(order, v, candidates, CounterAfter(rr, k), pos);
  }

  /** While the candidates stay the same, the picks of one of them are its turns. */
  lemma PicksAreTurns(order: seq<Addr>, views: seq<View>, candidates: seq<Addr>, rr: nat, pos: nat)
    requires order != [] && pos < |candidates| && rr < WORD
    requires Distinct(candidates) && SameCandidates(order, views, candidates)
    ensures PicksOf(order, views, rr, candidates[pos]) == WrappedTurns(rr, |views|, |candidates|, pos)
  {
    var n := |candidates|;
    var hits := seq(|views|, k requires 0 <= k < |views| => Lands(order, views[k], rr, k, candidates[pos]));
    forall k | 0 <= k < |views|
      ensures hits[k] <==> WrappedTurn(rr + k, n) == pos
    {
      LandsInTurn(order, views[k], candidates, rr, k, pos);
    }
    HitsAreTurns(hits, rr, n, pos);
  }

  lemma {:induction false} HitsAreTurns(hits: seq<bool>, start: nat, n: nat, pos: nat)
    requires 0 < n && forall k :: 0 <= k < |hits| ==> (hits[k] <==> WrappedTurn(start + k, n) == pos)
    ensures Count(hits) == WrappedTurns(start, |hits|, n, pos)
  {
    if hits != [] {
      HitsAreTurns(hits[..|hits| - 1], start, n, pos);
      assert hits[|hits| - 1] <==> WrappedTurn(start + |hits| - 1, n) == pos;
    }
  }

  /** Picks in a row from unchanged candidates are fair before the counter wraps around, and always if their number divides 2^64. */
  lemma PicksAreFair(order: seq<Addr>, views: seq<View>, candidates: seq<Addr>, rr: nat, pos: nat)
    requires order != [] && pos < |candidates| && rr < WORD
    requires Distinct(candidates) && SameCandidates(order, views, candidates)
    requires rr + |views| <= WORD || WORD % |candidates| == 0
    ensures Fair(PicksOf(order, views, rr, candidates[pos]), |views|, |candidates|)
  {
    PicksAreTurns(order, views, candidates, rr, pos);
    TurnsFairIf(rr, |views|, |candidates|, pos);
  }

  lemma TurnsFairIf(start: nat, k: nat, n: nat, pos: nat)
    requires pos < n && (start + k <= WORD || WORD % n == 0)
    ensures Fair(WrappedTurns(start, k, n, pos), k, n)
  {
    if start + k <= WORD {
      FairBeforeWrap(start, k, n, pos);
    } else {
      WrapInStep(start, k, n, pos);
      TurnsAreFair(start, k, n, pos);
    }
  }

  lemma {:induction false} NoWrap(start: nat, k: nat, n: nat, pos: nat)
    requires 0 < n && start + k <= WORD
    ensures WrappedTurns(start, k, n, pos) == Turns(start, k, n, pos)
  {
    if k != 0 {
      NoWrap(start, k - 1, n, pos);
      EarlyTurn(start + k - 1, n);
    }
  }

  lemma {:induction false} WrapInStep(start: nat, k: nat, n: nat, pos: nat)
    requires 0 < n && WORD % n == 0
    ensures WrappedTurns(start, k, n, pos) == Turns(start, k, n, pos)
  {
    if k != 0 {
      WrapInStep(start, k - 1, n, pos);
      ModOfMod(start + k - 1, n);
    }
  }

  lemma ModOfMod(x: nat, n: nat)
    requires 0 < n && WORD % n == 0
    ensures WrappedTurn(x, n) == x % n
  {
    var q, r, m := x / WORD, x % WORD, WORD / n;
    assert WORD == n * m;
    assert x == WORD * q + r && r == n * (r / n) + r % n;
    assert WORD * q == n * (m * q);
    DivIs(x, n, m * q + r / n, r % n);
  }

  /** Across a wrap the turns stay fair if and only if the number of candidates divides 2^64. */
  lemma FairForeverExactly(n: nat)
    requires 0 < n < WORD
    ensures (forall start: nat, k: nat, pos: nat :: pos < n ==> Fair(WrappedTurns(start, k, n, pos), k, n))
       <==> WORD % n == 0
  {
    if WORD % n == 0 {
      forall start: nat, k: nat, pos: nat | pos < n
        ensures Fair(WrappedTurns(start, k, n, pos), k, n)
      {
        WrapInStep(start, k, n, pos);
        TurnsAreFair(start, k, n, pos);
      }
    } else {
      UnfairWrap(n);
    }
  }

  /** The first candidate gets two of at most `n` turns around the wrap. */
  lemma UnfairWrap(n: nat)
    requires 0 < n < WORD && WORD % n != 0
    ensures !Fair(WrappedTurns(WORD - WORD % n, WORD % n + 1, n, 0), WORD % n + 1, n)
  {
    var r := WORD % n;
    var start := WORD - r;
    assert start == n * (WORD / n) + 0;
    DivIs(start, n, WORD / n, 0);
    EarlyTurn(start, n);
    FirstTurn(start, r, n);
    DivIs(WORD, WORD, 1, 0);
    DivIs(0, n, 0, 0);
    DivIs(r + n, n, 1, r);
  }

  lemma {:induction false} FirstTurn(start: nat, k: nat, n: nat)
    requires 0 < n && 0 < k && WrappedTurn(start, n) == 0
    ensures 1 <= WrappedTurns(start, k, n, 0)
  {
    if k != 1 {
      FirstTurn(start, k - 1, n);
    }
  }

  lemma FairShare(start: nat, k: nat, n: nat, pos: nat)
    requires pos < n
    ensures
      var x, y := start, start + k;
      var turns := y / n - x / n + (if pos < y % n then 1 else 0) - if pos < x % n then 1 else 0;
      k / n <= turns <= (k + n - 1) / n
  {
    var q, r := k / n, k % n;
    var a, b := start / n, start % n;
    SumDiv(start, k, n);
    if r == 0 {
      DivIs(k + n - 1, n, q, n - 1);
    } else {
      assert n * (q + 1) == n * q + n;
      DivIs(k + n - 1, n, q + 1, r - 1);
    }
  }

  lemma SumDiv(x: nat, y: nat, n: nat)
    requires 0 < n
    ensures
      var r := x % n + y % n;
      if r < n then (x + y) / n == x / n + y / n && (x + y) % n == r
      else (x + y) / n == x / n + y / n + 1 && (x + y) % n == r - n
  {
    var q, r := x / n + y / n, x % n + y % n;
    assert x == n * (x / n) + x % n && y == n * (y / n) + y % n;
    assert n * q == n * (x / n) + n * (y / n);
    if r < n {
      DivIs(x + y, n, q, r);
    } else {
      assert n * (q + 1) == n * q + n;
      DivIs(x + y, n, q + 1, r - n);
    }
  }
}
