/**
 The cache's single flight. One request per key leads and fetches; others
 follow and wait for what it publishes. Start is atomic; Finish removes the
 flight under the mutex, then writes the result, then closes the channel, in
 separate steps. Steps of all requests interleave freely.
 */
module Coalescer {
  import opened Options

  const DEFAULT_MAX_FLIGHTS: int := 10000

  datatype Key = Key(text: string)
  type FlightId = nat
  type Request = nat
  /** An entry, its ok flag and an error, as one published value. */
  type Outcome = nat

  function Limit(maxFlights: int): (limit: int)
    ensures 0 < limit
  {
    if maxFlights <= 0 then DEFAULT_MAX_FLIGHTS else maxFlights
  }

  /** A flight: whose it is, what was written into it, and how often its channel was closed. */
  datatype Flight = Flight(key: Key, leader: Request, written: Option<Outcome>, closed: nat)

  /** Where a request is. */
  datatype Place =
    | Leading(flight: FlightId)                                  // fetching; Finish not called yet
    | Removed(flight: FlightId, outcome: Outcome)                // in Finish, flight removed
    | Wrote(flight: FlightId, outcome: Outcome)                  // in Finish, result written
    | Led(flight: FlightId, outcome: Outcome)                    // Finish done
    | Following(key: Key, flight: FlightId)                      // in Wait
    | Got(key: Key, flight: FlightId, result: Option<Outcome>)   // Wait returned what the flight holds
    | Alone                                                      // not coalesced, or timed out

  datatype State = State(flights: map<Key, FlightId>, all: seq<Flight>, requests: map<Request, Place>) {
    predicate At(r: Request, f: FlightId) {
      r in requests && f < |all|
      && match requests[r]
         case Leading(g) => g == f
         case Removed(g, _) => g == f
         case Wrote(g, _) => g == f
         case Led(g, _) => g == f
         case _ => false
    }
  }

  const EMPTY := State(map[], [], map[])

  datatype Step =
    | Start(r: Request, key: Key)
    | Remove(r: Request, outcome: Outcome)
    | Write(r: Request)
    | Close(r: Request)
    | Receive(r: Request)
    | Timeout(r: Request)

  predicate Enabled(s: State, step: Step) {
    var r := step.r;
    match step
    case Start(_, _) => r !in s.requests
    case Remove(_, _) => r in s.requests && s.requests[r].Leading? && s.requests[r].flight < |s.all|
    case Write(_) => r in s.requests && s.requests[r].Removed? && s.requests[r].flight < |s.all|
    case Close(_) => r in s.requests && s.requests[r].Wrote? && s.requests[r].flight < |s.all|
    case Receive(_) =>
      && r in s.requests && s.requests[r].Following? && s.requests[r].flight < |s.all|
      && s.all[s.requests[r].flight].closed > 0
    case Timeout(_) => r in s.requests && s.requests[r].Following?
  }

  /** The key is usable, has no flight yet, and there is room for one more. */
  predicate TakesLead(s: State, key: Key, limit: int) {
    key.text != "" && key !in s.flights && |s.flights| < limit
  }

  function NextFlights(s: State, step: Step, limit: int): map<Key, FlightId>
    requires Enabled(s, step)
  {
    match step
    case Start(_, key) => if TakesLead(s, key, limit) then s.flights[key := |s.all|] else s.flights
    case Remove(r, _) =>
      var f := s.requests[r].flight;
      var key := s.all[f].key;
      if key in s.flights && s.flights[key] == f then s.flights - {key} else s.flights
    case _ => s.flights
  }

  function NextAll(s: State, step: Step, limit: int): seq<Flight>
    requires Enabled(s, step)
  {
    match step
    case Start(r, key) => if TakesLead(s, key, limit) then s.all + [Flight(key, r, None, 0)] else s.all
    case Write(r) =>
      var f := s.requests[r].flight;
      s.all[f := s.all[f].(written := Some(s.requests[r].outcome))]
    case Close(r) =>
      var f := s.requests[r].flight;
      s.all[f := s.all[f].(closed := s.all[f].closed + 1)]
    case _ => s.all
  }

  function NextPlace(s: State, step: Step, limit: int): Place
    requires Enabled(s, step)
  {
    var r := step.r;
    match step
    case Start(_, key) =>
      if key.text == "" then Alone
      else if key in s.flights then Following(key, s.flights[key])
      else if |s.flights| >= limit then Alone
      else Leading(|s.all|)
    case Remove(_, outcome) => Removed(s.requests[r].flight, outcome)
    case Write(_) => Wrote(s.requests[r].flight, s.requests[r].outcome)
    case Close(_) => Led(s.requests[r].flight, s.requests[r].outcome)
    case Receive(_) => Got(s.requests[r].key, s.requests[r].flight, s.all[s.requests[r].flight].written)
    case Timeout(_) => Alone
  }

  function Next(s: State, step: Step, limit: int): State
    requires Enabled(s, step)
  {
    State(NextFlights(s, step, limit), NextAll(s, step, limit), s.requests[step.r := NextPlace(s, step, limit)])
  }

  // ------------------------------------------------------------------
  // The invariant
  // ------------------------------------------------------------------

  predicate Registered(s: State, key: Key, f: FlightId) { key in s.flights && s.flights[key] == f }

  /** How a flight looks at each stage of its leader. */
  predicate FlightOk(s: State, f: FlightId)
    requires f < |s.all|
  {
    var flight := s.all[f];
    && s.At(flight.leader, f)
    && match s.requests[flight.leader]
       case Leading(_) => flight.written == None && flight.closed == 0 && Registered(s, flight.key, f)
       case Removed(_, _) => flight.written == None && flight.closed == 0 && !Registered(s, flight.key, f)
       case Wrote(_, o) => flight.written == Some(o) && flight.closed == 0 && !Registered(s, flight.key, f)
       case Led(_, o) => flight.written == Some(o) && flight.closed == 1 && !Registered(s, flight.key, f)
       case _ => false
  }

  /** A request is only ever at a flight of its own, or of its key. */
  predicate RequestOk(s: State, r: Request)
    requires r in s.requests
  {
    match s.requests[r]
    case Leading(f) => f < |s.all| && s.all[f].leader == r
    case Removed(f, _) => f < |s.all| && s.all[f].leader == r
    case Wrote(f, _) => f < |s.all| && s.all[f].leader == r
    case Led(f, _) => f < |s.all| && s.all[f].leader == r
    case Following(key, f) => f < |s.all| && s.all[f].key == key
    case Got(key, f, result) =>
      && f < |s.all| && s.all[f].key == key
      && s.all[f].leader in s.requests && s.requests[s.all[f].leader].Led?
      && result == Some(s.requests[s.all[f].leader].outcome)
    case Alone => true
  }

  ghost predicate Inv(s: State, limit: int) {
    && |s.flights| <= limit
    && (forall key <- s.flights :: s.flights[key] < |s.all| && s.all[s.flights[key]].key == key)
    && (forall f: FlightId :: f < |s.all| ==> FlightOk(s, f))
    && (forall r <- s.requests :: RequestOk(s, r))
  }

  lemma InvKept(s: State, step: Step, limit: int)
    requires Inv(s, limit) && Enabled(s, step)
    ensures Inv(Next(s, step, limit), limit)
  {
    var s' := Next(s, step, limit);
    forall f: FlightId | f < |s'.all|
      ensures FlightOk(s', f)
    {
      FlightKept(s, step, limit, f);
    }
    forall r <- s'.requests
      ensures RequestOk(s', r)
    {
      RequestKept(s, step, limit, r);
    }
  }

  lemma FlightKept(s: State, step: Step, limit: int, f: FlightId)
    requires Inv(s, limit) && Enabled(s, step) && f < |Next(s, step, limit).all|
    ensures FlightOk(Next(s, step, limit), f)
  {
    if f < |s.all| {
      assert FlightOk(s, f);
    }
    if step.r in s.requests {
      assert RequestOk(s, step.r);
    }
  }

  lemma RequestKept(s: State, step: Step, limit: int, r: Request)
    requires Inv(s, limit) && Enabled(s, step) && r in Next(s, step, limit).requests
    ensures RequestOk(Next(s, step, limit), r)
  {
    if r in s.requests {
      assert RequestOk(s, r);
      if s.requests[r].Following? {
        assert FlightOk(s, s.requests[r].flight);
      }
    }
  }

  /** A run of a new coalescer made for `maxFlights`. */
  ghost predicate IsRun(maxFlights: int, states: seq<State>, steps: seq<Step>) {
    && |states| == |steps| + 1 && states[0] == EMPTY
    && forall i :: 0 <= i < |steps| ==> Enabled(states[i], steps[i]) && states[i + 1] == Next(states[i], steps[i], Limit(maxFlights))
  }

  lemma {:induction false} InvAlong(maxFlights: int, states: seq<State>, steps: seq<Step>, i: nat)
    requires IsRun(maxFlights, states, steps) && i <= |steps|
    ensures Inv(states[i], Limit(maxFlights))
  {
    if i != 0 {
      InvAlong(maxFlights, states, steps, i - 1);
      InvKept(states[i - 1], steps[i - 1], Limit(maxFlights));
    }
  }

  // ------------------------------------------------------------------
  // What coalescing promises
  // ------------------------------------------------------------------

  /** At most one request leads a key at any time. */
  lemma OneLeaderPerKey(maxFlights: int, states: seq<State>, steps: seq<Step>, i: nat, r: Request, q: Request)
    requires IsRun(maxFlights, states, steps) && i <= |steps|
    requires
      var s := states[i];
      && r in s.requests && s.requests[r].Leading? && q in s.requests && s.requests[q].Leading?
      && s.requests[r].flight < |s.all| && s.requests[q].flight < |s.all|
      && s.all[s.requests[r].flight].key == s.all[s.requests[q].flight].key
    ensures r == q
  {
    InvAlong(maxFlights, states, steps, i);
    var s := states[i];
    assert RequestOk(s, r) && RequestOk(s, q);
    assert FlightOk(s, s.requests[r].flight) && FlightOk(s, s.requests[q].flight);
  }

  /** The request leads a flight for the key. */
  predicate Leads(s: State, q: Request, key: Key) {
    q in s.requests && s.requests[q].Leading? && s.requests[q].flight < |s.all| && s.all[s.requests[q].flight].key == key
  }

  /**
   A request that starts follows the flight of whoever leads its key; if
   nobody does it leads a flight of its own while fewer than the limit are
   registered; without a key, or without room, it goes alone.
   */
  lemma StartsExactly(maxFlights: int, states: seq<State>, steps: seq<Step>, i: nat, q: Request)
    requires IsRun(maxFlights, states, steps) && i < |steps| && steps[i].Start?
    ensures
      var s, r, key := states[i], steps[i].r, steps[i].key;
      var limit := if maxFlights <= 0 then 10000 else maxFlights;
      && r in states[i + 1].requests
      && (var place := states[i + 1].requests[r];
          && (key.text != "" && Leads(s, q, key) ==> place == Following(key, s.requests[q].flight))
          && (place.Following? ==> exists q' :: Leads(s, q', key))
          && (place.Leading? <==> key.text != "" && |s.flights| < limit && !exists q' :: Leads(s, q', key))
          && (place.Leading? ==> Leads(states[i + 1], r, key))
          && (place.Alone? || place.Following? || place.Leading?))
  {
    InvAlong(maxFlights, states, steps, i);
    var s, key := states[i], steps[i].key;
    forall q' | Leads(s, q', key)
      ensures key in s.flights && s.flights[key] == s.requests[q'].flight
    {
      LeaderIsRegistered(s, Limit(maxFlights), q', key);
    }
    if key in s.flights {
      FlightsBounded(maxFlights, states, steps, i);
      assert Leads(s, s.all[s.flights[key]].leader, key);
    }
  }

  lemma LeaderIsRegistered(s: State, limit: int, q: Request, key: Key)
    requires Inv(s, limit) && Leads(s, q, key)
    ensures key in s.flights && s.flights[key] == s.requests[q].flight
  {
    assert RequestOk(s, q) && FlightOk(s, s.requests[q].flight);
  }

  /** No more flights are registered than allowed, and every registered one has a request that leads it. */
  lemma FlightsBounded(maxFlights: int, states: seq<State>, steps: seq<Step>, i: nat)
    requires IsRun(maxFlights, states, steps) && i <= |steps|
    ensures |states[i].flights| <= Limit(maxFlights)
    ensures forall key <- states[i].flights ::
              var f := states[i].flights[key];
              && f < |states[i].all| && states[i].all[f].key == key
              && states[i].all[f].leader in states[i].requests
              && states[i].requests[states[i].all[f].leader] == Leading(f)
  {
    InvAlong(maxFlights, states, steps, i);
    var s := states[i];
    forall key <- s.flights
      ensures s.all[s.flights[key]].leader in s.requests && s.requests[s.all[s.flights[key]].leader] == Leading(s.flights[key])
    {
      assert FlightOk(s, s.flights[key]) && Registered(s, key, s.flights[key]);
    }
  }

  /** Every flight's channel is closed at most once, and exactly once when its leader is done. */
  lemma CompletedOnce(maxFlights: int, states: seq<State>, steps: seq<Step>, i: nat, f: FlightId)
    requires IsRun(maxFlights, states, steps) && i <= |steps| && f < |states[i].all|
    ensures
      var s := states[i];
      && s.all[f].closed <= 1 && s.all[f].leader in s.requests
      && (s.all[f].closed == 1 <==> s.requests[s.all[f].leader].Led?)
  {
    InvAlong(maxFlights, states, steps, i);
    assert FlightOk(states[i], f);
  }

  /** A follower whose wait completed has exactly what the leader of a flight for its own key published. */
  lemma FollowersGetTheLeadersResult(maxFlights: int, states: seq<State>, steps: seq<Step>, i: nat, r: Request)
    requires IsRun(maxFlights, states, steps) && i <= |steps|
    requires r in states[i].requests && states[i].requests[r].Got?
    ensures
      var s := states[i];
      var got := s.requests[r];
      && got.flight < |s.all| && s.all[got.flight].key == got.key
      && s.all[got.flight].leader in s.requests
      && exists o: Outcome :: s.requests[s.all[got.flight].leader] == Led(got.flight, o) && got.result == Some(o)
  {
    InvAlong(maxFlights, states, steps, i);
    var s := states[i];
    assert RequestOk(s, r) && FlightOk(s, s.requests[r].flight);
  }
}
