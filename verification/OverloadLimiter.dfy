/**
 The admission limiter: two bounded channels used as counters, one for
 requests being served and one for requests waiting. Every send, receive,
 timeout and return is a step of its own, and the steps of any number of
 callers interleave freely.
 */
module OverloadLimiter {

  type Caller = nat

  /** `maxQueue` of 0 or less means there is no queue channel. */
  datatype Config = Config(maxInflight: int, maxQueue: int) {
    predicate Valid() { 0 < maxInflight }
  }

  /** Where a caller inside Acquire, or holding a slot, is. */
  datatype Place =
    | Refused    // found no free slot; about to try the queue
    | Waiting    // in the queue, waiting for a slot, a timeout or a cancellation
    | Promoted   // got a slot while queued; about to leave the queue
    | Leaving    // gave up while queued; about to leave the queue
    | Holding    // admitted; release not called yet

  datatype State = State(inflight: int, queue: int, callers: map<Caller, Place>) {
    predicate At(c: Caller, p: Place) { c in callers && callers[c] == p }

    function Number(p: Place): nat { |In(callers, p)| }

    function With(c: Caller, p: Place): State { this.(callers := callers[c := p]) }

    function Gone(c: Caller): State { this.(callers := callers - {c}) }
  }

  function In(callers: map<Caller, Place>, p: Place): set<Caller> { set c | c in callers && callers[c] == p }

  const IDLE := State(0, 0, map[])

  datatype Step =
    | Arrive(c: Caller)          // non-blocking send on the inflight channel
    | TryQueue(c: Caller)        // non-blocking send on the queue channel
    | Promote(c: Caller)         // blocking send on the inflight channel succeeds
    | GiveUp(c: Caller)          // the timer fires or the context ends
    | LeavePromoted(c: Caller)   // receive from the queue channel, admitted
    | LeaveRejected(c: Caller)   // receive from the queue channel, turned away
    | Release(c: Caller)         // receive from the inflight channel

  /** The caller is at a point where it can take this step; a send needs room, a receive does not wait for a token. */
  predicate AtStep(s: State, cfg: Config, step: Step) {
    match step
    case Arrive(c) => c !in s.callers
    case TryQueue(c) => s.At(c, Refused)
    case Promote(c) => s.At(c, Waiting) && s.inflight < cfg.maxInflight
    case GiveUp(c) => s.At(c, Waiting)
    case LeavePromoted(c) => s.At(c, Promoted)
    case LeaveRejected(c) => s.At(c, Leaving)
    case Release(c) => s.At(c, Holding)
  }

  /** A receive from an empty channel would block. */
  predicate Blocks(s: State, step: Step) {
    match step
    case LeavePromoted(_) => s.queue == 0
    case LeaveRejected(_) => s.queue == 0
    case Release(_) => s.inflight == 0
    case _ => false
  }

  function Next(s: State, cfg: Config, step: Step): State
    requires AtStep(s, cfg, step)
  {
    match step
    case Arrive(c) =>
      if s.inflight < cfg.maxInflight then s.With(c, Holding).(inflight := s.inflight + 1) else s.With(c, Refused)
    case TryQueue(c) =>
      if cfg.maxQueue <= 0 || s.queue >= cfg.maxQueue then s.Gone(c) else s.With(c, Waiting).(queue := s.queue + 1)
    case Promote(c) => s.With(c, Promoted).(inflight := s.inflight + 1)
    case GiveUp(c) => s.With(c, Leaving)
    case LeavePromoted(c) => s.With(c, Holding).(queue := s.queue - 1)
    case LeaveRejected(c) => s.Gone(c).(queue := s.queue - 1)
    case Release(c) => s.Gone(c).(inflight := s.inflight - 1)
  }

  /** The token counts are exactly the callers that put the tokens there, within bounds. */
  ghost predicate Inv(s: State, cfg: Config) {
    && s.inflight == s.Number(Promoted) + s.Number(Holding) <= cfg.maxInflight
    && s.queue == s.Number(Waiting) + s.Number(Promoted) + s.Number(Leaving)
    && (s.queue == 0 || s.queue <= cfg.maxQueue)
  }

  lemma NumberGone(s: State, c: Caller, p: Place)
    ensures s.Gone(c).Number(p) == s.Number(p) - if s.At(c, p) then 1 else 0
    ensures s.At(c, p) ==> 1 <= s.Number(p)
  {
    var rest := In(s.callers, p) - {c};
    assert In(s.callers, p) == rest + if s.At(c, p) then {c} else {};
    assert In(s.callers - {c}, p) == rest;
  }

  lemma NumberWith(s: State, c: Caller, to: Place, p: Place)
    ensures s.With(c, to).Number(p)
         == s.Number(p) + (if p == to then 1 else 0) - if s.At(c, p) then 1 else 0
  {
    NumberGone(s, c, p);
    if p == to {
      assert In(s.callers[c := to], p) == In(s.callers - {c}, p) + {c};
    } else {
      assert In(s.callers[c := to], p) == In(s.callers - {c}, p);
    }
  }

  lemma InvKept(s: State, cfg: Config, step: Step)
    requires cfg.Valid() && Inv(s, cfg) && AtStep(s, cfg, step)
    ensures !Blocks(s, step)
    ensures Inv(Next(s, cfg, step), cfg)
  {
    var c := step.c;
    forall p: Place
      ensures s.Gone(c).Number(p) == s.Number(p) - if s.At(c, p) then 1 else 0
      ensures s.At(c, p) ==> 1 <= s.Number(p)
    {
      NumberGone(s, c, p);
    }
    forall to: Place, p: Place
      ensures s.With(c, to).Number(p) == s.Number(p) + (if p == to then 1 else 0) - if s.At(c, p) then 1 else 0
    {
      NumberWith(s, c, to, p);
    }
  }

  ghost predicate IsRun(cfg: Config, states: seq<State>, steps: seq<Step>) {
    && cfg.Valid()
    && |states| == |steps| + 1 && states[0] == IDLE
    && forall i :: 0 <= i < |steps| ==> AtStep(states[i], cfg, steps[i]) && states[i + 1] == Next(states[i], cfg, steps[i])
  }

  lemma {:induction false} InvAlong(cfg: Config, states: seq<State>, steps: seq<Step>, i: nat)
    requires IsRun(cfg, states, steps) && i <= |steps|
    ensures Inv(states[i], cfg)
  {
    if i != 0 {
      InvAlong(cfg, states, steps, i - 1);
      InvKept(states[i - 1], cfg, steps[i - 1]);
    }
  }

  /**
   At every point of every interleaving the two channels hold one token per
   caller that owes one, within their capacities, and no receive ever waits.
   */
  lemma AdmissionHolds(cfg: Config, states: seq<State>, steps: seq<Step>, i: nat)
    requires IsRun(cfg, states, steps) && i <= |steps|
    ensures states[i].inflight == states[i].Number(Promoted) + states[i].Number(Holding) <= cfg.maxInflight
    ensures states[i].queue == states[i].Number(Waiting) + states[i].Number(Promoted) + states[i].Number(Leaving)
    ensures states[i].queue <= cfg.maxQueue || states[i].queue == 0
    ensures forall step :: AtStep(states[i], cfg, step) ==> !Blocks(states[i], step)
  {
    InvAlong(cfg, states, steps, i);
    forall step | AtStep(states[i], cfg, step)
      ensures !Blocks(states[i], step)
    {
      InvKept(states[i], cfg, step);
    }
  }

  /**
   Nobody is turned away while there is room: an arrival gets a slot if and
   only if not all are taken, and a caller that got none may wait if and only
   if there is a queue with room; otherwise it is rejected at once.
   */
  lemma AdmittedExactly(cfg: Config, states: seq<State>, steps: seq<Step>, i: nat)
    requires IsRun(cfg, states, steps) && i < |steps|
    ensures
      var s, after, c := states[i], states[i + 1].callers, steps[i].c;
      && (steps[i].Arrive? ==>
            c in after && after[c] == if s.Number(Promoted) + s.Number(Holding) < cfg.maxInflight then Holding else Refused)
      && (steps[i].TryQueue? ==>
            if 0 < cfg.maxQueue && s.Number(Waiting) + s.Number(Promoted) + s.Number(Leaving) < cfg.maxQueue
            then c in after && after[c] == Waiting else c !in after)
  {
    InvAlong(cfg, states, steps, i);
  }

  /** A caller leaves the limiter only turned away or done: what it holds it keeps until it gives it back itself. */
  lemma OthersUntouched(cfg: Config, states: seq<State>, steps: seq<Step>, i: nat, c: Caller)
    requires IsRun(cfg, states, steps) && i < |steps| && c != steps[i].c
    ensures c in states[i].callers <==> c in states[i + 1].callers
    ensures c in states[i].callers ==> states[i + 1].callers[c] == states[i].callers[c]
  {}

  /** Once every caller has returned and released, both channels are empty again. */
  lemma DrainsCompletely(cfg: Config, states: seq<State>, steps: seq<Step>)
    requires IsRun(cfg, states, steps) && states[|steps|].callers == map[]
    ensures states[|steps|].inflight == 0 && states[|steps|].queue == 0
  {
    InvAlong(cfg, states, steps, |steps|);
    var s := states[|steps|];
    assert forall p: Place :: In(s.callers, p) == {};
  }
}
