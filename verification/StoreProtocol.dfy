/**
 The snapshot store as a concurrent protocol.

 Acquire, Release, Swap and Reap are split at their atomic operations: a load
 or store of `current`, an increment, decrement or read of a reference count,
 a read or write of the retirement stamp, taking and dropping the mutex, and
 the steps of the in-place filter. Any number of calls may be in progress and
 their steps interleave freely.
 */
module StoreProtocol {
  import opened Options

  type Snap = nat
  type Tid = nat

  /** Where a call in progress is. */
  datatype Pc =
    | AcquireLoaded(snap: Snap)
    | CheckRetired(snap: Snap)
    | CheckCount(snap: Snap)
    | WantReap
    | Reaping(scanned: nat)
    | SwapLoaded(previous: Option<Snap>, next: Option<Snap>)
    | SwapLocked(previous: Option<Snap>, next: Option<Snap>)
    | SwapMarked(previous: Option<Snap>, next: Option<Snap>)
    | SwapAppended(next: Option<Snap>)
    | SwapStored

  datatype State = State(
    current: Option<Snap>,
    retired: seq<Snap>,
    marked: set<Snap>,
    refs: map<Snap, int>,
    lock: Option<Tid>,
    calls: map<Tid, Pc>,
    held: multiset<Snap>)
  {
    function RefCount(snap: Snap): int { if snap in refs then refs[snap] else 0 }

    predicate At(t: Tid, pc: Pc) { t in calls && calls[t] == pc }
  }

  function Init(initial: Option<Snap>): State {
    State(initial, [], {}, map[], None, map[], multiset{})
  }

  /** One atomic operation of the call made by thread `t`. */
  datatype Step =
    | Load(t: Tid)
    | IncRef(t: Tid)
    | DecRef(t: Tid, snap: Snap)
    | ReadRetired(t: Tid)
    | ReadCount(t: Tid)
    | LockReap(t: Tid)
    | Scan(t: Tid)
    | FinishReap(t: Tid)
    | SwapLoad(t: Tid, next: Option<Snap>)
    | SwapLock(t: Tid)
    | SwapMark(t: Tid)
    | SwapAppend(t: Tid)
    | SwapStore(t: Tid)
    | SwapUnlock(t: Tid)

  predicate Enabled(s: State, step: Step) {
    var t := step.t;
    match step
    case Load(_) => t !in s.calls && s.current.Some?
    case IncRef(_) => t in s.calls && s.calls[t].AcquireLoaded?
    case DecRef(_, snap) => t !in s.calls && snap in s.held
    case ReadRetired(_) => t in s.calls && s.calls[t].CheckRetired?
    case ReadCount(_) => t in s.calls && s.calls[t].CheckCount?
    case LockReap(_) => t in s.calls && s.calls[t].WantReap? && s.lock.None?
    case Scan(_) => t in s.calls && s.calls[t].Reaping? && s.calls[t].scanned < |s.retired|
    case FinishReap(_) => t in s.calls && s.calls[t].Reaping? && s.calls[t].scanned >= |s.retired|
    case SwapLoad(_, _) => t !in s.calls
    case SwapLock(_) => t in s.calls && s.calls[t].SwapLoaded? && s.lock.None?
    case SwapMark(_) => t in s.calls && s.calls[t].SwapLocked?
    case SwapAppend(_) => t in s.calls && s.calls[t].SwapMarked?
    case SwapStore(_) => t in s.calls && s.calls[t].SwapAppended?
    case SwapUnlock(_) => t in s.calls && s.calls[t].SwapStored?
  }

  /** Where the stepping call is afterwards; None once it has returned. */
  function NextPc(s: State, step: Step): Option<Pc>
    requires Enabled(s, step)
  {
    var t := step.t;
    match step
    case Load(_) => Some(AcquireLoaded(s.current.value))
    case IncRef(_) => None
    case DecRef(_, snap) => Some(CheckRetired(snap))
    case ReadRetired(_) => if s.calls[t].snap in s.marked then Some(CheckCount(s.calls[t].snap)) else None
    case ReadCount(_) => if s.RefCount(s.calls[t].snap) == 0 then Some(WantReap) else None
    case LockReap(_) => Some(Reaping(0))
    case Scan(_) =>
      var k := s.calls[t].scanned;
      Some(Reaping(if s.RefCount(s.retired[k]) != 0 then k + 1 else k))
    case FinishReap(_) => None
    case SwapLoad(_, next) => Some(SwapLoaded(s.current, next))
    case SwapLock(_) => Some(SwapLocked(s.calls[t].previous, s.calls[t].next))
    case SwapMark(_) => Some(SwapMarked(s.calls[t].previous, s.calls[t].next))
    case SwapAppend(_) => Some(SwapAppended(s.calls[t].next))
    case SwapStore(_) => Some(SwapStored)
    case SwapUnlock(_) => Some(WantReap)
  }

  function NextCurrent(s: State, step: Step): Option<Snap>
    requires Enabled(s, step)
  {
    match step
    case SwapStore(t) => s.calls[t].next
    case _ => s.current
  }

  /** The retired list: appended to by a Swap, compacted in place by a Reap. */
  function NextRetired(s: State, step: Step): seq<Snap>
    requires Enabled(s, step)
  {
    match step
    case SwapAppend(t) => s.retired + if s.calls[t].previous.Some? then [s.calls[t].previous.value] else []
    case Scan(t) =>
      var k := s.calls[t].scanned;
      if s.RefCount(s.retired[k]) != 0 then s.retired else s.retired[..k] + s.retired[k + 1..]
    case _ => s.retired
  }

  function NextMarked(s: State, step: Step): set<Snap>
    requires Enabled(s, step)
  {
    match step
    case SwapMark(t) => s.marked + if s.calls[t].previous.Some? then {s.calls[t].previous.value} else {}
    case _ => s.marked
  }

  function NextRefs(s: State, step: Step): map<Snap, int>
    requires Enabled(s, step)
  {
    match step
    case IncRef(t) => s.refs[s.calls[t].snap := s.RefCount(s.calls[t].snap) + 1]
    case DecRef(_, snap) => s.refs[snap := s.RefCount(snap) - 1]
    case _ => s.refs
  }

  function NextHeld(s: State, step: Step): multiset<Snap>
    requires Enabled(s, step)
  {
    match step
    case IncRef(t) => s.held + multiset{s.calls[t].snap}
    case DecRef(_, snap) => s.held - multiset{snap}
    case _ => s.held
  }

  function NextLock(s: State, step: Step): Option<Tid> {
    match step
    case LockReap(t) => Some(t)
    case SwapLock(t) => Some(t)
    case FinishReap(_) => None
    case SwapUnlock(_) => None
    case _ => s.lock
  }

  function Next(s: State, step: Step): State
    requires Enabled(s, step)
  {
    var calls := match NextPc(s, step) case Some(pc) => s.calls[step.t := pc] case None => s.calls - {step.t};
    State(NextCurrent(s, step), NextRetired(s, step), NextMarked(s, step), NextRefs(s, step), NextLock(s, step),
          calls, NextHeld(s, step))
  }

  /** The states a run passes through, each reached from the one before by an enabled step. */
  ghost predicate IsRun(states: seq<State>, steps: seq<Step>) {
    && |states| == |steps| + 1
    && forall i :: 0 <= i < |steps| ==> Enabled(states[i], steps[i]) && states[i + 1] == Next(states[i], steps[i])
  }

  /** Some interleaving leads from a fresh store to `s`. */
  ghost predicate Reachable(initial: Option<Snap>, s: State) {
    exists states: seq<State>, steps: seq<Step> ::
      IsRun(states, steps) && states[0] == Init(initial) && states[|steps|] == s
  }

  // ------------------------------------------------------------------
  // The invariant
  // ------------------------------------------------------------------

  predicate HoldsLock(pc: Pc) {
    pc.Reaping? || pc.SwapLocked? || pc.SwapMarked? || pc.SwapAppended? || pc.SwapStored?
  }

  /** A call at `pc` will still look at the retired-list entry `snap` at position `i`. */
  predicate Due(pc: Pc, snap: Snap, i: nat) {
    match pc
    case CheckRetired(x) => x == snap
    case CheckCount(x) => x == snap
    case WantReap => true
    case Reaping(k) => k <= i
    case SwapAppended(_) => true
    case SwapStored => true
    case _ => false
  }

  ghost predicate Counted(s: State) {
    forall snap: Snap :: s.RefCount(snap) == s.held[snap]
  }

  ghost predicate Locked(s: State) {
    && (forall t <- s.calls :: HoldsLock(s.calls[t]) <==> s.lock == Some(t))
    && (s.lock.Some? ==> s.lock.value in s.calls)
    && (forall t <- s.calls :: s.calls[t].Reaping? ==> s.calls[t].scanned <= |s.retired|)
  }

  ghost predicate Stamped(s: State) {
    && (forall snap <- s.retired :: snap in s.marked)
    && (forall t <- s.calls :: s.calls[t].SwapMarked? && s.calls[t].previous.Some?
                               ==> s.calls[t].previous.value in s.marked)
  }

  ghost predicate SomeoneDue(s: State, snap: Snap, i: nat) {
    exists t <- s.calls :: Due(s.calls[t], snap, i)
  }

  ghost predicate Attended(s: State) {
    forall i :: 0 <= i < |s.retired| && s.RefCount(s.retired[i]) == 0 ==> SomeoneDue(s, s.retired[i], i)
  }

  ghost predicate Inv(s: State) {
    Counted(s) && Locked(s) && Stamped(s) && Attended(s)
  }

  lemma CountedKept(s: State, step: Step)
    requires Counted(s) && Enabled(s, step)
    ensures Counted(Next(s, step))
  {}

  lemma LockedKept(s: State, step: Step)
    requires Locked(s) && Enabled(s, step)
    ensures Locked(Next(s, step))
  {
    OthersStay(s, step);
    match step {
      case LockReap(_) => Enters(s, step);
      case SwapLock(_) => Enters(s, step);
      case FinishReap(_) => Leaves(s, step);
      case SwapUnlock(_) => Leaves(s, step);
      case Scan(_) => Inside(s, step);
      case SwapMark(_) => Inside(s, step);
      case SwapAppend(_) => Inside(s, step);
      case SwapStore(_) => Inside(s, step);
      case _ => Outside(s, step);
    }
  }

  /** A step moves the calls of its own thread only. */
  ghost predicate OnlyMoves(s: State, s': State, t: Tid) {
    && (forall u <- s'.calls :: u != t ==> u in s.calls && s'.calls[u] == s.calls[u])
    && (forall u <- s.calls :: u != t ==> u in s'.calls)
  }

  lemma OthersStay(s: State, step: Step)
    requires Enabled(s, step)
    ensures OnlyMoves(s, Next(s, step), step.t)
  {}

  lemma Enters(s: State, step: Step)
    requires Locked(s) && Enabled(s, step) && (step.LockReap? || step.SwapLock?)
    requires OnlyMoves(s, Next(s, step), step.t)
    ensures Locked(Next(s, step))
  {
    CallMoves(s, Next(s, step), step.t);
  }

  lemma Leaves(s: State, step: Step)
    requires Locked(s) && Enabled(s, step) && (step.FinishReap? || step.SwapUnlock?)
    requires OnlyMoves(s, Next(s, step), step.t)
    ensures Locked(Next(s, step))
  {
    CallMoves(s, Next(s, step), step.t);
  }

  lemma Inside(s: State, step: Step)
    requires Locked(s) && Enabled(s, step) && (step.Scan? || step.SwapMark? || step.SwapAppend? || step.SwapStore?)
    requires OnlyMoves(s, Next(s, step), step.t)
    ensures Locked(Next(s, step))
  {
    CallMoves(s, Next(s, step), step.t);
  }

  lemma Outside(s: State, step: Step)
    requires Locked(s) && Enabled(s, step)
    requires step.Load? || step.IncRef? || step.DecRef? || step.ReadRetired? || step.ReadCount? || step.SwapLoad?
    requires OnlyMoves(s, Next(s, step), step.t)
    ensures Locked(Next(s, step))
  {
    CallMoves(s, Next(s, step), step.t);
  }

  predicate InCriticalSection(s: State, t: Tid) { t in s.calls && HoldsLock(s.calls[t]) }

  /**
   One call moves on: it takes a free mutex as it enters a critical section,
   drops its own as it leaves, and only changes the retired list inside.
   */
  lemma CallMoves(s: State, s': State, t: Tid)
    requires Locked(s) && OnlyMoves(s, s', t)
    requires InCriticalSection(s', t) ==> s'.lock == Some(t) && (InCriticalSection(s, t) || s.lock.None?)
    requires !InCriticalSection(s', t) ==> s'.lock == if InCriticalSection(s, t) then None else s.lock
    requires s'.retired != s.retired ==> InCriticalSection(s, t)
    requires t in s'.calls && s'.calls[t].Reaping? ==> s'.calls[t].scanned <= |s'.retired|
    ensures Locked(s')
  {}

  lemma StampedKept(s: State, step: Step)
    requires Stamped(s) && Enabled(s, step)
    ensures Stamped(Next(s, step))
  {
    StampsKeep(s, Next(s, step), step.t);
  }

  lemma StampsKeep(s: State, s': State, t: Tid)
    requires Stamped(s) && s.marked <= s'.marked
    requires forall snap <- s'.retired :: snap in s.retired || snap in s'.marked
    requires forall u <- s'.calls :: u != t ==> u in s.calls && s'.calls[u] == s.calls[u]
    requires t in s'.calls && s'.calls[t].SwapMarked? && s'.calls[t].previous.Some? ==> s'.calls[t].previous.value in s'.marked
    ensures Stamped(s')
  {}

  /** Every step leaves each dead entry of the retired list with a call due to look at it. */
  lemma AttendedKept(s: State, step: Step)
    requires Inv(s) && Enabled(s, step)
    ensures Attended(Next(s, step))
  {
    var t, s' := step.t, Next(s, step);
    forall i | 0 <= i < |s'.retired| && s'.RefCount(s'.retired[i]) == 0
      ensures SomeoneDue(s', s'.retired[i], i)
    {
      EntryAttended(s, step, i);
    }
  }

  lemma EntryAttended(s: State, step: Step, i: nat)
    requires Inv(s) && Enabled(s, step)
    requires i < |Next(s, step).retired|
    requires Next(s, step).RefCount(Next(s, step).retired[i]) == 0
    ensures SomeoneDue(Next(s, step), Next(s, step).retired[i], i)
  {
    var t, s' := step.t, Next(s, step);
    var snap := s'.retired[i];
    match step {
      case DecRef(_, _) => ReleaseAttends(s, step, i);
      case ReadRetired(_) => ReleaseAttends(s, step, i);
      case ReadCount(_) => ReleaseAttends(s, step, i);
      case LockReap(_) => NowDue(s', t, snap, i);
      case Scan(_) => ScanAttends(s, step, i);
      case SwapAppend(_) => NowDue(s', t, snap, i);
      case SwapStore(_) => NowDue(s', t, snap, i);
      case SwapUnlock(_) => NowDue(s', t, snap, i);
      case _ => OthersStillDue(s, step, i);
    }
  }

  lemma ReleaseAttends(s: State, step: Step, i: nat)
    requires Inv(s) && Enabled(s, step)
    requires step.DecRef? || step.ReadRetired? || step.ReadCount?
    requires i < |Next(s, step).retired|
    requires Next(s, step).RefCount(Next(s, step).retired[i]) == 0
    ensures SomeoneDue(Next(s, step), Next(s, step).retired[i], i)
  {
    var t, s' := step.t, Next(s, step);
    var snap := s'.retired[i];
    if snap == (if step.DecRef? then step.snap else s.calls[t].snap) {
      NowDue(s', t, snap, i);
    } else {
      StillDue(s, s', t, i);
    }
  }

  lemma ScanAttends(s: State, step: Step, i: nat)
    requires Inv(s) && Enabled(s, step) && step.Scan?
    requires i < |Next(s, step).retired|
    requires Next(s, step).RefCount(Next(s, step).retired[i]) == 0
    ensures SomeoneDue(Next(s, step), Next(s, step).retired[i], i)
  {
    var t, s' := step.t, Next(s, step);
    var snap := s'.retired[i];
    if s'.calls[t].scanned <= i {
      NowDue(s', t, snap, i);
    } else {
      StillDue(s, s', t, i);
    }
  }

  lemma OthersStillDue(s: State, step: Step, i: nat)
    requires Inv(s) && Enabled(s, step)
    requires step.Load? || step.IncRef? || step.FinishReap? || step.SwapLoad? || step.SwapLock? || step.SwapMark?
    requires i < |Next(s, step).retired|
    requires Next(s, step).RefCount(Next(s, step).retired[i]) == 0
    ensures SomeoneDue(Next(s, step), Next(s, step).retired[i], i)
  {
    var t, s' := step.t, Next(s, step);
    var snap := s'.retired[i];
    StillDue(s, s', t, i);
  }

  lemma NowDue(s: State, t: Tid, snap: Snap, i: nat)
    requires t in s.calls && Due(s.calls[t], snap, i)
    ensures SomeoneDue(s, snap, i)
  {}

  /** A step of a call that was not the one due leaves whoever was due in place. */
  lemma StillDue(s: State, s': State, t: Tid, i: nat)
    requires Attended(s) && i < |s.retired| && s.RefCount(s.retired[i]) == 0
    requires t in s.calls ==> !Due(s.calls[t], s.retired[i], i)
    requires s'.calls - {t} == s.calls - {t}
    ensures SomeoneDue(s', s.retired[i], i)
  {
    var u :| u in s.calls && Due(s.calls[u], s.retired[i], i);
    assert u in s.calls - {t};
    NowDue(s', u, s.retired[i], i);
  }

  lemma InvKept(s: State, step: Step)
    requires Inv(s) && Enabled(s, step)
    ensures Inv(Next(s, step))
  {
    CountedKept(s, step);
    LockedKept(s, step);
    StampedKept(s, step);
    AttendedKept(s, step);
  }

  lemma {:induction false} InvAlong(states: seq<State>, steps: seq<Step>, i: nat)
    requires IsRun(states, steps) && Inv(states[0]) && i <= |steps|
    ensures Inv(states[i])
  {
    if i != 0 {
      InvAlong(states, steps, i - 1);
      InvKept(states[i - 1], steps[i - 1]);
    }
  }

  lemma InvAlways(initial: Option<Snap>, s: State)
    requires Reachable(initial, s)
    ensures Inv(s)
  {
    var states: seq<State>, steps: seq<Step> :|
      IsRun(states, steps) && states[0] == Init(initial) && states[|steps|] == s;
    InvAlong(states, steps, |steps|);
  }

  // ------------------------------------------------------------------
  // Reclamation
  // ------------------------------------------------------------------

  /**
   After any interleaving: a retired-list entry nobody holds has a call in
   progress that is due to check or reap it, and once no Release and no Swap
   is in progress every entry of the list is held by someone.
   */
  lemma RetiredAreReclaimed(initial: Option<Snap>, s: State)
    requires Reachable(initial, s)
    ensures forall i :: 0 <= i < |s.retired| && s.retired[i] !in s.held ==> SomeoneDue(s, s.retired[i], i)
    ensures (forall t <- s.calls :: s.calls[t].AcquireLoaded?) ==> forall snap <- s.retired :: snap in s.held
  {
    InvAlways(initial, s);
    assert forall snap: Snap :: s.RefCount(snap) == 0 <==> snap !in s.held;
  }

  // ------------------------------------------------------------------
  // Calls finish
  // ------------------------------------------------------------------

  /** A step of a call already in progress. */
  predicate Continues(step: Step) { !step.Load? && !step.DecRef? && !step.SwapLoad? }

  /** A Swap that has yet to append to the retired list. */
  predicate ToAppend(pc: Pc) { pc.SwapLoaded? || pc.SwapLocked? || pc.SwapMarked? }

  function Appending(calls: map<Tid, Pc>): set<Tid> { set t | t in calls && ToAppend(calls[t]) }

  /** How long the retired list can still get without new calls. */
  function MostRetired(s: State): nat { |s.retired| + |Appending(s.calls)| }

  /** How many steps a call can still take when the retired list gets no longer than `n`. */
  function Left(pc: Pc, n: nat): nat {
    match pc
    case AcquireLoaded(_) => 1
    case Reaping(k) => if k <= n then n - k + 1 else 0
    case WantReap => n + 2
    case CheckCount(_) => n + 3
    case CheckRetired(_) => n + 4
    case SwapStored => n + 3
    case SwapAppended(_) => n + 4
    case SwapMarked(_, _) => n + 5
    case SwapLocked(_, _) => n + 6
    case SwapLoaded(_, _) => n + 7
  }

  ghost function AllLeft(calls: map<Tid, Pc>, n: nat): nat
    decreases |calls|
  {
    if calls == map[] then 0
    else
      var t :| t in calls;
      assert t !in calls - {t} && calls == (calls - {t})[t := calls[t]];
      AllLeft(calls - {t}, n) + Left(calls[t], n)
  }

  /** A bound on the steps of all calls in progress. */
  ghost function Measure(s: State): nat { AllLeft(s.calls, MostRetired(s)) }

  lemma SmallerMap(calls: map<Tid, Pc>, t: Tid)
    requires t in calls
    ensures |calls - {t}| == |calls| - 1
  {
    assert (calls - {t}).Keys == calls.Keys - {t};
  }

  /** Whichever call is counted first, the rest is the same. */
  lemma {:induction false} LeftOf(calls: map<Tid, Pc>, t: Tid, n: nat)
    requires t in calls
    ensures AllLeft(calls, n) == AllLeft(calls - {t}, n) + Left(calls[t], n)
    decreases |calls|
  {
    var u :| u in calls && AllLeft(calls, n) == AllLeft(calls - {u}, n) + Left(calls[u], n);
    if u != t {
      SmallerMap(calls, u);
      SmallerMap(calls, t);
      LeftOf(calls - {u}, t, n);
      LeftOf(calls - {t}, u, n);
      assert calls - {u} - {t} == calls - {t} - {u};
    }
  }

  lemma {:induction false} LeftMono(calls: map<Tid, Pc>, m: nat, n: nat)
    requires m <= n
    ensures AllLeft(calls, m) <= AllLeft(calls, n)
    decreases |calls|
  {
    if calls != map[] {
      var t :| t in calls;
      SmallerMap(calls, t);
      LeftOf(calls, t, m);
      LeftOf(calls, t, n);
      LeftMono(calls - {t}, m, n);
    }
  }

  /** Without new calls the retired list cannot get longer than it could before. */
  lemma MostRetiredKept(s: State, step: Step)
    requires Enabled(s, step) && Continues(step)
    ensures MostRetired(Next(s, step)) <= MostRetired(s)
  {
    var t, s' := step.t, Next(s, step);
    if step.SwapAppend? {
      assert Appending(s'.calls) == Appending(s.calls) - {t};
    } else {
      assert Appending(s'.calls) == Appending(s.calls);
    }
  }

  /** The call that steps has fewer steps left. */
  lemma StepperLeft(s: State, step: Step, m: nat)
    requires Locked(s) && Enabled(s, step) && Continues(step)
    requires m == MostRetired(Next(s, step)) <= MostRetired(s)
    ensures
      var t, s' := step.t, Next(s, step);
      t in s.calls && (if t in s'.calls then Left(s'.calls[t], m) else 0) < Left(s.calls[t], MostRetired(s))
  {
    if step.Scan? && s.RefCount(s.retired[s.calls[step.t].scanned]) == 0 {
      assert Appending(Next(s, step).calls) == Appending(s.calls);
    }
  }

  /** Every step of a call in progress brings all of them closer to their end. */
  lemma MeasureFalls(s: State, step: Step)
    requires Locked(s) && Enabled(s, step) && Continues(step)
    ensures Measure(Next(s, step)) < Measure(s)
  {
    var t, s' := step.t, Next(s, step);
    var m, n := MostRetired(s'), MostRetired(s);
    MostRetiredKept(s, step);
    StepperLeft(s, step, m);
    LeftOf(s.calls, t, n);
    LeftMono(s.calls - {t}, m, n);
    assert s'.calls - {t} == s.calls - {t};
    if t in s'.calls {
      LeftOf(s'.calls, t, m);
    } else {
      assert s'.calls == s.calls - {t};
    }
  }

  /** While a call is in progress, some call can take a step. */
  lemma SomeoneContinues(s: State) returns (step: Step)
    requires Locked(s) && s.calls != map[]
    ensures Continues(step) && Enabled(s, step)
  {
    var t :| t in s.calls && (s.lock == None || s.lock == Some(t));
    step := match s.calls[t]
      case AcquireLoaded(_) => IncRef(t)
      case CheckRetired(_) => ReadRetired(t)
      case CheckCount(_) => ReadCount(t)
      case WantReap => LockReap(t)
      case Reaping(k) => (if k < |s.retired| then Scan(t) else FinishReap(t))
      case SwapLoaded(_, _) => SwapLock(t)
      case SwapLocked(_, _) => SwapMark(t)
      case SwapMarked(_, _) => SwapAppend(t)
      case SwapAppended(_) => SwapStore(t)
      case SwapStored => SwapUnlock(t);
  }

  lemma {:induction false} StepsBounded(states: seq<State>, steps: seq<Step>, i: nat)
    requires IsRun(states, steps) && Inv(states[0]) && i <= |steps|
    requires forall k :: 0 <= k < |steps| ==> Continues(steps[k])
    ensures i + Measure(states[i]) <= Measure(states[0])
  {
    if i != 0 {
      StepsBounded(states, steps, i - 1);
      InvAlong(states, steps, i - 1);
      MeasureFalls(states[i - 1], steps[i - 1]);
    }
  }

  /**
   Retired snapshots are eventually reclaimed: from any reachable state, with
   no new calls, only so many steps are possible; they can go on exactly as
   long as a call is in progress; and then every retired entry is held.
   */
  lemma EventuallyReclaimed(initial: Option<Snap>, states: seq<State>, steps: seq<Step>)
    requires IsRun(states, steps) && Reachable(initial, states[0])
    requires forall k :: 0 <= k < |steps| ==> Continues(steps[k])
    ensures |steps| <= Measure(states[0])
    ensures
      var end := states[|steps|];
      && ((exists step :: Continues(step) && Enabled(end, step)) <==> end.calls != map[])
      && (end.calls == map[] ==> forall snap <- end.retired :: snap in end.held)
  {
    InvAlways(initial, states[0]);
    StepsBounded(states, steps, |steps|);
    InvAlong(states, steps, |steps|);
    var end := states[|steps|];
    if end.calls != map[] {
      var step := SomeoneContinues(end);
    }
    assert forall snap: Snap :: end.RefCount(snap) == end.held[snap];
  }

  // ------------------------------------------------------------------
  // Reachability of what is held
  // ------------------------------------------------------------------

  /** Every held snapshot is the current one or in the retired list. */
  ghost predicate HeldReachable(s: State) {
    forall snap <- s.held :: s.current == Some(snap) || snap in s.retired
  }

  /**
   The two steps that can lose sight of a held snapshot: counting a reference to a
   snapshot that was swapped out and reaped since it was loaded, and storing
   over a current snapshot that is held but is not the one this Swap retired.
   */
  predicate LosesHeld(s: State, step: Step)
    requires Enabled(s, step)
  {
    match step
    case IncRef(t) => s.current != Some(s.calls[t].snap) && s.calls[t].snap !in s.retired
    case SwapStore(t) =>
      s.current.Some? && s.calls[t].next != s.current && s.current.value in s.held && s.current.value !in s.retired
    case _ => false
  }

  /** A step keeps every held snapshot reachable exactly when it is not one of those two. */
  lemma ReachableExactly(s: State, step: Step)
    requires Inv(s) && HeldReachable(s) && Enabled(s, step)
    ensures HeldReachable(Next(s, step)) <==> !LosesHeld(s, step)
  {
    match step {
      case IncRef(t) => IncRefReachable(s, t);
      case SwapStore(t) => StoreReachable(s, t);
      case _ => OthersReachable(s, step);
    }
  }

  lemma IncRefReachable(s: State, t: Tid)
    requires HeldReachable(s) && Enabled(s, IncRef(t))
    ensures HeldReachable(Next(s, IncRef(t))) <==> !LosesHeld(s, IncRef(t))
  {
    var s' := Next(s, IncRef(t));
    assert s.calls[t].snap in s'.held;
    assert forall snap <- s'.held :: snap in s.held || snap == s.calls[t].snap;
  }

  lemma StoreReachable(s: State, t: Tid)
    requires HeldReachable(s) && Enabled(s, SwapStore(t))
    ensures HeldReachable(Next(s, SwapStore(t))) <==> !LosesHeld(s, SwapStore(t))
  {
    var s' := Next(s, SwapStore(t));
    assert s'.held == s.held && s'.retired == s.retired && s'.current == s.calls[t].next;
  }

  lemma OthersReachable(s: State, step: Step)
    requires Counted(s) && HeldReachable(s) && Enabled(s, step)
    requires !step.IncRef? && !step.SwapStore?
    ensures HeldReachable(Next(s, step))
  {
    var s' := Next(s, step);
    match step {
      case DecRef(_, _) => ListKeeps(s, s');
      case Scan(t) =>
        forall snap <- s.held | snap in s.retired
          ensures snap in s'.retired
        {
          ScanKeepsHeld(s, t, snap);
        }
        ListKeeps(s, s');
      case SwapAppend(_) =>
        assert forall snap <- s.retired :: snap in s'.retired;
        ListKeeps(s, s');
      case _ => ListKeeps(s, s');
    }
  }

  lemma ListKeeps(s: State, s': State)
    requires HeldReachable(s) && s'.current == s.current && s'.held <= s.held
    requires forall snap <- s.held :: snap in s.retired ==> snap in s'.retired
    ensures HeldReachable(s')
  {
    assert forall snap <- s'.held :: snap in s.held;
  }

  lemma ScanKeepsHeld(s: State, t: Tid, snap: Snap)
    requires Counted(s) && Enabled(s, Scan(t))
    requires snap in s.held && snap in s.retired
    ensures snap in Next(s, Scan(t)).retired
  {
    DropOther(s.retired, s.calls[t].scanned, snap);
  }

  lemma DropOther(xs: seq<Snap>, k: nat, x: Snap)
    requires k < |xs| && x in xs
    ensures xs[k] != x ==> x in xs[..k] + xs[k + 1..]
  {
    if xs[k] != x {
      assert xs == xs[..k] + [xs[k]] + xs[k + 1..];
    }
  }

  // ------------------------------------------------------------------
  // Which orders of calls keep held snapshots reachable
  // ------------------------------------------------------------------

  /** A Swap from its load of `current` up to its store. */
  predicate Swapping(pc: Pc) { pc.SwapLoaded? || pc.SwapLocked? || pc.SwapMarked? || pc.SwapAppended? }

  /** No Swap begins while another has yet to store. */
  ghost predicate SwapsApart(states: seq<State>, steps: seq<Step>)
    requires |states| == |steps| + 1
  {
    forall i :: 0 <= i < |steps| && steps[i].SwapLoad? ==> NoSwap(states[i])
  }

  /** No Swap stores while an Acquire has loaded but not yet counted its reference. */
  ghost predicate AcquiresApart(states: seq<State>, steps: seq<Step>)
    requires |states| == |steps| + 1
  {
    forall i :: 0 <= i < |steps| && steps[i].SwapStore? ==> NoAcquire(states[i])
  }

  ghost predicate NoSwap(s: State) { forall t <- s.calls :: !Swapping(s.calls[t]) }

  ghost predicate NoAcquire(s: State) { forall t <- s.calls :: !s.calls[t].AcquireLoaded? }

  /** What a call in progress has loaded is still current; what a Swap appended is still retired. */
  predicate PcTracked(s: State, pc: Pc) {
    match pc
    case AcquireLoaded(snap) => s.current == Some(snap)
    case SwapLoaded(previous, _) => s.current == previous
    case SwapLocked(previous, _) => s.current == previous
    case SwapMarked(previous, _) => s.current == previous
    case SwapAppended(_) => s.current.Some? ==> s.current.value in s.retired
    case _ => true
  }

  ghost predicate Tracked(s: State) {
    && (forall t <- s.calls :: PcTracked(s, s.calls[t]))
    && (forall t <- s.calls, u <- s.calls :: Swapping(s.calls[t]) && Swapping(s.calls[u]) ==> t == u)
  }

  /** A step that leaves `current` alone and drops nothing a Swap relies on keeps every other call tracked. */
  lemma OthersTracked(s: State, s': State, t: Tid)
    requires Tracked(s) && OnlyMoves(s, s', t) && s'.current == s.current
    requires s'.retired != s.retired ==> forall u <- s.calls :: u != t ==> !s.calls[u].SwapAppended?
    requires t in s'.calls ==> PcTracked(s', s'.calls[t])
    requires t in s'.calls && Swapping(s'.calls[t]) ==> NoSwap(s) || (t in s.calls && Swapping(s.calls[t]))
    ensures Tracked(s')
  {}

  lemma StoreTracked(s: State, t: Tid)
    requires Tracked(s) && Enabled(s, SwapStore(t)) && NoAcquire(s)
    ensures Tracked(Next(s, SwapStore(t)))
  {
    OthersStay(s, SwapStore(t));
    var s' := Next(s, SwapStore(t));
    forall u <- s'.calls
      ensures PcTracked(s', s'.calls[u])
    {
      if u != t {
        assert PcTracked(s, s.calls[u]) && !Swapping(s.calls[u]);
      }
    }
  }

  /** Only the call that holds the mutex changes the retired list, so no other Swap is past its append. */
  lemma AppendedAlone(s: State, step: Step)
    requires Locked(s) && Enabled(s, step)
    ensures NextRetired(s, step) != s.retired ==> forall u <- s.calls :: u != step.t ==> !s.calls[u].SwapAppended?
  {
    if step.Scan? || step.SwapAppend? {
      assert s.lock == Some(step.t);
    }
  }

  lemma TrackedKept(s: State, step: Step)
    requires Inv(s) && Tracked(s) && Enabled(s, step)
    requires step.SwapLoad? ==> NoSwap(s)
    requires step.SwapStore? ==> NoAcquire(s)
    ensures Tracked(Next(s, step))
  {
    if step.SwapStore? {
      StoreTracked(s, step.t);
    } else {
      OthersStay(s, step);
      AppendedAlone(s, step);
      StepperTracked(s, step);
      OthersTracked(s, Next(s, step), step.t);
    }
  }

  lemma StepperTracked(s: State, step: Step)
    requires Tracked(s) && Enabled(s, step) && !step.SwapStore?
    requires step.SwapLoad? ==> NoSwap(s)
    ensures
      var t, s' := step.t, Next(s, step);
      t in s'.calls ==>
        && PcTracked(s', s'.calls[t])
        && (Swapping(s'.calls[t]) ==> NoSwap(s) || (t in s.calls && Swapping(s.calls[t])))
  {
    assert step.t in s.calls ==> PcTracked(s, s.calls[step.t]);
  }

  /**
   For every run from a fresh store: if Swaps do not overlap and none stores
   between the load and the increment of an Acquire, every held snapshot is
   current or retired in every state.
   */
  lemma {:induction false} HeldReachableInOrder(initial: Option<Snap>, states: seq<State>, steps: seq<Step>, i: nat)
    requires IsRun(states, steps) && states[0] == Init(initial) && i <= |steps|
    requires SwapsApart(states, steps) && AcquiresApart(states, steps)
    ensures Tracked(states[i]) && HeldReachable(states[i])
  {
    if i != 0 {
      var s, step := states[i - 1], steps[i - 1];
      HeldReachableInOrder(initial, states, steps, i - 1);
      InvAlong(states, steps, i - 1);
      TrackedKept(s, step);
      NothingLost(s, step);
      ReachableExactly(s, step);
    }
  }

  lemma NothingLost(s: State, step: Step)
    requires Tracked(s) && Enabled(s, step)
    ensures !LosesHeld(s, step)
  {
    assert step.t in s.calls ==> PcTracked(s, s.calls[step.t]);
  }

  /** Which of the two orders a program keeps to. */
  datatype Order = Order(swapsApart: bool, acquiresApart: bool)

  ghost predicate Keeps(order: Order, states: seq<State>, steps: seq<Step>)
    requires |states| == |steps| + 1
  {
    (order.swapsApart ==> SwapsApart(states, steps)) && (order.acquiresApart ==> AcquiresApart(states, steps))
  }

  ghost predicate RunTo(order: Order, initial: Option<Snap>, s: State, states: seq<State>, steps: seq<Step>) {
    IsRun(states, steps) && Keeps(order, states, steps) && states[0] == Init(initial) && states[|steps|] == s
  }

  ghost predicate ReachableIn(order: Order, initial: Option<Snap>, s: State) {
    exists states: seq<State>, steps: seq<Step> :: RunTo(order, initial, s, states, steps)
  }

  /** Whatever the store starts with, held snapshots stay reachable exactly under both orders together. */
  lemma ReachableExactlyInOrder(order: Order, initial: Option<Snap>)
    ensures (forall s: State :: ReachableIn(order, initial, s) ==> HeldReachable(s))
       <==> order.swapsApart && order.acquiresApart
  {
    if order.swapsApart && order.acquiresApart {
      forall s: State | ReachableIn(order, initial, s)
        ensures HeldReachable(s)
      {
        var states: seq<State>, steps: seq<Step> :| RunTo(order, initial, s, states, steps);
        HeldReachableInOrder(initial, states, steps, |steps|);
      }
    } else if !order.acquiresApart {
      var s := AcquireOvertaken(order, initial);
    } else {
      var s := SwapsOverlap(order, initial);
    }
  }

  lemma Extend(order: Order, initial: Option<Snap>, s: State, step: Step, s': State)
    requires ReachableIn(order, initial, s) && Enabled(s, step) && Next(s, step) == s'
    requires order.swapsApart && step.SwapLoad? ==> NoSwap(s)
    requires order.acquiresApart && step.SwapStore? ==> NoAcquire(s)
    ensures ReachableIn(order, initial, s')
  {
    var states: seq<State>, steps: seq<Step> :| RunTo(order, initial, s, states, steps);
    LongerRun(states, steps, step, s');
    LongerKeeps(order, states, steps, step, s');
    assert RunTo(order, initial, s', states + [s'], steps + [step]);
  }

  lemma LongerRun(states: seq<State>, steps: seq<Step>, step: Step, s': State)
    requires IsRun(states, steps) && Enabled(states[|steps|], step) && s' == Next(states[|steps|], step)
    ensures IsRun(states + [s'], steps + [step])
  {}

  lemma LongerKeeps(order: Order, states: seq<State>, steps: seq<Step>, step: Step, s': State)
    requires |states| == |steps| + 1 && Keeps(order, states, steps)
    requires order.swapsApart && step.SwapLoad? ==> NoSwap(states[|steps|])
    requires order.acquiresApart && step.SwapStore? ==> NoAcquire(states[|steps|])
    ensures Keeps(order, states + [s'], steps + [step])
  {}

  /** Some snapshot is current and the store otherwise as new: at once, or after a first Swap. */
  lemma Start(order: Order, initial: Option<Snap>) returns (x: Snap)
    ensures ReachableIn(order, initial, Init(Some(x)))
  {
    assert RunTo(order, initial, Init(initial), [Init(initial)], []);
    if initial.Some? {
      x := initial.value;
    } else {
      x := 1;
      FirstSwap(order, Some(1));
    }
  }

  lemma FirstSwap(order: Order, next: Option<Snap>)
    requires ReachableIn(order, None, Init(None))
    ensures ReachableIn(order, None, Init(next))
  {
    var s := Init(None);
    var s1 := s.(calls := map[0 := SwapLoaded(None, next)]);
    Extend(order, None, s, SwapLoad(0, next), s1);
    var s2 := s.(lock := Some(0), calls := map[0 := SwapLocked(None, next)]);
    Extend(order, None, s1, SwapLock(0), s2);
    FirstMark(order, s2, next);
  }

  lemma FirstMark(order: Order, s2: State, next: Option<Snap>)
    requires s2 == Init(None).(lock := Some(0), calls := map[0 := SwapLocked(None, next)])
    requires ReachableIn(order, None, s2)
    ensures ReachableIn(order, None, Init(next))
  {
    var s3 := s2.(calls := map[0 := SwapMarked(None, next)]);
    Extend(order, None, s2, SwapMark(0), s3);
    var s4 := s3.(calls := map[0 := SwapAppended(next)]);
    Extend(order, None, s3, SwapAppend(0), s4);
    FirstStore(order, s4, next);
  }

  lemma FirstStore(order: Order, s4: State, next: Option<Snap>)
    requires s4 == Init(None).(lock := Some(0), calls := map[0 := SwapAppended(next)])
    requires ReachableIn(order, None, s4)
    ensures ReachableIn(order, None, Init(next))
  {
    var s := Init(next);
    var s5 := s.(lock := Some(0), calls := map[0 := SwapStored]);
    Extend(order, None, s4, SwapStore(0), s5);
    var s6 := s.(calls := map[0 := WantReap]);
    Extend(order, None, s5, SwapUnlock(0), s6);
    FirstReap(order, s6, next);
  }

  lemma FirstReap(order: Order, s6: State, next: Option<Snap>)
    requires s6 == Init(next).(calls := map[0 := WantReap]) && ReachableIn(order, None, s6)
    ensures ReachableIn(order, None, Init(next))
  {
    var s := Init(next);
    var s7 := s.(lock := Some(0), calls := map[0 := Reaping(0)]);
    Extend(order, None, s6, LockReap(0), s7);
    assert s7.calls - {0} == map[];
    Extend(order, None, s7, FinishReap(0), s);
  }

  /** Thread `t`, which loaded `previous`, goes through the mutex and stores. */
  lemma Install(order: Order, initial: Option<Snap>, s: State, t: Tid, previous: Snap, next: Option<Snap>) returns (s': State)
    requires ReachableIn(order, initial, s) && s.At(t, SwapLoaded(Some(previous), next)) && s.lock.None?
    requires order.acquiresApart ==> NoAcquire(s)
    ensures ReachableIn(order, initial, s')
    ensures s' == State(next, s.retired + [previous], s.marked + {previous}, s.refs, Some(t), s.calls[t := SwapStored], s.held)
  {
    var s1 := s.(lock := Some(t), calls := s.calls[t := SwapLocked(Some(previous), next)]);
    Extend(order, initial, s, SwapLock(t), s1);
    var s2 := s1.(marked := s.marked + {previous}, calls := s.calls[t := SwapMarked(Some(previous), next)]);
    Extend(order, initial, s1, SwapMark(t), s2);
    s' := AppendAndStore(order, initial, s2, t, previous, next);
  }

  lemma AppendAndStore(order: Order, initial: Option<Snap>, s2: State, t: Tid, previous: Snap, next: Option<Snap>)
    returns (s': State)
    requires ReachableIn(order, initial, s2) && s2.At(t, SwapMarked(Some(previous), next))
    requires order.acquiresApart ==> NoAcquire(s2)
    ensures ReachableIn(order, initial, s')
    ensures s' == s2.(current := next, retired := s2.retired + [previous], calls := s2.calls[t := SwapStored])
  {
    var s3 := s2.(retired := s2.retired + [previous], calls := s2.calls[t := SwapAppended(next)]);
    Extend(order, initial, s2, SwapAppend(t), s3);
    s' := s3.(current := next, calls := s2.calls[t := SwapStored]);
    Extend(order, initial, s3, SwapStore(t), s');
  }

  /** An Acquire overtaken by a whole Swap ends up with a snapshot that is neither current nor retired. */
  lemma AcquireOvertaken(order: Order, initial: Option<Snap>) returns (s: State)
    requires !order.acquiresApart
    ensures ReachableIn(order, initial, s) && !HeldReachable(s)
  {
    var x := Start(order, initial);
    s := Init(Some(x)).(calls := map[0 := AcquireLoaded(x)]);
    Extend(order, initial, Init(Some(x)), Load(0), s);
    var s1 := s.(calls := map[0 := AcquireLoaded(x), 1 := SwapLoaded(Some(x), None)]);
    Extend(order, initial, s, SwapLoad(1, None), s1);
    s := Install(order, initial, s1, 1, x, None);
    s := Overtaken(order, initial, s, x);
  }

  lemma Overtaken(order: Order, initial: Option<Snap>, s: State, x: Snap) returns (s': State)
    requires !order.acquiresApart && ReachableIn(order, initial, s)
    requires s.lock == Some(1) && s.calls == map[0 := AcquireLoaded(x), 1 := SwapStored]
    requires s.retired == [x] && s.RefCount(x) == 0 && s.current == None
    ensures ReachableIn(order, initial, s') && !HeldReachable(s')
  {
    var s1 := s.(lock := None, calls := s.calls[1 := WantReap]);
    Extend(order, initial, s, SwapUnlock(1), s1);
    var s2 := s.(calls := s.calls[1 := Reaping(0)]);
    Extend(order, initial, s1, LockReap(1), s2);
    s' := OvertakenReap(order, initial, s2, x);
  }

  lemma OvertakenReap(order: Order, initial: Option<Snap>, s2: State, x: Snap) returns (s': State)
    requires !order.acquiresApart && ReachableIn(order, initial, s2)
    requires s2.lock == Some(1) && s2.calls == map[0 := AcquireLoaded(x), 1 := Reaping(0)]
    requires s2.retired == [x] && s2.RefCount(x) == 0 && s2.current == None
    ensures ReachableIn(order, initial, s') && !HeldReachable(s')
  {
    var s3 := s2.(retired := []);
    Extend(order, initial, s2, Scan(1), s3);
    var s4 := s3.(lock := None, calls := s2.calls - {1});
    Extend(order, initial, s3, FinishReap(1), s4);
    s' := s4.(calls := s4.calls - {0}, refs := s2.refs[x := 1], held := s2.held + multiset{x});
    Extend(order, initial, s4, IncRef(0), s');
    assert x in s'.held;
  }

  /** Two Swaps that loaded the same snapshot: the second stores over the first one's, which nobody retires. */
  lemma SwapsOverlap(order: Order, initial: Option<Snap>) returns (s: State)
    requires !order.swapsApart
    ensures ReachableIn(order, initial, s) && !HeldReachable(s)
  {
    var x := Start(order, initial);
    var y := x + 1;
    s := Init(Some(x)).(calls := map[1 := SwapLoaded(Some(x), Some(y))]);
    Extend(order, initial, Init(Some(x)), SwapLoad(1, Some(y)), s);
    var s1 := s.(calls := map[1 := SwapLoaded(Some(x), Some(y)), 2 := SwapLoaded(Some(x), None)]);
    Extend(order, initial, s, SwapLoad(2, None), s1);
    s := Install(order, initial, s1, 1, x, Some(y));
    s := Overlapped(order, initial, s, x, y);
  }

  lemma Overlapped(order: Order, initial: Option<Snap>, s: State, x: Snap, y: Snap) returns (s': State)
    requires !order.swapsApart && ReachableIn(order, initial, s) && x != y
    requires s.lock == Some(1) && s.calls == map[1 := SwapStored, 2 := SwapLoaded(Some(x), None)]
    requires s.retired == [x] && s.current == Some(y) && s.RefCount(y) == 0
    ensures ReachableIn(order, initial, s') && !HeldReachable(s')
  {
    var s1 := s.(lock := None, calls := s.calls[1 := WantReap]);
    Extend(order, initial, s, SwapUnlock(1), s1);
    var s2 := s1.(calls := s1.calls[0 := AcquireLoaded(y)]);
    Extend(order, initial, s1, Load(0), s2);
    s' := OverlappedAcquire(order, initial, s2, x, y);
  }

  lemma OverlappedAcquire(order: Order, initial: Option<Snap>, s: State, x: Snap, y: Snap) returns (s': State)
    requires ReachableIn(order, initial, s) && x != y
    requires s.lock == None && s.calls == map[0 := AcquireLoaded(y), 1 := WantReap, 2 := SwapLoaded(Some(x), None)]
    requires s.retired == [x] && s.RefCount(y) == 0
    ensures ReachableIn(order, initial, s') && !HeldReachable(s')
  {
    var s3 := s.(calls := s.calls - {0}, refs := s.refs[y := 1], held := s.held + multiset{y});
    Extend(order, initial, s, IncRef(0), s3);
    s' := OverlappedStore(order, initial, s3, x, y);
  }

  lemma OverlappedStore(order: Order, initial: Option<Snap>, s: State, x: Snap, y: Snap) returns (s': State)
    requires ReachableIn(order, initial, s) && x != y
    requires s.lock == None && s.calls == map[1 := WantReap, 2 := SwapLoaded(Some(x), None)]
    requires s.retired == [x] && y in s.held
    ensures ReachableIn(order, initial, s') && !HeldReachable(s')
  {
    s' := Install(order, initial, s, 2, x, None);
    assert y in s'.held && s'.retired == [x, x];
  }
}
