/**
 The snapshot store at the granularity of whole calls, one Swap at a time,
 and the staged rollout that drives it.
 */
module SnapshotStore {

  class Snapshot {
    var refCount: int
    /** Nanosecond instant of retirement; 0 if it never happened. */
    var retiredAt: int

    constructor ()
      ensures refCount == 0 && retiredAt == 0
    {
      refCount, retiredAt := 0, 0;
    }

    method IncRef()
      modifies `refCount
      ensures refCount == old(refCount) + 1
    {
      refCount := refCount + 1;
    }

    method DecRef()
      modifies `refCount
      ensures refCount == old(refCount) - 1
    {
      refCount := refCount - 1;
    }

    method MarkRetired(now: int)
      modifies `retiredAt
      ensures retiredAt == now
    {
      retiredAt := now;
    }

    predicate Retired()
      reads `retiredAt
    {
      retiredAt > 0
    }
  }

  /** The entries of a retired list that someone still holds. */
  function Kept(list: seq<Snapshot>, held: multiset<Snapshot>): seq<Snapshot> {
    if list == [] then []
    else
      var front, last := list[..|list| - 1], list[|list| - 1];
      Kept(front, held) + if last in held then [last] else []
  }

  lemma KeptSnoc(list: seq<Snapshot>, last: Snapshot, held: multiset<Snapshot>)
    ensures Kept(list + [last], held) == if last in held then Kept(list, held) + [last] else Kept(list, held)
  {
    assert (list + [last])[..|list|] == list;
  }

  /** Filtering keeps exactly the held entries. */
  lemma {:induction false} KeptIsHeld(list: seq<Snapshot>, held: multiset<Snapshot>)
    ensures forall s <- Kept(list, held) :: s in list && s in held
    ensures forall s <- list :: s in held ==> s in Kept(list, held)
  {
    if list != [] {
      KeptIsHeld(list[..|list| - 1], held);
      assert list == list[..|list| - 1] + [list[|list| - 1]];
    }
  }

  lemma {:induction false} KeptAll(list: seq<Snapshot>, held: multiset<Snapshot>)
    requires forall s <- list :: s in held
    ensures Kept(list, held) == list
  {
    if list != [] {
      KeptAll(list[..|list| - 1], held);
      assert list == list[..|list| - 1] + [list[|list| - 1]];
    }
  }

  class Store {
    var current: Snapshot?
    var retired: seq<Snapshot>
    /** Every snapshot that was ever installed. */
    ghost var known: set<Snapshot>
    /** The references handed out by Acquire and not yet released. */
    ghost var held: multiset<Snapshot>

    /** Counts match the references out; what is held is current or retired; what is retired is held. */
    ghost predicate Valid()
      reads this, known
    {
      && Consistent()
      && forall s <- retired :: s in held
    }

    /** All of Valid but for retired entries nobody holds, which a Reap is about to drop. */
    ghost predicate Consistent()
      reads this, known
    {
      && (current != null ==> current in known)
      && (forall s <- retired :: s in known && s.Retired())
      && (forall s <- held :: s in known && (s == current || s in retired))
      && Counted()
    }

    ghost predicate Counted()
      reads this, known
    {
      forall s <- known :: s.refCount == held[s]
    }

    constructor (initial: Snapshot?)
      requires initial != null ==> initial.refCount == 0
      ensures Valid() && current == initial && retired == [] && held == multiset{}
      ensures known == if initial == null then {} else {initial}
    {
      current, retired := initial, [];
      known := if initial == null then {} else {initial};
      held := multiset{};
    }

    method Acquire() returns (snapshot: Snapshot?)
      requires Valid()
      modifies `held, current
      ensures Valid() && snapshot == current
      ensures held == old(held) + if snapshot == null then multiset{} else multiset{snapshot}
      ensures snapshot != null ==> snapshot.retiredAt == old(snapshot.retiredAt)
    {
      snapshot := current;
      if snapshot == null {
        return;
      }
      snapshot.IncRef();
      held := held + multiset{snapshot};
    }

    /** Releasing the last reference to a retired snapshot drops it from the list, and nothing else. */
    method Release(snapshot: Snapshot?)
      requires Valid()
      requires snapshot != null ==> snapshot in held
      modifies `held, `retired, snapshot
      ensures Valid()
      ensures held == old(held) - if snapshot == null then multiset{} else multiset{snapshot}
      ensures retired == Kept(old(retired), held)
      ensures snapshot != null ==> snapshot.retiredAt == old(snapshot.retiredAt)
    {
      if snapshot == null {
        KeptAll(retired, held);
        return;
      }
      DropReference(snapshot);
      if snapshot.Retired() && snapshot.refCount == 0 {
        Reap();
      } else {
        assert forall s <- retired :: s in held;
        KeptAll(retired, held);
      }
    }

    /** The decrement of a Release; it may leave its own snapshot retired and unheld. */
    method DropReference(snapshot: Snapshot)
      requires Valid() && snapshot in held
      modifies `held, snapshot
      ensures Consistent() && held == old(held) - multiset{snapshot}
      ensures forall s <- retired :: s != snapshot ==> s in held
      ensures snapshot in known && snapshot.retiredAt == old(snapshot.retiredAt)
    {
      snapshot.DecRef();
      held := held - multiset{snapshot};
      assert forall s <- held :: s in old(held);
    }

    /**
     The outgoing snapshot joins the retired list exactly if it is held. The
     incoming one may be new or, on a rollback, one that was retired before.
     */
    method Swap(next: Snapshot?, now: int)
      requires Valid() && 0 < now
      requires next == null || next in known || next.refCount == 0
      modifies this, current
      ensures Valid() && current == next && held == old(held)
      ensures known == old(known) + if next == null then {} else {next}
      ensures retired == if old(current) != null && old(current) in held then old(retired) + [old(current)]
                         else old(retired)
      ensures old(current) != null ==> old(current).refCount == old(current.refCount)
    {
      KeptAll(retired, held);
      if current != null {
        KeptSnoc(retired, current, held);
      }
      Install(next, now);
      Reap();
    }

    /** The critical section of a Swap: stamp and append the outgoing snapshot, store the incoming one. */
    method Install(next: Snapshot?, now: int)
      requires Valid() && 0 < now
      requires next == null || next in known || next.refCount == 0
      modifies this, current
      ensures Consistent() && current == next && held == old(held)
      ensures known == old(known) + if next == null then {} else {next}
      ensures retired == if old(current) == null then old(retired) else old(retired) + [old(current)]
      ensures old(current) != null ==> old(current).refCount == old(current.refCount)
    {
      var previous := current;
      if previous != null {
        previous.MarkRetired(now);
        retired := retired + [previous];
      }
      current := next;
      known := known + if next == null then {} else {next};
    }

    method Reap()
      requires Consistent()
      modifies `retired
      ensures Valid() && retired == Kept(old(retired), held)
    {
      if |retired| == 0 {
        return;
      }
      KeptIsHeld(retired, held);
      Compact();
    }

    /** The in-place filter: kept entries move to the front, then the tail is cut off. */
    method Compact()
      requires Counted() && forall s <- retired :: s in known
      modifies `retired
      ensures retired == Kept(old(retired), held)
    {
      ghost var before := retired;
      var k, i := 0, 0;
      while i < |retired|
        invariant 0 <= k <= i <= |retired| == |before|
        invariant retired[..k] == Kept(before[..i], held)
        invariant retired[i..] == before[i..]
      {
        var snapshot := retired[i];
        assert snapshot == retired[i..][0] == before[i];
        assert before[..i + 1][..i] == before[..i];
        if snapshot.refCount != 0 {
          retired := retired[k := snapshot];
          k := k + 1;
        }
        i := i + 1;
      }
      assert before[..i] == before;
      retired := retired[..k];
    }
  }

  // ------------------------------------------------------------------
  // Staged rollout
  // ------------------------------------------------------------------

  datatype Outcome = Rejected | LockFailed | Cancelled | Gated | FullFailed | Applied

  /** What the rest of the system answers during one rollout. */
  datatype Answers = Answers(validates: bool, locks: bool, bakes: bool, gates: bool, applies: bool)

  /**
   A bundle goes live in stages: validate, install the locked form, bake,
   check the gates, install the full form. Only a cancelled bake leaves the
   locked form in place; every other failure leaves the store serving the
   snapshot it served before, even though that one was retired in between.
   */
  method ApplyBundle(store: Store, answers: Answers, locked: Snapshot, full: Snapshot, now: int)
    returns (outcome: Outcome)
    requires store.Valid() && 0 < now
    requires locked !in store.known && full !in store.known && locked != full
    requires locked.refCount == 0 && full.refCount == 0
    modifies store, store.current, locked
    ensures store.Valid() && store.held == old(store.held)
    ensures outcome == if !answers.validates then Rejected else if !answers.locks then LockFailed
                       else if !answers.bakes then Cancelled else if !answers.gates then Gated
                       else if !answers.applies then FullFailed else Applied
    ensures store.current == match outcome
                             case Applied => full
                             case Cancelled => locked
                             case _ => if old(store.current) == null && !outcome.Rejected? && !outcome.LockFailed?
                                       then locked else old(store.current)
    ensures forall s <- old(store.held) :: s == store.current || s in store.retired
  {
    var previous := store.current;
    if !answers.validates {
      return Rejected;
    }
    if !answers.locks {
      return LockFailed;
    }
    store.Swap(locked, now);
    if !answers.bakes {
      return Cancelled;
    }
    if !answers.gates {
      Rollback(store, previous, now);
      return Gated;
    }
    if !answers.applies {
      Rollback(store, previous, now);
      return FullFailed;
    }
    store.Swap(full, now);
    return Applied;
  }

  method Rollback(store: Store, previous: Snapshot?, now: int)
    requires store.Valid() && 0 < now
    requires previous != null ==> previous in store.known
    modifies store, store.current
    ensures store.Valid() && store.held == old(store.held)
    ensures store.current == if previous == null then old(store.current) else previous
  {
    if previous == null {
      return;
    }
    store.Swap(previous, now);
  }
}
