/**
 Sliding-window request counters of a traffic plan, and the controller that
 drains the canary when its error rate is too high.

 Times are nanoseconds; 0 is the zero time, which no clock reading equals.
 The class keeps a ghost history of every recorded request, and the invariant
 ties each slot of the ring to a slice of that history.
 */
module TrafficStats {

  const SECOND: int := 1_000_000_000
  const MINUTE: int := 60 * SECOND

  datatype Variant = Stable | Canary

  /** A recorded request: when it was recorded, for which variant, and whether it failed. */
  datatype Event = Event(at: int, variant: Variant, isError: bool)

  /** The four quantities a window is asked for. */
  datatype Kind = StableReq | StableErr | CanaryReq | CanaryErr

  datatype Counts = Counts(stableReq: nat, stableErr: nat, canaryReq: nat, canaryErr: nat) {
    function Get(kind: Kind): nat {
      match kind
      case StableReq => stableReq
      case StableErr => stableErr
      case CanaryReq => canaryReq
      case CanaryErr => canaryErr
    }

    function Plus(c: Counts): (r: Counts)
      ensures forall kind: Kind :: r.Get(kind) == Get(kind) + c.Get(kind)
    {
      Counts(stableReq + c.stableReq, stableErr + c.stableErr, canaryReq + c.canaryReq, canaryErr + c.canaryErr)
    }
  }

  const ZERO := Counts(0, 0, 0, 0)

  datatype Bucket = Bucket(start: int, counts: Counts)

  predicate Matches(e: Event, kind: Kind) {
    match kind
    case StableReq => e.variant == Stable
    case StableErr => e.variant == Stable && e.isError
    case CanaryReq => e.variant == Canary
    case CanaryErr => e.variant == Canary && e.isError
  }

  /** How many events of a kind happened at or after `lo`. */
  function Since(hist: seq<Event>, kind: Kind, lo: int): nat {
    if hist == [] then 0
    else
      var e := hist[|hist| - 1];
      Since(hist[..|hist| - 1], kind, lo) + if Matches(e, kind) && lo <= e.at then 1 else 0
  }

  function Max(a: int, b: int): int { if a < b then b else a }

  // ------------------------------------------------------------------
  // Facts about the history
  // ------------------------------------------------------------------

  lemma {:induction false} SinceAntitone(hist: seq<Event>, kind: Kind, lo: int, hi: int)
    requires lo <= hi
    ensures Since(hist, kind, hi) <= Since(hist, kind, lo)
  {
    if hist != [] {
      SinceAntitone(hist[..|hist| - 1], kind, lo, hi);
    }
  }

  lemma {:induction false} NoneSince(hist: seq<Event>, kind: Kind, lo: int)
    requires forall e <- hist :: e.at < lo
    ensures Since(hist, kind, lo) == 0
  {
    if hist != [] {
      NoneSince(hist[..|hist| - 1], kind, lo);
    }
  }

  lemma SinceSnoc(hist: seq<Event>, e: Event, kind: Kind, lo: int)
    ensures Since(hist + [e], kind, lo)
         == Since(hist, kind, lo) + if Matches(e, kind) && lo <= e.at then 1 else 0
  {
    assert (hist + [e])[..|hist|] == hist;
  }

  /** The four totals of a window, each as the number of recorded requests it counts. */
  lemma TotalsMean(totals: Counts, hist: seq<Event>, since: int)
    requires forall kind: Kind :: totals.Get(kind) == Since(hist, kind, since)
    ensures totals.stableReq == |set i | 0 <= i < |hist| && hist[i].variant == Stable && since <= hist[i].at|
    ensures totals.stableErr == |set i | 0 <= i < |hist| && hist[i].variant == Stable && hist[i].isError && since <= hist[i].at|
    ensures totals.canaryReq == |set i | 0 <= i < |hist| && hist[i].variant == Canary && since <= hist[i].at|
    ensures totals.canaryErr == |set i | 0 <= i < |hist| && hist[i].variant == Canary && hist[i].isError && since <= hist[i].at|
  {
    CountIs(hist, StableReq, since, set i | 0 <= i < |hist| && hist[i].variant == Stable && since <= hist[i].at);
    CountIs(hist, StableErr, since,
            set i | 0 <= i < |hist| && hist[i].variant == Stable && hist[i].isError && since <= hist[i].at);
    CountIs(hist, CanaryReq, since, set i | 0 <= i < |hist| && hist[i].variant == Canary && since <= hist[i].at);
    CountIs(hist, CanaryErr, since,
            set i | 0 <= i < |hist| && hist[i].variant == Canary && hist[i].isError && since <= hist[i].at);
    assert totals.Get(StableReq) == totals.stableReq && totals.Get(StableErr) == totals.stableErr;
    assert totals.Get(CanaryReq) == totals.canaryReq && totals.Get(CanaryErr) == totals.canaryErr;
  }

  lemma {:induction false} CountIs(hist: seq<Event>, kind: Kind, since: int, counted: set<int>)
    requires forall i :: i in counted <==> 0 <= i < |hist| && Matches(hist[i], kind) && since <= hist[i].at
    ensures |counted| == Since(hist, kind, since)
  {
    if hist == [] {
      assert forall i :: i !in counted;
    } else {
      CountIs(hist[..|hist| - 1], kind, since, counted - {|hist| - 1});
    }
  }

  // ------------------------------------------------------------------
  // The ring invariant
  // ------------------------------------------------------------------

  /** The `j`-th bucket boundary counted back from `top`, the end of the current bucket. */
  function Edge(top: int, width: int, j: nat): int {
    if j == 0 then top else Edge(top, width, j - 1) - width
  }

  lemma {:induction false} EdgeIs(top: int, width: int, j: nat)
    ensures Edge(top, width, j) == top - j * width
  {
    if j != 0 {
      EdgeIs(top, width, j - 1);
    }
  }

  lemma {:induction false} EdgeShifts(top: int, width: int, j: nat)
    ensures Edge(top + width, width, j + 1) == Edge(top, width, j)
  {
    if j != 0 {
      EdgeShifts(top, width, j - 1);
    }
  }

  lemma {:induction false} EdgeOrder(top: int, width: int, i: nat, j: nat)
    requires 0 < width && i <= j
    ensures Edge(top, width, j) <= Edge(top, width, i)
  {
    if i < j {
      EdgeOrder(top, width, i, j - 1);
    }
  }

  /** Index of the slot that is `k` rotations behind slot `current`. */
  function Behind(current: int, k: int, n: int): (i: int)
    requires 0 <= current < n && 0 <= k < n
    ensures 0 <= i < n
  {
    if k <= current then current - k else current - k + n
  }

  /** A slot holds exactly the events of [lo, hi); an unset slot holds none. */
  ghost predicate SlotOk(b: Bucket, lo: int, hi: int, hist: seq<Event>) {
    && (b.start == lo || b.start == 0)
    && (b.start == 0 ==> b.counts == ZERO)
    && forall kind: Kind :: b.counts.Get(kind) == Since(hist, kind, lo) - Since(hist, kind, hi)
  }

  ghost predicate RingOk(ring: seq<Bucket>, current: int, top: int, width: int, hist: seq<Event>)
    requires 0 <= current < |ring|
  {
    && ring[current].start == top - width
    && (forall e <- hist :: e.at < top)
    && forall k :: 0 <= k < |ring| ==>
         SlotOk(ring[Behind(current, k, |ring|)], Edge(top, width, k + 1), Edge(top, width, k), hist)
  }

  /** A slot no event has reached yet is right to be empty. */
  lemma EmptySlotOk(start: int, lo: int, hi: int, hist: seq<Event>)
    requires lo <= hi && (start == lo || start == 0)
    requires forall e <- hist :: e.at < lo
    ensures SlotOk(Bucket(start, ZERO), lo, hi, hist)
  {
    forall kind: Kind
      ensures ZERO.Get(kind) == Since(hist, kind, lo) - Since(hist, kind, hi)
    {
      NoneSince(hist, kind, lo);
      NoneSince(hist, kind, hi);
    }
  }

  lemma NextSlot(current: int, n: int)
    requires 0 <= current < n
    ensures (current + 1) % n == if current + 1 == n then 0 else current + 1
  {}

  /** One slot further on, everything is one more rotation behind. */
  lemma BehindNext(current: int, next: int, k: int, n: int)
    requires 0 <= current < n && 0 < k < n && next == if current + 1 == n then 0 else current + 1
    ensures Behind(next, k, n) == Behind(current, k - 1, n) != next
  {}

  /** Advancing the ring by one slot, onto an emptied bucket, keeps the invariant. */
  lemma RingAdvances(ring: seq<Bucket>, current: int, top: int, width: int, hist: seq<Event>)
    requires 0 <= current < |ring| && 0 < width
    requires RingOk(ring, current, top, width, hist)
    ensures
      var next := (current + 1) % |ring|;
      RingOk(ring[next := Bucket(top, ZERO)], next, top + width, width, hist)
  {
    var n := |ring|;
    var next := (current + 1) % n;
    var ring' := ring[next := Bucket(top, ZERO)];
    NextSlot(current, n);
    forall k | 0 <= k < n
      ensures SlotOk(ring'[Behind(next, k, n)], Edge(top + width, width, k + 1), Edge(top + width, width, k), hist)
    {
      if k == 0 {
        EmptySlotOk(top, top, top + width, hist);
        assert Edge(top + width, width, 1) == top;
      } else {
        BehindNext(current, next, k, n);
        assert SlotOk(ring[Behind(current, k - 1, n)], Edge(top, width, k), Edge(top, width, k - 1), hist);
        EdgeShifts(top, width, k);
        EdgeShifts(top, width, k - 1);
      }
    }
  }

  /** Clearing the whole ring is right once every event is older than the ring reaches. */
  lemma RingCleared(ring: seq<Bucket>, now: int, width: int, hist: seq<Event>)
    requires 0 < |ring| && 0 < width
    requires forall i :: 0 <= i < |ring| ==> ring[i] == Bucket(if i == 0 then now else 0, ZERO)
    requires forall e <- hist :: e.at < Edge(now + width, width, |ring|)
    ensures RingOk(ring, 0, now + width, width, hist)
  {
    var n, top := |ring|, now + width;
    EdgeOrder(top, width, 0, n);
    forall k | 0 <= k < n
      ensures SlotOk(ring[Behind(0, k, n)], Edge(top, width, k + 1), Edge(top, width, k), hist)
    {
      EdgeOrder(top, width, k + 1, n);
      EmptySlotOk(ring[Behind(0, k, n)].start, Edge(top, width, k + 1), Edge(top, width, k), hist);
    }
  }

  /** Counting one more event in the current slot keeps the invariant. */
  lemma RingRecords(ring: seq<Bucket>, current: int, top: int, width: int, hist: seq<Event>, e: Event, counts: Counts)
    requires 0 <= current < |ring| && 0 < width
    requires RingOk(ring, current, top, width, hist)
    requires 0 < top - width <= e.at < top
    requires forall kind: Kind ::
               counts.Get(kind) == ring[current].counts.Get(kind) + if Matches(e, kind) then 1 else 0
    ensures RingOk(ring[current := Bucket(top - width, counts)], current, top, width, hist + [e])
  {
    var n := |ring|;
    var ring' := ring[current := Bucket(top - width, counts)];
    forall k | 0 <= k < n
      ensures SlotOk(ring'[Behind(current, k, n)], Edge(top, width, k + 1), Edge(top, width, k), hist + [e])
    {
      var lo, hi := Edge(top, width, k + 1), Edge(top, width, k);
      assert SlotOk(ring[Behind(current, k, n)], lo, hi, hist);
      if k == 0 {
        assert lo == top - width;
      } else {
        EdgeOrder(top, width, 1, k);
        assert Edge(top, width, 1) == top - width;
      }
      forall kind: Kind
        ensures ring'[Behind(current, k, n)].counts.Get(kind)
             == Since(hist + [e], kind, lo) - Since(hist + [e], kind, hi)
      {
        SinceSnoc(hist, e, kind, lo);
        SinceSnoc(hist, e, kind, hi);
      }
    }
  }

  // ------------------------------------------------------------------
  // Summing the live slots
  // ------------------------------------------------------------------

  /** The oldest slot, counted back from slot `k`, that starts at or after `cutoff`. */
  function OldestLive(k: nat, top: int, width: int, cutoff: int, n: nat): (m: nat)
    requires k < n && 0 < width && cutoff <= Edge(top, width, k + 1)
    ensures k <= m < n && cutoff <= Edge(top, width, m + 1)
    ensures m == n - 1 || Edge(top, width, m + 2) < cutoff
    decreases n - k
  {
    if k == n - 1 || Edge(top, width, k + 2) < cutoff then k
    else OldestLive(k + 1, top, width, cutoff, n)
  }

  /** Events at or after both `x` and `since`. */
  function Clipped(hist: seq<Event>, kind: Kind, since: int, x: int): nat {
    Since(hist, kind, Max(x, since))
  }

  predicate Live(b: Bucket, cutoff: int) {
    b.start != 0 && cutoff <= b.start
  }

  /** What one slot adds to a total, as a difference of two history counts. */
  lemma SlotContribution(b: Bucket, top: int, width: int, hist: seq<Event>, cutoff: int, n: nat, m: nat, k: nat, kind: Kind)
    requires 0 < width && k < n
    requires SlotOk(b, Edge(top, width, k + 1), Edge(top, width, k), hist)
    requires m < n && cutoff <= Edge(top, width, m + 1)
    requires m == n - 1 || Edge(top, width, m + 2) < cutoff
    ensures
      var since := Edge(top, width, m + 1);
      (if Live(b, cutoff) then b.counts.Get(kind) else 0)
      == Clipped(hist, kind, since, Edge(top, width, k + 1)) - Clipped(hist, kind, since, Edge(top, width, k))
  {
    if k <= m {
      EdgeOrder(top, width, k + 1, m + 1);
    } else {
      EdgeOrder(top, width, m + 2, k + 1);
      EdgeOrder(top, width, m + 1, k);
    }
  }

  /**
   The sum of the first `i` slots in array order. Slots 0..cur hold a
   contiguous stretch of history up to the present; the slots after `cur`
   hold the stretch just before it.
   */
  function SumTo(hist: seq<Event>, kind: Kind, since: int, i: nat, cur: nat, n: nat, top: int, width: int): int
    requires i <= n && cur < n
  {
    if i <= cur + 1 then
      Clipped(hist, kind, since, Edge(top, width, cur + 1)) - Clipped(hist, kind, since, Edge(top, width, cur + 1 - i))
    else
      Clipped(hist, kind, since, Edge(top, width, cur + 1)) - Clipped(hist, kind, since, top)
      + Clipped(hist, kind, since, Edge(top, width, n)) - Clipped(hist, kind, since, Edge(top, width, n + cur + 1 - i))
  }

  lemma SumStep(hist: seq<Event>, kind: Kind, since: int, i: nat, cur: nat, n: nat, top: int, width: int)
    requires i < n && cur < n
    ensures
      var k := if i <= cur then cur - i else cur - i + n;
      SumTo(hist, kind, since, i + 1, cur, n, top, width)
      == SumTo(hist, kind, since, i, cur, n, top, width)
       + Clipped(hist, kind, since, Edge(top, width, k + 1)) - Clipped(hist, kind, since, Edge(top, width, k))
  {
    if i == cur + 1 {
      assert Edge(top, width, 0) == top;
    }
  }

  /** What the slot at index `i` adds to each of the totals. */
  lemma SlotAdds(ring: seq<Bucket>, i: nat, cur: nat, top: int, width: int, hist: seq<Event>, cutoff: int, m: nat)
    requires i < |ring| && cur < |ring| && 0 < width && RingOk(ring, cur, top, width, hist)
    requires m < |ring| && cutoff <= Edge(top, width, m + 1)
    requires m == |ring| - 1 || Edge(top, width, m + 2) < cutoff
    ensures
      var n, since := |ring|, Edge(top, width, m + 1);
      forall kind: Kind ::
        SumTo(hist, kind, since, i + 1, cur, n, top, width)
        == SumTo(hist, kind, since, i, cur, n, top, width) + if Live(ring[i], cutoff) then ring[i].counts.Get(kind) else 0
  {
    var n, since := |ring|, Edge(top, width, m + 1);
    var k := if i <= cur then cur - i else cur - i + n;
    assert Behind(cur, k, n) == i;
    forall kind: Kind
      ensures SumTo(hist, kind, since, i + 1, cur, n, top, width)
           == SumTo(hist, kind, since, i, cur, n, top, width) + if Live(ring[i], cutoff) then ring[i].counts.Get(kind) else 0
    {
      SlotContribution(ring[i], top, width, hist, cutoff, n, m, k, kind);
      SumStep(hist, kind, since, i, cur, n, top, width);
    }
  }

  /** The totals are the sums of the first `i` slots. */
  ghost predicate SumsTo(totals: Counts, hist: seq<Event>, since: int, i: nat, cur: nat, n: nat, top: int, width: int)
    requires i <= n && cur < n
  {
    forall kind: Kind :: totals.Get(kind) == SumTo(hist, kind, since, i, cur, n, top, width)
  }

  lemma SlotSummed(totals: Counts, ring: seq<Bucket>, i: nat, cur: nat, top: int, width: int, hist: seq<Event>, cutoff: int, m: nat)
    requires i < |ring| && cur < |ring| && 0 < width && RingOk(ring, cur, top, width, hist)
    requires m < |ring| && cutoff <= Edge(top, width, m + 1)
    requires m == |ring| - 1 || Edge(top, width, m + 2) < cutoff
    requires SumsTo(totals, hist, Edge(top, width, m + 1), i, cur, |ring|, top, width)
    ensures
      var after := if Live(ring[i], cutoff) then totals.Plus(ring[i].counts) else totals;
      SumsTo(after, hist, Edge(top, width, m + 1), i + 1, cur, |ring|, top, width)
  {
    SlotAdds(ring, i, cur, top, width, hist, cutoff, m);
  }

  lemma AllSummed(totals: Counts, hist: seq<Event>, m: nat, cur: nat, n: nat, top: int, width: int)
    requires cur < n && 0 < width && m < n && forall e <- hist :: e.at < top
    requires SumsTo(totals, hist, Edge(top, width, m + 1), n, cur, n, top, width)
    ensures forall kind: Kind :: totals.Get(kind) == Since(hist, kind, Edge(top, width, m + 1))
  {
    forall kind: Kind
      ensures totals.Get(kind) == Since(hist, kind, Edge(top, width, m + 1))
    {
      SumAll(hist, kind, m, cur, n, top, width);
    }
  }

  lemma SumAll(hist: seq<Event>, kind: Kind, m: nat, cur: nat, n: nat, top: int, width: int)
    requires cur < n && 0 < width && m < n
    requires forall e <- hist :: e.at < top
    ensures SumTo(hist, kind, Edge(top, width, m + 1), n, cur, n, top, width) == Since(hist, kind, Edge(top, width, m + 1))
  {
    EdgeOrder(top, width, m + 1, n);
    EdgeOrder(top, width, 0, m + 1);
    NoneSince(hist, kind, top);
    assert Edge(top, width, 0) == top;
  }

  // ------------------------------------------------------------------
  // The counters
  // ------------------------------------------------------------------

  class Stats {
    const buckets: array<Bucket>
    const bucketDuration: int
    const window: int
    var current: int
    var currentStart: int
    /** Every request recorded so far. */
    ghost var hist: seq<Event>
    /** The latest clock reading seen so far. */
    ghost var latest: int

    ghost predicate Valid()
      reads this, buckets
    {
      && 0 < bucketDuration <= window
      && 0 < buckets.Length
      && Edge(0, bucketDuration, buckets.Length) <= -window
      && 0 <= current < buckets.Length
      && 0 <= currentStart <= latest
      && (forall e <- hist :: e.at <= latest)
      && if currentStart == 0
         then hist == [] && forall i :: 0 <= i < buckets.Length ==> buckets[i] == Bucket(0, ZERO)
         else RingOk(buckets[..], current, currentStart + bucketDuration, bucketDuration, hist)
    }

    constructor (w: int)
      ensures Valid() && fresh(buckets)
      ensures hist == [] && currentStart == 0
      ensures window == if w <= 0 then MINUTE else w
      ensures bucketDuration == if window < SECOND then window else SECOND
    {
      var win := if w <= 0 then MINUTE else w;
      var width := if win < SECOND then win else SECOND;
      var count := (win + width - 1) / width;
      CeilCovers(win, width);
      if count < 1 {
        count := 1;
      }
      buckets := new Bucket[count](_ => Bucket(0, ZERO));
      window, bucketDuration := win, width;
      current, currentStart := 0, 0;
      hist, latest := [], 0;
    }

    method RotateLocked(now: int)
      requires Valid() && 0 < now
      modifies `current, `currentStart, `latest, buckets
      ensures Valid() && 0 < currentStart
      ensures now < currentStart + bucketDuration
      ensures currentStart <= Max(now, old(currentStart))
      ensures latest == Max(now, old(latest))
    {
      latest := Max(now, latest);
      if currentStart == 0 {
        currentStart := now;
        buckets[current] := buckets[current].(start := now);
        FirstRing(buckets[..], current, now, bucketDuration);
        return;
      }
      if now - currentStart < bucketDuration {
        return;
      }
      var steps := (now - currentStart) / bucketDuration;
      StepBounds(now - currentStart, bucketDuration);
      if steps >= buckets.Length {
        ClearAll(now, steps);
        return;
      }
      Advance(steps);
    }

    /** The branch of a rotation that finds every bucket out of date. */
    method ClearAll(now: int, ghost steps: int)
      requires Valid() && 0 < currentStart && currentStart <= now <= latest
      requires buckets.Length <= steps && steps * bucketDuration <= now - currentStart
      modifies `current, `currentStart, buckets
      ensures Valid() && currentStart == now
    {
      OutOfReach(currentStart, now, bucketDuration, buckets.Length, steps);
      var i := 0;
      while i < buckets.Length
        invariant 0 <= i <= buckets.Length
        invariant forall j :: 0 <= j < i ==> buckets[j] == Bucket(0, ZERO)
      {
        buckets[i] := Bucket(0, ZERO);
        i := i + 1;
      }
      current := 0;
      currentStart := now;
      buckets[0] := buckets[0].(start := now);
      RingCleared(buckets[..], now, bucketDuration, hist);
    }

    /** The branch of a rotation that opens `steps` new buckets. */
    method Advance(steps: int)
      requires Valid() && 0 < currentStart && 0 <= steps
      requires currentStart + steps * bucketDuration <= latest
      modifies `current, `currentStart, buckets
      ensures Valid() && currentStart == old(currentStart) + steps * bucketDuration
      ensures 0 < currentStart
    {
      var n := buckets.Length;
      ghost var top := currentStart + bucketDuration;
      var i := 0;
      while i < steps
        invariant 0 <= i <= steps
        invariant 0 <= current < n
        invariant currentStart == old(currentStart)
        invariant top == currentStart + bucketDuration * (i + 1)
        invariant RingOk(buckets[..], current, top, bucketDuration, hist)
      {
        RingAdvances(buckets[..], current, top, bucketDuration, hist);
        ghost var before := buckets[..];
        current := (current + 1) % n;
        buckets[current] := Bucket(currentStart + bucketDuration * (i + 1), ZERO);
        assert buckets[..] == before[current := Bucket(top, ZERO)];
        top := top + bucketDuration;
        NextMultiple(bucketDuration, i + 1);
        i := i + 1;
      }
      NonNegative(steps, bucketDuration);
      NextMultiple(bucketDuration, steps);
      currentStart := currentStart + bucketDuration * steps;
    }

    /**
     A request is counted at the time it is recorded. (If a concurrent caller
     with a later reading got there first, it is counted at the start of the
     bucket that caller opened.)
     */
    method Record(variant: Variant, status: int, proxyError: bool, now: int)
      requires Valid() && 0 < now
      modifies this, buckets
      ensures Valid()
      ensures hist == old(hist) + [Event(Max(now, currentStart), variant, proxyError || status >= 500)]
      ensures old(latest) <= now ==> Max(now, currentStart) == now
      ensures latest == Max(now, old(latest))
    {
      var isError := proxyError || status >= 500;
      RotateLocked(now);
      var b := buckets[current].counts;
      match variant {
        case Canary =>
          b := b.(canaryReq := b.canaryReq + 1);
          if isError {
            b := b.(canaryErr := b.canaryErr + 1);
          }
        case Stable =>
          b := b.(stableReq := b.stableReq + 1);
          if isError {
            b := b.(stableErr := b.stableErr + 1);
          }
      }
      ghost var e := Event(Max(now, currentStart), variant, isError);
      RingRecords(buckets[..], current, currentStart + bucketDuration, bucketDuration, hist, e, b);
      ghost var before := buckets[..];
      buckets[current] := Bucket(buckets[current].start, b);
      assert buckets[..] == before[current := Bucket(currentStart, b)];
      hist := hist + [e];
    }

    /**
     All four totals count exactly the events at or after one common instant
     `since`, which is never before the window and at most one bucket late.
     */
    method WindowTotals(asked: int, clock: int) returns (totals: Counts, ghost since: int)
      requires Valid() && 0 <= asked && 0 < clock
      modifies `current, `currentStart, `latest, buckets
      ensures Valid() && latest == Max(if asked == 0 then clock else asked, old(latest))
      ensures old(latest) <= latest
      ensures WindowAnswer(totals, since, if asked == 0 then clock else asked, old(latest))
    {
      var now := if asked == 0 then clock else asked;
      RotateLocked(now);
      totals, since := LiveTotals(now);
    }

    /** The totals once the ring has been rotated to `now`. */
    method LiveTotals(now: int) returns (totals: Counts, ghost since: int)
      requires Valid() && 0 < currentStart && now < currentStart + bucketDuration
      ensures forall kind: Kind :: totals.Get(kind) == Since(hist, kind, since)
      ensures now - window <= since <= Max(now, currentStart) - window + bucketDuration
    {
      assert Edge(currentStart + bucketDuration, bucketDuration, 1) == currentStart;
      ghost var m := OldestLive(0, currentStart + bucketDuration, bucketDuration, now - window, buckets.Length);
      since := Edge(currentStart + bucketDuration, bucketDuration, m + 1);
      SinceBounds(m, buckets.Length, currentStart, bucketDuration, window, now);
      totals := SumLive(now - window, m);
    }

    /** What a window query asked at `now` answers, when the clock had reached `before`. */
    ghost predicate WindowAnswer(totals: Counts, since: int, now: int, before: int)
      reads this
    {
      && (forall kind: Kind :: totals.Get(kind) == Since(hist, kind, since))
      && now - window <= since <= Max(now, currentStart) - window + bucketDuration
      && (before <= now ==> currentStart <= now && since <= now - window + bucketDuration)
    }

    /**
     On a clock that never runs backwards, each total lies between the number
     of matching requests of the last `window - bucketDuration` and the number
     of the last `window`; none of the requests counted lies in the future.
     */
    lemma TotalsBracketed(totals: Counts, since: int, now: int, before: int, kind: Kind)
      requires Valid() && latest == now && before <= now
      requires WindowAnswer(totals, since, now, before)
      ensures Since(hist, kind, now - window + bucketDuration) <= totals.Get(kind) <= Since(hist, kind, now - window)
      ensures Since(hist, kind, now + 1) == 0
    {
      SinceAntitone(hist, kind, now - window, since);
      SinceAntitone(hist, kind, since, now - window + bucketDuration);
      NoneSince(hist, kind, now + 1);
    }

    /** The summing loop of WindowTotals. */
    method SumLive(cutoff: int, ghost m: nat) returns (totals: Counts)
      requires Valid() && 0 < currentStart
      requires m < buckets.Length && cutoff <= Edge(currentStart + bucketDuration, bucketDuration, m + 1)
      requires m == buckets.Length - 1 || Edge(currentStart + bucketDuration, bucketDuration, m + 2) < cutoff
      ensures forall kind: Kind ::
                totals.Get(kind) == Since(hist, kind, Edge(currentStart + bucketDuration, bucketDuration, m + 1))
    {
      var n := buckets.Length;
      ghost var cur, top, width := current, currentStart + bucketDuration, bucketDuration;
      ghost var since := Edge(top, width, m + 1);
      totals := ZERO;
      var i := 0;
      while i < n
        invariant 0 <= i <= n
        invariant SumsTo(totals, hist, since, i, cur, n, top, width)
      {
        var b := buckets[i];
        SlotSummed(totals, buckets[..], i, cur, top, width, hist, cutoff, m);
        if b.start != 0 && cutoff <= b.start {
          totals := totals.Plus(b.counts);
        }
        i := i + 1;
      }
      AllSummed(totals, hist, m, cur, n, top, width);
    }
  }

  // ------------------------------------------------------------------
  // The canary drain controller
  // ------------------------------------------------------------------

  datatype AutoDrainConfig = AutoDrainConfig(minRequests: int, errorRateMultiplier: real, cooloff: int)

  /**
   When a window calls for a drain, without divisions: enough canary
   requests, at least one canary error, and a canary error share of at least
   `multiplier` times the stable one (any share, if there is no stable traffic).
   */
  ghost predicate ShouldDrain(t: Counts, cfg: AutoDrainConfig) {
    && cfg.minRequests <= t.canaryReq
    && 0 < t.canaryReq && 0 < t.canaryErr
    && (t.stableReq == 0
        || t.canaryErr as real * t.stableReq as real
           >= cfg.errorRateMultiplier * t.stableErr as real * t.canaryReq as real)
  }

  /** That is a comparison of the two error rates. */
  lemma ShouldDrainMeans(t: Counts, cfg: AutoDrainConfig)
    ensures ShouldDrain(t, cfg)
       <==> && cfg.minRequests <= t.canaryReq && 0 < t.canaryReq && 0 < t.canaryErr
            && (t.stableReq == 0
                || t.canaryErr as real / t.canaryReq as real >= cfg.errorRateMultiplier * (t.stableErr as real / t.stableReq as real))
  {
    if 0 < t.canaryReq && 0 < t.stableReq {
      CrossMultiplied(t.canaryErr as real, t.canaryReq as real, t.stableErr as real, t.stableReq as real, cfg.errorRateMultiplier);
    }
  }

  class AutoDrain {
    const stats: Stats
    const config: AutoDrainConfig
    /** Nanosecond instant until which the canary is drained; 0 when it never was. */
    var drainedUntil: int

    constructor (stats: Stats, config: AutoDrainConfig)
      ensures this.stats == stats && this.config == config && drainedUntil == 0
    {
      this.stats, this.config, drainedUntil := stats, config, 0;
    }

    predicate Active(now: int)
      reads this
    {
      0 < drainedUntil && now < drainedUntil
    }

    /** The drain is extended exactly when the window calls for it, and never cut short. */
    method Evaluate(now: int) returns (ghost totals: Counts, ghost since: int)
      requires stats.Valid() && 0 < now
      modifies this, stats`current, stats`currentStart, stats`latest, stats.buckets
      ensures stats.Valid()
      ensures stats.WindowAnswer(totals, since, now, old(stats.latest))
      ensures drainedUntil == if ShouldDrain(totals, config) && 0 < config.cooloff
                              then Max(old(drainedUntil), now + config.cooloff)
                              else old(drainedUntil)
      ensures ShouldDrain(totals, config) ==> forall t :: now <= t < now + config.cooloff ==> Active(t)
      ensures forall t :: old(Active(t)) ==> Active(t)
    {
      var t, from := stats.WindowTotals(now, now);
      totals, since := t, from;
      if t.canaryReq < config.minRequests {
        return;
      }
      if t.canaryReq == 0 {
        return;
      }
      var canaryRate := t.canaryErr as real / t.canaryReq as real;
      RatePositive(t.canaryErr as real, t.canaryReq as real);
      if canaryRate <= 0.0 {
        return;
      }
      if t.stableReq == 0 {
        DrainUntil(now);
        return;
      }
      var stableRate := t.stableErr as real / t.stableReq as real;
      CrossMultiplied(t.canaryErr as real, t.canaryReq as real,
                      t.stableErr as real, t.stableReq as real, config.errorRateMultiplier);
      if canaryRate >= config.errorRateMultiplier * stableRate {
        DrainUntil(now);
      }
    }

    method DrainUntil(now: int)
      modifies this
      ensures drainedUntil == if 0 < config.cooloff then Max(old(drainedUntil), now + config.cooloff) else old(drainedUntil)
    {
      if config.cooloff <= 0 {
        return;
      }
      var until := now + config.cooloff;
      if drainedUntil >= until {
        return;
      }
      drainedUntil := until;
    }
  }

  lemma RatePositive(e: real, r: real)
    requires 0.0 <= e && 0.0 < r
    ensures e / r <= 0.0 <==> e == 0.0
  {
    var q := e / r;
    assert q * r == e;
    if q <= 0.0 {
      assert -q * r >= 0.0;
    }
  }

  /** Comparing two error shares is comparing the cross products. */
  lemma CrossMultiplied(ce: real, cr: real, se: real, sr: real, mult: real)
    requires 0.0 < cr && 0.0 < sr
    ensures ce / cr >= mult * (se / sr) <==> ce * sr >= mult * se * cr
  {
    var c, s := ce / cr, se / sr;
    assert c * cr == ce && s * sr == se;
    var p := cr * sr;
    assert ce * sr == c * p;
    assert mult * se * cr == mult * s * p;
    ScaleOrder(c, mult * s, p);
  }

  lemma ScaleOrder(x: real, y: real, p: real)
    requires 0.0 < p
    ensures x >= y <==> x * p >= y * p
  {
    if x >= y {
      assert (x - y) * p >= 0.0;
    } else {
      assert (y - x) * p > 0.0;
    }
  }

  // ------------------------------------------------------------------
  // Arithmetic of the class
  // ------------------------------------------------------------------

  lemma NextMultiple(d: int, i: int)
    ensures d * (i + 1) == d * i + d
  {}

  lemma NonNegative(i: int, d: int)
    requires 0 <= i && 0 <= d
    ensures 0 <= i * d
  {}

  lemma StepBounds(x: int, d: int)
    requires 0 <= x && 0 < d
    ensures 0 <= x / d && x / d * d <= x < x / d * d + d
  {
    assert x == x / d * d + x % d;
  }

  lemma CeilCovers(win: int, width: int)
    requires 0 < width <= win
    ensures 1 <= (win + width - 1) / width
    ensures Edge(0, width, (win + width - 1) / width) <= -win
  {
    var q := (win + width - 1) / width;
    StepBounds(win + width - 1, width);
    EdgeIs(0, width, q);
  }

  lemma FirstRing(ring: seq<Bucket>, current: int, now: int, width: int)
    requires 0 <= current < |ring| && 0 < width
    requires forall i :: 0 <= i < |ring| ==> ring[i] == Bucket(if i == current then now else 0, ZERO)
    ensures RingOk(ring, current, now + width, width, [])
  {
    assert Edge(now + width, width, 1) == now;
  }

  lemma OutOfReach(start: int, now: int, width: int, n: nat, steps: int)
    requires 0 < width && n <= steps && steps * width <= now - start
    ensures start + width <= Edge(now + width, width, n)
  {
    EdgeIs(now + width, width, n);
    assert n * width <= steps * width;
  }

  lemma SinceBounds(m: nat, n: nat, start: int, width: int, window: int, now: int)
    requires m < n && 0 < width <= window && Edge(0, width, n) <= -window
    requires now - window <= Edge(start + width, width, m + 1)
    requires m == n - 1 || Edge(start + width, width, m + 2) < now - window
    ensures Edge(start + width, width, m + 1) <= Max(now, start) - window + width
  {
    EdgeIs(0, width, n);
    EdgeIs(start + width, width, m + 1);
  }
}
