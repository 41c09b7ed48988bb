/**
 Per-second response counters kept in a ring indexed by `second mod size`.
 A slot is overwritten lazily, when a later second that maps to it is recorded.
 A query is answered from whatever the slots still hold; the lemmas say what
 that is for every window, and for which windows it is the exact count.
 */
module RollingCounter {
  import opened Arith

  const SECOND: int := 1_000_000_000

  /** A recorded response: the second it was recorded in and whether its status was 5xx. */
  datatype Event = Event(second: int, isError: bool)

  datatype Bucket = Bucket(second: int, total: nat, errors: nat)

  /** A window of nanoseconds in whole seconds, at least one. */
  function WholeSeconds(window: int): (s: int)
    ensures 1 <= s
  {
    if window < 2 * SECOND then 1 else window / SECOND
  }

  /** Events with a second in (lo, hi]. */
  function Within(hist: seq<Event>, errorsOnly: bool, lo: int, hi: int): nat {
    if hist == [] then 0
    else
      var e := hist[|hist| - 1];
      Within(hist[..|hist| - 1], errorsOnly, lo, hi)
      + if lo < e.second <= hi && (errorsOnly ==> e.isError) then 1 else 0
  }

  /** Events of exactly one second. */
  function At(hist: seq<Event>, errorsOnly: bool, second: int): nat {
    Within(hist, errorsOnly, second - 1, second)
  }

  /** A later second was recorded in the same slot. */
  ghost predicate Overwritten(second: int, hist: seq<Event>, n: int)
    requires 0 < n
  {
    exists f <- hist :: f.second % n == second % n && second < f.second
  }

  /**
   Events of `part` with a second in (lo, hi] that maps to one of the first
   `k` slots and is not overwritten by an event of `hist`.
   */
  ghost function Kept(part: seq<Event>, hist: seq<Event>, errorsOnly: bool, lo: int, hi: int, k: int, n: int): nat
    requires 0 < n
  {
    if part == [] then 0
    else
      var e := part[|part| - 1];
      Kept(part[..|part| - 1], hist, errorsOnly, lo, hi, k, n)
      + if lo < e.second <= hi && e.second % n < k && (errorsOnly ==> e.isError) && !Overwritten(e.second, hist, n)
        then 1 else 0
  }

  lemma {:induction false} KeptNowhere(part: seq<Event>, hist: seq<Event>, errorsOnly: bool, lo: int, hi: int, n: int)
    requires 0 < n
    ensures Kept(part, hist, errorsOnly, lo, hi, 0, n) == 0
  {
    if part != [] {
      KeptNowhere(part[..|part| - 1], hist, errorsOnly, lo, hi, n);
    }
  }

  /** If the only second a slot keeps in range is `second`, the slot adds the events of that second. */
  lemma {:induction false} SlotKeepsOne(part: seq<Event>, hist: seq<Event>, errorsOnly: bool, lo: int, hi: int,
                                        k: int, n: int, second: int)
    requires 0 <= k < n
    requires forall e <- part :: lo < e.second <= hi && e.second % n == k && !Overwritten(e.second, hist, n)
                                 ==> e.second == second
    requires lo < second <= hi && second % n == k && !Overwritten(second, hist, n)
    ensures Kept(part, hist, errorsOnly, lo, hi, k + 1, n)
         == Kept(part, hist, errorsOnly, lo, hi, k, n) + At(part, errorsOnly, second)
  {
    if part != [] {
      SlotKeepsOne(part[..|part| - 1], hist, errorsOnly, lo, hi, k, n, second);
    }
  }

  lemma {:induction false} SlotKeepsNone(part: seq<Event>, hist: seq<Event>, errorsOnly: bool, lo: int, hi: int,
                                         k: int, n: int)
    requires 0 <= k < n
    requires forall e <- part :: lo < e.second <= hi && e.second % n == k ==> Overwritten(e.second, hist, n)
    ensures Kept(part, hist, errorsOnly, lo, hi, k + 1, n) == Kept(part, hist, errorsOnly, lo, hi, k, n)
  {
    if part != [] {
      SlotKeepsNone(part[..|part| - 1], hist, errorsOnly, lo, hi, k, n);
    }
  }

  lemma {:induction false} NoneWithin(hist: seq<Event>, errorsOnly: bool, lo: int, hi: int)
    requires forall e <- hist :: !(lo < e.second <= hi)
    ensures Within(hist, errorsOnly, lo, hi) == 0
  {
    if hist != [] {
      NoneWithin(hist[..|hist| - 1], errorsOnly, lo, hi);
    }
  }

  lemma WithinSnoc(hist: seq<Event>, e: Event, errorsOnly: bool, lo: int, hi: int)
    ensures Within(hist + [e], errorsOnly, lo, hi)
         == Within(hist, errorsOnly, lo, hi) + if lo < e.second <= hi && (errorsOnly ==> e.isError) then 1 else 0
  {
    assert (hist + [e])[..|hist|] == hist;
  }

  lemma {:induction false} CountWithin(hist: seq<Event>, errorsOnly: bool, lo: int, hi: int, counted: set<int>)
    requires forall i :: i in counted <==> 0 <= i < |hist| && lo < hist[i].second <= hi && (errorsOnly ==> hist[i].isError)
    ensures |counted| == Within(hist, errorsOnly, lo, hi)
  {
    if hist == [] {
      assert forall i :: i !in counted;
    } else {
      CountWithin(hist[..|hist| - 1], errorsOnly, lo, hi, counted - {|hist| - 1});
    }
  }

  /** A count within a window, as a number of recorded events. */
  lemma WithinIs(hist: seq<Event>, errorsOnly: bool, lo: int, hi: int)
    ensures Within(hist, errorsOnly, lo, hi)
         == |set i | 0 <= i < |hist| && lo < hist[i].second <= hi && (errorsOnly ==> hist[i].isError)|
  {
    CountWithin(hist, errorsOnly, lo, hi, set i | 0 <= i < |hist| && lo < hist[i].second <= hi && (errorsOnly ==> hist[i].isError));
  }

  lemma {:induction false} CountKept(part: seq<Event>, hist: seq<Event>, errorsOnly: bool, lo: int, hi: int, n: int, counted: set<int>)
    requires 0 < n
    requires forall i :: i in counted
                    <==> && 0 <= i < |part| && lo < part[i].second <= hi && (errorsOnly ==> part[i].isError)
                         && !Overwritten(part[i].second, hist, n)
    ensures |counted| == Kept(part, hist, errorsOnly, lo, hi, n, n)
  {
    if part == [] {
      assert forall i :: i !in counted;
    } else {
      CountKept(part[..|part| - 1], hist, errorsOnly, lo, hi, n, counted - {|part| - 1});
    }
  }

  /** What a query of any window counts: the events of the window after which no later second reached the same slot. */
  lemma KeptIs(hist: seq<Event>, errorsOnly: bool, lo: int, hi: int, n: int)
    requires 0 < n
    ensures Kept(hist, hist, errorsOnly, lo, hi, n, n)
         == |set i | 0 <= i < |hist| && lo < hist[i].second <= hi && (errorsOnly ==> hist[i].isError)
                     && !(exists f <- hist :: f.second % n == hist[i].second % n && hist[i].second < f.second)|
  {
    CountKept(hist, hist, errorsOnly, lo, hi, n,
              set i | 0 <= i < |hist| && lo < hist[i].second <= hi && (errorsOnly ==> hist[i].isError)
                      && !(exists f <- hist :: f.second % n == hist[i].second % n && hist[i].second < f.second));
  }

  // ------------------------------------------------------------------
  // When the slots still hold the whole window
  // ------------------------------------------------------------------

  lemma {:induction false} KeptAtMost(part: seq<Event>, hist: seq<Event>, errorsOnly: bool, lo: int, hi: int, n: int)
    requires 0 < n
    ensures Kept(part, hist, errorsOnly, lo, hi, n, n) <= Within(part, errorsOnly, lo, hi)
  {
    if part != [] {
      KeptAtMost(part[..|part| - 1], hist, errorsOnly, lo, hi, n);
    }
  }

  /** The answer is exact if and only if no event of the window was overwritten. */
  lemma {:induction false} ExactIffNothingLost(part: seq<Event>, hist: seq<Event>, lo: int, hi: int, n: int)
    requires 0 < n
    ensures Kept(part, hist, false, lo, hi, n, n) == Within(part, false, lo, hi)
       <==> forall e <- part :: lo < e.second <= hi ==> !Overwritten(e.second, hist, n)
  {
    if part != [] {
      var front := part[..|part| - 1];
      ExactIffNothingLost(front, hist, lo, hi, n);
      KeptAtMost(front, hist, false, lo, hi, n);
      assert part == front + [part[|part| - 1]];
    }
  }

  lemma {:induction false} NothingLostExact(part: seq<Event>, hist: seq<Event>, errorsOnly: bool, lo: int, hi: int, n: int)
    requires 0 < n
    requires forall e <- part :: lo < e.second <= hi ==> !Overwritten(e.second, hist, n)
    ensures Kept(part, hist, errorsOnly, lo, hi, n, n) == Within(part, errorsOnly, lo, hi)
  {
    if part != [] {
      NothingLostExact(part[..|part| - 1], hist, errorsOnly, lo, hi, n);
    }
  }

  /** Windows up to the ring's size are exact, whatever was recorded. */
  lemma ShortWindowsExact(hist: seq<Event>, errorsOnly: bool, now: int, age: int, n: int)
    requires 1 <= age <= n
    requires forall e <- hist :: e.second <= now
    ensures Kept(hist, hist, errorsOnly, now - age, now, n, n) == Within(hist, errorsOnly, now - age, now)
  {
    forall e <- hist | now - age < e.second <= now
      ensures !Overwritten(e.second, hist, n)
    {
      forall f <- hist | f.second % n == e.second % n && e.second < f.second
        ensures false
      {
        SameRemainder(e.second, f.second, n);
      }
    }
    NothingLostExact(hist, hist, errorsOnly, now - age, now, n);
  }

  /** Every longer window misses events after some history: one request a ring-length apart is enough. */
  lemma LongWindowsMiss(age: int, n: int)
    requires 1 <= n < age
    ensures
      var hist, now := [Event(1, false), Event(1 + n, false)], 1 + n;
      Kept(hist, hist, false, now - age, now, n, n) < Within(hist, false, now - age, now)
  {
    var hist := [Event(1, false), Event(1 + n, false)];
    var now := 1 + n;
    assert (1 + n) % n == 1 % n by {
      ModShift(1, n);
    }
    assert Overwritten(1, hist, n) by {
      assert hist[1] in hist;
    }
    assert hist[0] in hist && now - age < hist[0].second <= now;
    ExactIffNothingLost(hist, hist, now - age, now, n);
    KeptAtMost(hist, hist, false, now - age, now, n);
  }

  // ------------------------------------------------------------------
  // The ring
  // ------------------------------------------------------------------

  /** A slot holds the events of the latest second recorded in it, or was never written. */
  ghost predicate SlotOk(b: Bucket, i: int, n: int, hist: seq<Event>)
    requires 0 < n
  {
    && (forall e <- hist :: e.second % n == i ==> e.second <= b.second)
    && (b.second == 0 || (b.second % n == i && exists e <- hist :: e.second == b.second))
    && b.total == At(hist, false, b.second)
    && b.errors == At(hist, true, b.second)
  }

  lemma SlotRecords(b: Bucket, b': Bucket, i: int, n: int, hist: seq<Event>, e: Event)
    requires 0 < n && 0 < e.second && i == e.second % n
    requires SlotOk(b, i, n, hist)
    requires b.second <= e.second
    requires
      var base := if b.second != e.second then Bucket(e.second, 0, 0) else b;
      b' == Bucket(e.second, base.total + 1, base.errors + if e.isError then 1 else 0)
    ensures SlotOk(b', i, n, hist + [e])
  {
    WithinSnoc(hist, e, false, e.second - 1, e.second);
    WithinSnoc(hist, e, true, e.second - 1, e.second);
    if b.second != e.second {
      NoneWithin(hist, false, e.second - 1, e.second);
      NoneWithin(hist, true, e.second - 1, e.second);
    }
  }

  lemma OtherSlotKeeps(b: Bucket, i: int, n: int, hist: seq<Event>, e: Event)
    requires 0 < n && 0 < e.second && e.second % n != i
    requires SlotOk(b, i, n, hist)
    ensures SlotOk(b, i, n, hist + [e])
  {
    WithinSnoc(hist, e, false, b.second - 1, b.second);
    WithinSnoc(hist, e, true, b.second - 1, b.second);
  }

  /** What one slot contributes to a query. */
  lemma SlotContribution(b: Bucket, i: int, n: int, hist: seq<Event>, errorsOnly: bool, now: int, age: int)
    requires 0 <= i < n && 1 <= age
    requires SlotOk(b, i, n, hist)
    requires b.second <= now && forall e <- hist :: 0 < e.second <= now
    ensures Kept(hist, hist, errorsOnly, now - age, now, i + 1, n)
         == Kept(hist, hist, errorsOnly, now - age, now, i, n)
          + if b.second != 0 && now - b.second < age then (if errorsOnly then b.errors else b.total) else 0
  {
    if b.second == 0 {
      SlotKeepsNone(hist, hist, errorsOnly, now - age, now, i, n);
    } else {
      var f :| f in hist && f.second == b.second;
      forall e <- hist | e.second % n == i && e.second != b.second
        ensures Overwritten(e.second, hist, n)
      {
        assert f in hist;
      }
      if now - b.second < age {
        SlotKeepsOne(hist, hist, errorsOnly, now - age, now, i, n, b.second);
      } else {
        SlotKeepsNone(hist, hist, errorsOnly, now - age, now, i, n);
      }
    }
  }

  class Counter {
    const buckets: array<Bucket>
    /** Default query window, in nanoseconds. */
    const window: int
    ghost var hist: seq<Event>
    ghost var latest: int

    ghost predicate Valid()
      reads this, buckets
    {
      && 0 < window && buckets.Length == WholeSeconds(window)
      && 0 <= latest
      && (forall e <- hist :: 0 < e.second <= latest)
      && (forall i :: 0 <= i < buckets.Length ==>
            && buckets[i].second <= latest
            && SlotOk(buckets[i], i, buckets.Length, hist))
    }

    constructor (w: int)
      ensures Valid() && fresh(buckets) && hist == [] && latest == 0
      ensures window == if w <= 0 then 10 * SECOND else w
    {
      var win := if w <= 0 then 10 * SECOND else w;
      var size := win / SECOND;
      if size < 1 {
        size := 1;
      }
      buckets := new Bucket[size](_ => Bucket(0, 0, 0));
      window := win;
      hist, latest := [], 0;
    }

    method Record(status: int, now: int)
      requires Valid() && latest <= now && 0 < now
      modifies this, buckets
      ensures Valid() && latest == now
      ensures hist == old(hist) + [Event(now, status >= 500)]
    {
      var n := buckets.Length;
      var index := now % n;
      var bucket := buckets[index];
      ghost var e := Event(now, status >= 500);
      forall i | 0 <= i < n && i != index
        ensures SlotOk(buckets[i], i, n, hist + [e])
      {
        OtherSlotKeeps(buckets[i], i, n, hist, e);
      }
      if bucket.second != now {
        bucket := Bucket(now, 0, 0);
      }
      bucket := bucket.(total := bucket.total + 1);
      if status >= 500 {
        bucket := bucket.(errors := bucket.errors + 1);
      }
      SlotRecords(buckets[index], bucket, index, n, hist, e);
      buckets[index] := bucket;
      hist := hist + [e];
      latest := now;
    }

    /**
     A query counts the events of its window that were not overwritten; for
     a window of at most the ring's size that is every event of the window.
     */
    method Counts(w: int, now: int) returns (total: nat, errors: nat)
      requires Valid() && latest <= now && 0 < now
      ensures
        var age, n := WholeSeconds(if w <= 0 then window else w), buckets.Length;
        && total == Kept(hist, hist, false, now - age, now, n, n)
        && errors == Kept(hist, hist, true, now - age, now, n, n)
        && (age <= n ==> total == Within(hist, false, now - age, now) && errors == Within(hist, true, now - age, now))
    {
      var win := if w <= 0 then window else w;
      var maxAge := win / SECOND;
      if maxAge < 1 {
        maxAge := 1;
      }
      var n := buckets.Length;
      total, errors := 0, 0;
      KeptNowhere(hist, hist, false, now - maxAge, now, n);
      KeptNowhere(hist, hist, true, now - maxAge, now, n);
      var i := 0;
      while i < n
        invariant 0 <= i <= n
        invariant total == Kept(hist, hist, false, now - maxAge, now, i, n)
        invariant errors == Kept(hist, hist, true, now - maxAge, now, i, n)
      {
        var bucket := buckets[i];
        SlotContribution(bucket, i, n, hist, false, now, maxAge);
        SlotContribution(bucket, i, n, hist, true, now, maxAge);
        if bucket.second != 0 && now - bucket.second < maxAge {
          total := total + bucket.total;
          errors := errors + bucket.errors;
        }
        i := i + 1;
      }
      if maxAge <= n {
        ShortWindowsExact(hist, false, now, maxAge, n);
        ShortWindowsExact(hist, true, now, maxAge, n);
      }
    }
  }
}
