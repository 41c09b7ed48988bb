/**
 The last latencies of an endpoint in a ring, percentiles over them, and the
 comparison of each endpoint with the pool's median.
 */
module LatencyWindow {
  import opened Arith

  // ------------------------------------------------------------------
  // The ring
  // ------------------------------------------------------------------

  /** The last `n` values of a history; all of them while it is shorter. */
  function Last(hist: seq<int>, n: nat): seq<int> {
    if |hist| <= n then hist else hist[|hist| - n..]
  }

  class Window {
    const ring: array<int>
    var idx: nat
    var count: nat
    ghost var hist: seq<int>

    /** A ring that is not full is filled from the front; a full one starts at `idx`. */
    ghost predicate Valid()
      reads this, ring
    {
      && idx < ring.Length
      && if |hist| < ring.Length
         then count == idx == |hist| && ring[..idx] == hist
         else count == ring.Length && ring[idx..] + ring[..idx] == Last(hist, ring.Length)
    }

    constructor (size: int)
      ensures Valid() && fresh(ring) && hist == [] && ring.Length == if size <= 0 then 1 else size
    {
      var n := if size <= 0 then 1 else size;
      ring := new int[n](_ => 0);
      idx, count, hist := 0, 0, [];
    }

    method Record(latency: int)
      requires Valid()
      modifies this, ring
      ensures Valid() && hist == old(hist) + [latency]
    {
      ghost var n, at, before := ring.Length, idx, ring[..];
      ring[idx] := latency;
      assert ring[..] == before[at := latency];
      RingNext(before, at, latency, hist);
      DivIs(at + 1, n, if at + 1 == n then 1 else 0, if at + 1 == n then 0 else at + 1);
      idx := (idx + 1) % ring.Length;
      if count < ring.Length {
        count := count + 1;
      }
      hist := hist + [latency];
    }

    /** As a multiset, the snapshot is exactly the last min(recorded, size) values. */
    method Snapshot() returns (values: seq<int>)
      requires Valid()
      ensures |values| == |Last(hist, ring.Length)|
      ensures multiset(values) == multiset(Last(hist, ring.Length))
    {
      values := [];
      var i := 0;
      while i < count
        invariant 0 <= i <= count <= ring.Length && values == ring[..i]
      {
        values := values + [ring[i]];
        i := i + 1;
      }
      if |hist| >= ring.Length {
        assert ring[..count] == ring[..idx] + ring[idx..];
      }
    }
  }

  /** Overwriting the oldest slot of a ring drops the oldest value and appends the new one. */
  lemma RingNext(ring: seq<int>, at: nat, x: int, hist: seq<int>)
    requires at < |ring|
    ensures
      var ring' := ring[at := x];
      var next := if at + 1 == |ring| then 0 else at + 1;
      && (at == |hist| && ring[..at] == hist ==> ring'[..at + 1] == hist + [x])
      && (at == |hist| && ring[..at] == hist && next == 0 ==> ring'[next..] + ring'[..next] == hist + [x])
      && (|ring| <= |hist| && ring[at..] + ring[..at] == Last(hist, |ring|) ==>
            ring'[next..] + ring'[..next] == Last(hist + [x], |ring|))
  {
    var ring' := ring[at := x];
    Turn(ring', at + 1);
    if at == |hist| && ring[..at] == hist {
      assert ring'[..at + 1] == ring[..at] + [x];
    }
    if |ring| <= |hist| && ring[at..] + ring[..at] == Last(hist, |ring|) {
      LastSnoc(hist, x, |ring|);
      TurnWritten(ring, at, x);
    }
  }

  /** Reading a ring from just past its end is reading it from its start. */
  lemma Turn(ring: seq<int>, at: nat)
    requires at <= |ring|
    ensures at == |ring| ==> ring[0..] + ring[..0] == ring[at..] + ring[..at] == ring
  {
    if at == |ring| {
      assert ring[0..] + ring[..0] == ring;
      assert ring[at..] + ring[..at] == ring;
    }
  }

  lemma TurnWritten(ring: seq<int>, at: nat, x: int)
    requires at < |ring|
    ensures ring[at := x][at + 1..] + ring[at := x][..at + 1] == (ring[at..] + ring[..at])[1..] + [x]
  {
    assert ring[at := x][at + 1..] == ring[at..][1..];
    assert ring[at := x][..at + 1] == ring[..at] + [x];
  }

  lemma LastSnoc(hist: seq<int>, x: int, n: nat)
    requires 0 < n <= |hist|
    ensures Last(hist + [x], n) == Last(hist, n)[1..] + [x]
  {}

  // ------------------------------------------------------------------
  // Percentiles
  // ------------------------------------------------------------------

  /** A sorted copy of some values. */
  datatype List = Nil | Cons(head: int, tail: List)

  function Length(l: List): nat { if l.Nil? then 0 else 1 + Length(l.tail) }

  function Elements(l: List): multiset<int> { if l.Nil? then multiset{} else multiset{l.head} + Elements(l.tail) }

  function Nth(l: List, k: nat): int
    requires k < Length(l)
  {
    if k == 0 then l.head else Nth(l.tail, k - 1)
  }

  predicate Ascending(l: List) {
    l.Nil? || l.tail.Nil? || (l.head <= l.tail.head && Ascending(l.tail))
  }

  function Insert(x: int, l: List): (r: List)
    ensures Length(r) == Length(l) + 1
  {
    if l.Nil? || x <= l.head then Cons(x, l) else Cons(l.head, Insert(x, l.tail))
  }

  function Sort(values: seq<int>): (r: List)
    ensures Length(r) == |values|
  {
    if values == [] then Nil else Insert(values[0], Sort(values[1..]))
  }

  lemma {:induction false} InsertSorts(x: int, l: List)
    requires Ascending(l)
    ensures Ascending(Insert(x, l)) && Elements(Insert(x, l)) == Elements(l) + multiset{x}
  {
    if !l.Nil? && x > l.head {
      InsertSorts(x, l.tail);
    }
  }

  lemma {:induction false} SortSorts(values: seq<int>)
    ensures Ascending(Sort(values)) && Elements(Sort(values)) == multiset(values)
  {
    if values != [] {
      SortSorts(values[1..]);
      InsertSorts(values[0], Sort(values[1..]));
      assert values == [values[0]] + values[1..];
    }
  }

  /** The first of an ascending list is a lower bound. */
  lemma {:induction false} HeadLeast(l: List, v: int)
    requires Ascending(l) && v in Elements(l)
    ensures l.Cons? && l.head <= v
  {
    if v != l.head {
      HeadLeast(l.tail, v);
    }
  }

  lemma Cancel(x: int, a: multiset<int>, b: multiset<int>)
    requires multiset{x} + a == multiset{x} + b
    ensures a == b
  {
    forall y: int
      ensures a[y] == b[y]
    {
      assert (multiset{x} + a)[y] == (multiset{x} + b)[y];
    }
  }

  lemma HeadIn(l: List)
    requires l.Cons?
    ensures l.head in Elements(l)
  {}

  /** The ascending order of a multiset is unique. */
  lemma {:induction false} SortedUnique(a: List, b: List)
    requires Ascending(a) && Ascending(b) && Elements(a) == Elements(b)
    ensures a == b
  {
    if a.Cons? {
      HeadIn(a);
      HeadLeast(b, a.head);
      HeadIn(b);
      HeadLeast(a, b.head);
      Cancel(a.head, Elements(a.tail), Elements(b.tail));
      SortedUnique(a.tail, b.tail);
    } else if b.Cons? {
      HeadIn(b);
    }
  }

  function Ceil(x: real): int { -((-x).Floor) }

  /** `n` times a share, as a sum. */
  function Times(p: real, n: nat): real { if n == 0 then 0.0 else Times(p, n - 1) + p }

  lemma {:induction false} TimesIs(p: real, n: nat)
    ensures Times(p, n) == p * n as real
  {
    if n != 0 {
      TimesIs(p, n - 1);
    }
  }

  function Clamp(pct: real): (p: real)
    ensures 0.0 <= p <= 1.0
  {
    if pct <= 0.0 then 0.0 else if pct >= 1.0 then 1.0 else pct
  }

  /** The nearest rank of a percentile among `n` values, from 1 to `n`. */
  function Rank(pct: real, n: nat): (r: int)
    requires 0 < n
    ensures 1 <= r <= n
  {
    var r := Ceil(Times(Clamp(pct), n));
    if r < 1 then 1 else if r > n then n else r
  }

  lemma {:induction false} TimesBounds(p: real, n: nat)
    requires 0.0 <= p <= 1.0
    ensures 0.0 <= Times(p, n) <= n as real && (0.0 < p && 0 < n ==> 0.0 < Times(p, n))
  {
    if n != 0 {
      TimesBounds(p, n - 1);
    }
  }

  /** The nearest rank is the share of the values rounded up; for a share of nothing it is the first. */
  lemma RankIs(pct: real, n: nat)
    requires 0 < n
    ensures
      var p, r := Clamp(pct), Rank(pct, n);
      if p == 0.0 then r == 1 else (r - 1) as real < p * n as real <= r as real
  {
    var p := Clamp(pct);
    TimesIs(p, n);
    TimesBounds(p, n);
    var x := Times(p, n);
    var c := Ceil(x);
    assert x <= c as real < x + 1.0;
  }

  function Percentile(values: seq<int>, pct: real): int {
    if |values| == 0 then 0 else Nth(Sort(values), Rank(pct, |values|) - 1)
  }

  /** Percentiles depend on the values only, not on their order. */
  lemma PercentileOfMultiset(a: seq<int>, b: seq<int>, pct: real)
    requires multiset(a) == multiset(b)
    ensures |a| == |b| && Percentile(a, pct) == Percentile(b, pct)
  {
    assert |a| == |multiset(a)| == |multiset(b)| == |b|;
    SortSorts(a);
    SortSorts(b);
    SortedUnique(Sort(a), Sort(b));
  }

  /** How many values are below `v`. */
  function Below(values: seq<int>, v: int): nat {
    if values == [] then 0 else Below(values[1..], v) + if values[0] < v then 1 else 0
  }

  function BelowIn(l: List, v: int): nat {
    if l.Nil? then 0 else BelowIn(l.tail, v) + if l.head < v then 1 else 0
  }

  lemma {:induction false} BelowInsert(x: int, l: List, v: int)
    ensures BelowIn(Insert(x, l), v) == BelowIn(l, v) + if x < v then 1 else 0
  {
    if !l.Nil? && x > l.head {
      BelowInsert(x, l.tail, v);
    }
  }

  lemma {:induction false} BelowSort(values: seq<int>, v: int)
    ensures BelowIn(Sort(values), v) == Below(values, v)
  {
    if values != [] {
      BelowSort(values[1..], v);
      BelowInsert(values[0], Sort(values[1..]), v);
    }
  }

  lemma {:induction false} NoneBelow(l: List, v: int)
    requires Ascending(l) && (l.Nil? || v <= l.head)
    ensures BelowIn(l, v) == 0
  {
    if !l.Nil? {
      NoneBelow(l.tail, v);
    }
  }

  /** In ascending order, what is below the k-th value comes before it, and all up to it is at most it. */
  lemma {:induction false} BelowNth(l: List, k: nat)
    requires Ascending(l) && k < Length(l)
    ensures l.head <= Nth(l, k)
    ensures BelowIn(l, Nth(l, k)) <= k < BelowIn(l, Nth(l, k) + 1)
  {
    if k == 0 {
      NoneBelow(l, l.head);
    } else {
      BelowNth(l.tail, k - 1);
    }
  }

  /** The value of a rank: fewer than `rank` values are below it, and at least `rank` are at most it. */
  lemma RankedIsOrderStatistic(values: seq<int>, rank: int, v: int)
    requires 1 <= rank <= |values| && v == Nth(Sort(values), rank - 1)
    ensures v in values && Below(values, v) < rank <= Below(values, v + 1)
  {
    SortSorts(values);
    NthIn(Sort(values), rank - 1);
    InSeq(values, v);
    BelowNth(Sort(values), rank - 1);
    BelowSort(values, v);
    BelowSort(values, v + 1);
  }

  /**
   A percentile is a nearest-rank order statistic: one of the values, with
   less than the share asked for below it and at least that share up to it.
   */
  lemma PercentileIsOrderStatistic(values: seq<int>, pct: real, v: int)
    requires values != [] && v == Percentile(values, pct)
    ensures v in values
    ensures HasShare(Below(values, v), Below(values, v + 1), Clamp(pct), |values|)
  {
    var r := RankOf(values, pct);
    RankedIsOrderStatistic(values, r, v);
    RankHasShare(Below(values, v), Below(values, v + 1), pct, |values|);
  }

  /** For a proper share that is: fewer values than it are below, and at least as many are up to the percentile. */
  lemma PercentileMeans(values: seq<int>, pct: real, v: int)
    requires values != [] && 0.0 < pct < 1.0 && v == Percentile(values, pct)
    ensures Below(values, v) as real < pct * |values| as real
    ensures pct * |values| as real <= Below(values, v + 1) as real
  {
    PercentileIsOrderStatistic(values, pct, v);
    ShareOf(Below(values, v), Below(values, v + 1), pct, |values|);
  }

  lemma ShareOf(below: nat, upTo: nat, p: real, n: nat)
    requires 0.0 < p && HasShare(below, upTo, p, n)
    ensures below as real < p * n as real && p * n as real <= upTo as real
  {}

  lemma RankOf(values: seq<int>, pct: real) returns (r: int)
    requires values != []
    ensures 1 <= r <= |values| && Percentile(values, pct) == Nth(Sort(values), r - 1) && r == Rank(pct, |values|)
  {
    r := Rank(pct, |values|);
  }

  /** Of `n` values fewer than the share `p` are below some value, and at least that share is up to it. */
  predicate HasShare(below: nat, upTo: nat, p: real, n: nat) {
    && (if p == 0.0 then below == 0 else below as real < p * n as real)
    && p * n as real <= upTo as real
  }

  lemma RankHasShare(below: nat, upTo: nat, pct: real, n: nat)
    requires 0 < n && below < Rank(pct, n) <= upTo
    ensures HasShare(below, upTo, Clamp(pct), n)
  {
    RankIs(pct, n);
  }

  lemma {:induction false} NthIn(l: List, k: nat)
    requires k < Length(l)
    ensures Nth(l, k) in Elements(l)
  {
    if k != 0 {
      NthIn(l.tail, k - 1);
    }
  }

  lemma InSeq(values: seq<int>, v: int)
    requires v in multiset(values)
    ensures v in values
  {}

  // ------------------------------------------------------------------
  // Comparing endpoints
  // ------------------------------------------------------------------

  type Addr = nat

  /** The values of all endpoints in `keys` together. */
  ghost function Pooled(samples: map<Addr, seq<int>>, keys: set<Addr>): multiset<int>
    requires keys <= samples.Keys
    decreases |keys|
  {
    if keys == {} then multiset{}
    else
      var k :| k in keys;
      Pooled(samples, keys - {k}) + multiset(samples[k])
  }

  /** Whichever endpoint is taken out first, the rest is the same. */
  lemma {:induction false} PooledRemove(samples: map<Addr, seq<int>>, keys: set<Addr>, a: Addr)
    requires keys <= samples.Keys && a in keys
    ensures Pooled(samples, keys) == Pooled(samples, keys - {a}) + multiset(samples[a])
    decreases |keys|
  {
    var k :| k in keys && Pooled(samples, keys) == Pooled(samples, keys - {k}) + multiset(samples[k]);
    if k != a {
      PooledRemove(samples, keys - {k}, a);
      PooledRemove(samples, keys - {a}, k);
      assert keys - {k} - {a} == keys - {a} - {k};
    }
  }

  /** Endpoints with enough values to be judged. */
  function Judged(samples: map<Addr, seq<int>>, minSamples: int): set<Addr> {
    set a | a in samples && |samples[a]| >= minSamples
  }

  /** An endpoint is slow if its 95th percentile is above the multiple of the pool's median. */
  predicate IsSlow(values: seq<int>, multiplier: int, baseline: int) {
    Percentile(values, 0.95) > multiplier * baseline
  }

  /**
   Judges the endpoints of a pool. Maps are walked in any order; `pooled` is
   any listing of the judged endpoints' values.
   */
  method EvaluateLatency(samples: map<Addr, seq<int>>, configMin: int, configMultiplier: int, ghost pooled: seq<int>)
    returns (verdicts: map<Addr, bool>)
    requires multiset(pooled) == Pooled(samples, Judged(samples, if configMin <= 0 then 1 else configMin))
    ensures
      var minSamples := if configMin <= 0 then 1 else configMin;
      var multiplier := if configMultiplier <= 0 then 1 else configMultiplier;
      var baseline := Percentile(pooled, 0.50);
      if |pooled| < minSamples || baseline <= 0 then verdicts == map[]
      else verdicts == map a | a in samples && |samples[a]| >= minSamples :: Percentile(samples[a], 0.95) > multiplier * baseline
  {
    verdicts := map[];
    var minSamples := if configMin <= 0 then 1 else configMin;
    var values, judged := Collect(samples, minSamples);
    PercentileOfMultiset(values, pooled, 0.50);
    if |values| < minSamples {
      return;
    }
    var baseline := Percentile(values, 0.50);
    if baseline <= 0 {
      return;
    }
    var multiplier := if configMultiplier <= 0 then 1 else configMultiplier;
    verdicts := Judge(samples, judged, multiplier, baseline);
  }

  method Judge(samples: map<Addr, seq<int>>, judged: set<Addr>, multiplier: int, baseline: int)
    returns (verdicts: map<Addr, bool>)
    requires judged <= samples.Keys
    ensures verdicts == map a | a in judged :: IsSlow(samples[a], multiplier, baseline)
  {
    verdicts := map[];
    var todo := judged;
    while todo != {}
      invariant todo <= judged && verdicts.Keys == judged - todo
      invariant forall a <- verdicts :: verdicts[a] == IsSlow(samples[a], multiplier, baseline)
      decreases |todo|
    {
      var a :| a in todo;
      todo := todo - {a};
      verdicts := verdicts[a := Percentile(samples[a], 0.95) > multiplier * baseline];
    }
  }

  method Collect(samples: map<Addr, seq<int>>, minSamples: int) returns (values: seq<int>, judged: set<Addr>)
    ensures judged == Judged(samples, minSamples)
    ensures multiset(values) == Pooled(samples, judged)
  {
    values, judged := [], {};
    var todo := samples.Keys;
    while todo != {}
      invariant todo <= samples.Keys && judged == Judged(samples, minSamples) - todo
      invariant multiset(values) == Pooled(samples, judged)
      decreases |todo|
    {
      var a :| a in todo;
      todo := todo - {a};
      if |samples[a]| >= minSamples {
        assert judged + {a} - {a} == judged;
        PooledRemove(samples, judged + {a}, a);
        values := values + samples[a];
        judged := judged + {a};
      }
    }
  }

  /** The order in which an endpoint's values were kept does not matter either. */
  lemma {:induction false} PooledOfMultisets(m: map<Addr, seq<int>>, m': map<Addr, seq<int>>, keys: set<Addr>)
    requires keys <= m.Keys && keys <= m'.Keys
    requires forall a <- keys :: multiset(m[a]) == multiset(m'[a])
    ensures Pooled(m, keys) == Pooled(m', keys)
    decreases |keys|
  {
    if keys != {} {
      var k :| k in keys;
      PooledRemove(m, keys, k);
      PooledRemove(m', keys, k);
      PooledOfMultisets(m, m', keys - {k});
    }
  }

  lemma SlowOfMultiset(a: seq<int>, b: seq<int>, multiplier: int, baseline: int)
    requires multiset(a) == multiset(b)
    ensures IsSlow(a, multiplier, baseline) == IsSlow(b, multiplier, baseline)
  {
    PercentileOfMultiset(a, b, 0.95);
  }

  // ------------------------------------------------------------------
  // All endpoints slow at once
  // ------------------------------------------------------------------

  lemma {:induction false} BelowConcat(a: seq<int>, b: seq<int>, v: int)
    ensures Below(a + b, v) == Below(a, v) + Below(b, v)
  {
    if a == [] {
      assert a + b == b;
    } else {
      assert (a + b)[1..] == a[1..] + b;
      BelowConcat(a[1..], b, v);
    }
  }

  lemma {:induction false} BelowMono(values: seq<int>, v: int, w: int)
    requires v <= w
    ensures Below(values, v) <= Below(values, w)
  {
    if values != [] {
      BelowMono(values[1..], v, w);
    }
  }

  function Repeat(x: int, n: nat): (r: seq<int>)
    ensures |r| == n && forall y <- r :: y == x
  {
    if n == 0 then [] else [x] + Repeat(x, n - 1)
  }

  lemma {:induction false} BelowRepeat(x: int, n: nat, v: int)
    ensures Below(Repeat(x, n), v) == if x < v then n else 0
  {
    if n > 0 {
      BelowRepeat(x, n - 1, v);
      assert Repeat(x, n)[1..] == Repeat(x, n - 1);
    }
  }

  /** Half of the values are 1, the other half is `big`. */
  predicate Halved(values: seq<int>, big: int) {
    && values != [] && 1 < big && (forall x <- values :: x == 1 || x == big)
    && 2 * Below(values, big) == |values|
  }

  lemma MedianOfHalved(values: seq<int>, big: int, v: int)
    requires Halved(values, big) && v == Percentile(values, 0.50)
    ensures v == 1
  {
    PercentileIsOrderStatistic(values, 0.50, v);
  }

  lemma TopOfHalved(values: seq<int>, big: int, v: int)
    requires Halved(values, big) && v == Percentile(values, 0.95)
    ensures v == big
  {
    PercentileIsOrderStatistic(values, 0.95, v);
    BelowMono(values, 2, big);
  }

  /** The same values `k` times over. */
  function Together(values: seq<int>, k: nat): seq<int> {
    if k == 0 then [] else Together(values, k - 1) + values
  }

  lemma {:induction false} TogetherHalved(values: seq<int>, big: int, k: nat)
    requires Halved(values, big) && 0 < k
    ensures Halved(Together(values, k), big) && |values| <= |Together(values, k)|
  {
    if k == 1 {
      assert Together(values, 0) + values == values;
    } else {
      TogetherHalved(values, big, k - 1);
      BelowConcat(Together(values, k - 1), values, big);
    }
  }

  lemma {:induction false} PooledTogether(samples: map<Addr, seq<int>>, keys: set<Addr>, values: seq<int>)
    requires keys <= samples.Keys && forall a <- keys :: samples[a] == values
    ensures Pooled(samples, keys) == multiset(Together(values, |keys|))
    decreases |keys|
  {
    if keys != {} {
      var a :| a in keys;
      PooledRemove(samples, keys, a);
      PooledTogether(samples, keys - {a}, values);
    }
  }

  lemma HalfAndHalf(m: nat, big: int) returns (values: seq<int>)
    requires 0 < m && 1 < big
    ensures Halved(values, big) && |values| == 2 * m
  {
    values := Repeat(1, m) + Repeat(big, m);
    BelowConcat(Repeat(1, m), Repeat(big, m), big);
    BelowRepeat(1, m, big);
    BelowRepeat(big, m, big);
  }

  /**
   Whatever the multiple and the number of values needed, there are values
   for any number of endpoints by which every one of them is judged slow.
   */
  lemma AllCanBeSlow(keys: set<Addr>, minSamples: int, multiplier: int, pooled: seq<int>) returns (samples: map<Addr, seq<int>>)
    requires keys != {} && 1 <= minSamples && 1 <= multiplier
    ensures samples.Keys == keys == Judged(samples, minSamples) && forall a <- keys :: |samples[a]| == 2 * minSamples
    ensures multiset(pooled) == Pooled(samples, keys) ==>
              && |pooled| >= minSamples && 0 < Percentile(pooled, 0.50)
              && forall a <- keys :: IsSlow(samples[a], multiplier, Percentile(pooled, 0.50))
  {
    var big := multiplier + 1;
    var values := HalfAndHalf(minSamples, big);
    samples := map a | a in keys :: values;
    PooledTogether(samples, keys, values);
    if multiset(pooled) == Pooled(samples, keys) {
      var all := Together(values, |keys|);
      TogetherHalved(values, big, |keys|);
      PercentileOfMultiset(pooled, all, 0.50);
      MedianOfHalved(all, big, Percentile(all, 0.50));
      TopOfHalved(values, big, Percentile(values, 0.95));
    }
  }
}
