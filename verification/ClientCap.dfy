/**
 Per-client retry budgets, kept for the most recently used clients only: a
 map for lookup beside a list in recency order, and an eviction at the tail.
 */
module ClientCap {
  import opened RetryBudget

  const ANONYMOUS: string := "anonymous"

  function ClientName(key: string): string { if key == "" then ANONYMOUS else key }

  // ------------------------------------------------------------------
  // Recency, as a function of the whole history of uses
  // ------------------------------------------------------------------

  function Without(keys: seq<string>, key: string): seq<string> {
    if keys == [] then []
    else if keys[0] == key then Without(keys[1..], key)
    else [keys[0]] + Without(keys[1..], key)
  }

  /** The distinct keys of a history, last used first. */
  function Recency(hist: seq<string>): seq<string> {
    if hist == [] then []
    else
      var key := hist[|hist| - 1];
      [key] + Without(Recency(hist[..|hist| - 1]), key)
  }

  /** The `size` most recently used keys; all of them if `size` is not positive. */
  function MostRecent(hist: seq<string>, size: int): seq<string> { Take(Recency(hist), size) }

  function Take(keys: seq<string>, size: int): seq<string> {
    if 0 < size < |keys| then keys[..size] else keys
  }

  predicate Distinct(keys: seq<string>) {
    forall i, j :: 0 <= i < j < |keys| ==> keys[i] != keys[j]
  }

  lemma {:induction false} WithoutMembers(keys: seq<string>, key: string)
    ensures forall x :: x in Without(keys, key) <==> x in keys && x != key
    ensures Distinct(keys) ==> Distinct(Without(keys, key))
    ensures Distinct(keys) ==> |Without(keys, key)| == |keys| - if key in keys then 1 else 0
  {
    if keys != [] {
      WithoutMembers(keys[1..], key);
      if Distinct(keys) {
        assert keys[0] !in keys[1..];
        assert Distinct(keys[1..]);
      }
    }
  }

  lemma {:induction false} WithoutAbsent(keys: seq<string>, key: string)
    requires key !in keys
    ensures Without(keys, key) == keys
  {
    if keys != [] {
      WithoutAbsent(keys[1..], key);
    }
  }

  lemma {:induction false} WithoutConcat(a: seq<string>, b: seq<string>, key: string)
    ensures Without(a + b, key) == Without(a, key) + Without(b, key)
  {
    if a == [] {
      assert a + b == b;
    } else {
      assert (a + b)[1..] == a[1..] + b;
      WithoutConcat(a[1..], b, key);
    }
  }

  lemma {:induction false} RecencyDistinct(hist: seq<string>)
    ensures Distinct(Recency(hist))
    ensures forall x :: x in Recency(hist) <==> x in hist
  {
    if hist != [] {
      var front, key := hist[..|hist| - 1], hist[|hist| - 1];
      RecencyDistinct(front);
      WithoutMembers(Recency(front), key);
      assert hist == front + [key];
    }
  }

  /** Using a key again: of the kept keys, it moves to the front. */
  lemma TouchKept(recency: seq<string>, key: string, size: int)
    requires Distinct(recency) && key in Take(recency, size)
    ensures Take([key] + Without(recency, key), size) == [key] + Without(Take(recency, size), key)
  {
    var kept := Take(recency, size);
    var rest := recency[|kept|..];
    assert recency == kept + rest;
    NotInRest(recency, |kept|, key);
    WithoutConcat(kept, rest, key);
    WithoutAbsent(rest, key);
    WithoutMembers(kept, key);
    var touched := [key] + Without(kept, key);
    assert [key] + Without(recency, key) == touched + rest;
    TakeFront(touched, rest, size);
  }

  lemma NotInRest(keys: seq<string>, n: nat, key: string)
    requires Distinct(keys) && n <= |keys| && key in keys[..n]
    ensures key !in keys[n..] && Distinct(keys[..n])
  {
    var i :| 0 <= i < n && keys[i] == key;
    assert forall j :: 0 <= j < |keys| - n ==> keys[n..][j] == keys[n + j];
  }

  lemma TakeFront(front: seq<string>, rest: seq<string>, size: int)
    requires if rest == [] then size <= 0 || |front| <= size else |front| == size > 0
    ensures Take(front + rest, size) == front
  {
    assert (front + rest)[..|front|] == front;
  }

  /** Using a key that is not kept: it is put in front and the tail goes if there is one too many. */
  lemma TouchNew(recency: seq<string>, key: string, size: int)
    requires Distinct(recency) && key !in Take(recency, size)
    ensures Take([key] + Without(recency, key), size) == Take([key] + Take(recency, size), size)
  {
    var kept := Take(recency, size);
    var rest := recency[|kept|..];
    assert recency == kept + rest;
    WithoutConcat(kept, rest, key);
    WithoutAbsent(kept, key);
    assert [key] + Without(recency, key) == ([key] + kept) + Without(rest, key);
    if rest == [] {
      assert Without(rest, key) == [];
      assert ([key] + kept) + [] == [key] + kept;
    }
  }

  /** The other keys used since a key was last used are exactly the ones ahead of it. */
  lemma {:induction false} AheadOf(before: seq<string>, key: string, since: seq<string>) returns (tail: seq<string>)
    requires key !in since
    ensures Recency(before + [key] + since) == Recency(since) + ([key] + tail)
    decreases |since|
  {
    if since == [] {
      assert before + [key] + since == before + [key];
      RecencySnoc(before, key);
      tail := Without(Recency(before), key);
    } else {
      var front, last := since[..|since| - 1], since[|since| - 1];
      assert before + [key] + since == (before + [key] + front) + [last];
      assert since == front + [last];
      tail := AheadOf(before, key, front);
      RecencySnoc(before + [key] + front, last);
      RecencySnoc(front, last);
      AheadKept(Recency(front), key, tail, last);
      tail := Without(tail, last);
    }
  }

  lemma RecencySnoc(hist: seq<string>, key: string)
    ensures Recency(hist + [key]) == [key] + Without(Recency(hist), key)
  {
    assert (hist + [key])[..|hist|] == hist;
  }

  /** Touching another key keeps `key` just behind the keys ahead of it. */
  lemma AheadKept(ahead: seq<string>, key: string, tail: seq<string>, last: string)
    requires key != last
    ensures [last] + Without(ahead + ([key] + tail), last)
         == ([last] + Without(ahead, last)) + ([key] + Without(tail, last))
  {
    WithoutConcat(ahead, [key] + tail, last);
    assert ([key] + tail)[1..] == tail;
  }

  /** How many different keys a history uses. */
  function DistinctKeys(hist: seq<string>): nat { |set key | key in hist| }

  lemma {:induction false} RecencyLength(hist: seq<string>)
    ensures |Recency(hist)| == DistinctKeys(hist)
  {
    if hist == [] {
      assert (set key | key in hist) == {};
    } else {
      var front, last := hist[..|hist| - 1], hist[|hist| - 1];
      RecencyLength(front);
      RecencyDistinct(front);
      WithoutMembers(Recency(front), last);
      var keys := set key | key in front;
      assert hist == front + [last];
      assert (set key | key in hist) == keys + {last};
      assert last in front <==> last in keys;
    }
  }

  /**
   A client is still kept exactly while fewer than `size` different other
   clients have been seen since its last use.
   */
  lemma KeptExactly(before: seq<string>, key: string, since: seq<string>, size: int)
    requires 0 < size && key !in since
    ensures key in MostRecent(before + [key] + since, size) <==> DistinctKeys(since) < size
  {
    var recency := Recency(before + [key] + since);
    var tail := AheadOf(before, key, since);
    RecencyLength(since);
    RecencyDistinct(before + [key] + since);
    var n := |Recency(since)|;
    assert recency[n] == key;
    if size < |recency| {
      if n < size {
        assert recency[..size][n] == key;
      }
    }
  }

  // ------------------------------------------------------------------
  // The map and the list
  // ------------------------------------------------------------------

  class Cap {
    const percent: int
    const burst: int
    const lruSize: int
    /** The budget of each kept client. */
    var items: map<string, Budget>
    /** The kept clients, last used first. */
    var order: seq<string>
    /** The client names of all calls so far. */
    ghost var hist: seq<string>

    /** Map and list hold the same clients: the most recently used ones, in order. */
    ghost predicate Valid()
      reads this
    {
      && order == MostRecent(hist, lruSize)
      && forall key :: key in items <==> key in order
    }

    constructor (percent: int, burst: int, lruSize: int)
      ensures Valid() && hist == []
      ensures this.percent == percent && this.burst == burst && this.lruSize == lruSize
    {
      this.percent, this.burst, this.lruSize := percent, burst, lruSize;
      items, order, hist := map[], [], [];
    }

    /**
     A kept client gets the budget it had; a new one gets an empty budget.
     Clients that stay keep theirs.
     */
    method Bucket(client: string) returns (budget: Budget)
      requires Valid()
      modifies this
      ensures Valid() && hist == old(hist) + [if client == "" then "anonymous" else client]
      ensures ClientName(client) in items && items[ClientName(client)] == budget
      ensures if ClientName(client) in MostRecent(old(hist), lruSize)
              then ClientName(client) in old(items) && budget == old(items)[ClientName(client)]
              else fresh(budget) && budget.View() == Fresh(percent, burst)
      ensures forall key <- items :: key != ClientName(client) ==> key in old(items) && items[key] == old(items)[key]
    {
      var key := if client == "" then ANONYMOUS else client;
      ghost var recency := Recency(hist);
      RecencyDistinct(hist);
      assert (hist + [key])[..|hist|] == hist;
      hist := hist + [key];
      if key in items {
        TouchKept(recency, key, lruSize);
        WithoutMembers(order, key);
        order := [key] + Without(order, key);
        return items[key];
      }
      TouchNew(recency, key, lruSize);
      TakenAreDistinct(recency, lruSize);
      budget := Insert(key);
    }

    /** Puts a new client in front, and drops the last one if the list grew too long. */
    method Insert(key: string) returns (budget: Budget)
      requires key !in order && Distinct(order) && (0 < lruSize ==> |order| <= lruSize)
      requires forall k :: k in items <==> k in order
      modifies `order, `items
      ensures order == Take([key] + old(order), lruSize)
      ensures forall k :: k in items <==> k in order
      ensures key in items && items[key] == budget && fresh(budget) && budget.View() == Fresh(percent, burst)
      ensures forall k <- items :: k != key ==> k in old(items) && items[k] == old(items)[k]
    {
      budget := new Budget(percent, burst);
      order := [key] + order;
      items := items[key := budget];
      if lruSize > 0 && |order| > lruSize {
        EvictOldest();
      }
    }

    /** Drops the last client of the list from both. */
    method EvictOldest()
      requires Distinct(order) && order != []
      requires forall key :: key in items <==> key in order
      modifies `order, `items
      ensures order == old(order)[..|old(order)| - 1]
      ensures items == old(items) - {old(order)[|old(order)| - 1]}
      ensures forall key :: key in items <==> key in order
    {
      var oldest := order[|order| - 1];
      assert order == order[..|order| - 1] + [oldest];
      order := order[..|order| - 1];
      items := items - {oldest};
    }
  }

  lemma TakenAreDistinct(keys: seq<string>, size: int)
    requires Distinct(keys)
    ensures Distinct(Take(keys, size))
    ensures 0 < size ==> |Take(keys, size)| <= size
  {}
}
