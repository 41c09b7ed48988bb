/** Choosing between the stable and the canary variant of a route. */
module TrafficSplit {
  import opened Configuration
  import opened Options
  import Arith

  datatype Variant = Stable | Canary

  datatype Split = Split(stableWeight: int, canaryWeight: int)

  /** The variant a 64-bit value stands for. */
  function Choose(s: Split, value: nat): Variant {
    var total := s.stableWeight + s.canaryWeight;
    if total <= 0 || s.canaryWeight <= 0 then Stable
    else if s.stableWeight <= 0 then Canary
    else if value % total < s.canaryWeight then Canary
    else Stable
  }

  function Canaries(s: Split, from: nat, n: nat): nat {
    if n == 0 then 0 else Canaries(s, from, n - 1) + if Choose(s, from + n - 1).Canary? then 1 else 0
  }

  lemma {:induction false} CanariesFromZero(s: Split, n: nat)
    requires 0 < s.stableWeight && 0 < s.canaryWeight && n <= s.stableWeight + s.canaryWeight
    ensures Canaries(s, 0, n) == if n <= s.canaryWeight then n else s.canaryWeight
  {
    if n > 0 {
      CanariesFromZero(s, n - 1);
      Arith.DivIs(n - 1, s.stableWeight + s.canaryWeight, 0, n - 1);
    }
  }

  lemma {:induction false} CanariesShift(s: Split, from: nat, n: nat)
    ensures Canaries(s, from, n) + (if Choose(s, from + n).Canary? then 1 else 0)
         == Canaries(s, from + 1, n) + (if Choose(s, from).Canary? then 1 else 0)
  {
    if n > 0 {
      CanariesShift(s, from, n - 1);
    }
  }

  lemma {:induction false} OneSided(s: Split, from: nat, n: nat)
    requires 0 <= s.stableWeight && 0 <= s.canaryWeight && 0 < s.stableWeight + s.canaryWeight
    requires s.stableWeight == 0 || s.canaryWeight == 0
    ensures Canaries(s, from, n) == if s.canaryWeight == 0 then 0 else n
  {
    if n > 0 {
      OneSided(s, from, n - 1);
    }
  }

  /** Of any `total` consecutive values exactly the canary's weight choose the canary. */
  lemma {:induction false} WeightsAreShares(s: Split, from: nat)
    requires 0 <= s.stableWeight && 0 <= s.canaryWeight && 0 < s.stableWeight + s.canaryWeight
    ensures Canaries(s, from, s.stableWeight + s.canaryWeight) == s.canaryWeight
  {
    var total := s.stableWeight + s.canaryWeight;
    if s.stableWeight == 0 || s.canaryWeight == 0 {
      OneSided(s, from, total);
    } else if from == 0 {
      CanariesFromZero(s, total);
    } else {
      WeightsAreShares(s, from - 1);
      CanariesShift(s, from - 1, total);
      Arith.ModShift(from - 1, total);
    }
  }

  /** The canary has the first values of every stretch of the total. */
  lemma FirstValuesAreCanary(s: Split, value: nat)
    requires 0 < s.stableWeight && 0 < s.canaryWeight
    ensures
      var total := s.stableWeight + s.canaryWeight;
      && (value < total ==> (Choose(s, value).Canary? <==> value < s.canaryWeight))
      && Choose(s, value + total) == Choose(s, value)
  {
    var total := s.stableWeight + s.canaryWeight;
    Arith.ModShift(value, total);
    if value < total {
      Arith.DivIs(value, total, 0, value);
    }
  }

  /** The canary is out of reach exactly when it has no weight, or both weights sum to nothing. */
  lemma NeverCanaryExactly(s: Split)
    ensures (forall value: nat :: Choose(s, value).Stable?) <==> s.canaryWeight <= 0 || s.stableWeight + s.canaryWeight <= 0
  {
    if s.canaryWeight > 0 && s.stableWeight + s.canaryWeight > 0 {
      Arith.DivIs(0, s.stableWeight + s.canaryWeight, 0, 0);
      assert Choose(s, 0).Canary?;
    }
  }

  /** What a request draws: the hash of its cohort key, if it has one, and a random value. */
  datatype Draw = Draw(drained: bool, cohort: Option<nat>, random: nat)

  datatype Plan = Plan(split: Split, sticky: bool)

  function PickVariant(plan: Option<Plan>, d: Draw): Variant {
    if plan.None? then Stable
    else
      var split := if d.drained then plan.value.split.(canaryWeight := 0) else plan.value.split;
      if plan.value.sticky && d.cohort.Some? then Choose(split, d.cohort.value) else Choose(split, d.random)
  }

  /** How many requests with the random values from, from + 1, ..., from + n - 1 get the canary. */
  function RandomPicks(plan: Plan, cohort: Option<nat>, from: nat, n: nat): nat {
    if n == 0 then 0
    else RandomPicks(plan, cohort, from, n - 1) + if PickVariant(Some(plan), Draw(false, cohort, from + n - 1)).Canary? then 1 else 0
  }

  /** How many requests with cohort hashes from, from + 1, ..., from + n - 1 get the canary. */
  function CohortPicks(plan: Plan, random: nat, from: nat, n: nat): nat {
    if n == 0 then 0
    else CohortPicks(plan, random, from, n - 1) + if PickVariant(Some(plan), Draw(false, Some(from + n - 1), random)).Canary? then 1 else 0
  }

  lemma {:induction false} RandomPicksAre(plan: Plan, cohort: Option<nat>, from: nat, n: nat)
    requires !plan.sticky || cohort.None?
    ensures RandomPicks(plan, cohort, from, n) == Canaries(plan.split, from, n)
  {
    if n > 0 {
      RandomPicksAre(plan, cohort, from, n - 1);
    }
  }

  lemma {:induction false} CohortPicksAre(plan: Plan, random: nat, from: nat, n: nat)
    requires plan.sticky
    ensures CohortPicks(plan, random, from, n) == Canaries(plan.split, from, n)
  {
    if n > 0 {
      CohortPicksAre(plan, random, from, n - 1);
    }
  }

  /**
   While the canary is not drained it gets its share: of the requests over
   consecutive random values where the draw decides, and of those over
   consecutive cohort hashes where the cohort does.
   */
  lemma PicksAreShares(plan: Plan, cohort: Option<nat>, random: nat, from: nat)
    requires 0 <= plan.split.stableWeight && 0 <= plan.split.canaryWeight && 0 < plan.split.stableWeight + plan.split.canaryWeight
    ensures
      var total := plan.split.stableWeight + plan.split.canaryWeight;
      if plan.sticky && cohort.Some? then CohortPicks(plan, random, from, total) == plan.split.canaryWeight
      else RandomPicks(plan, cohort, from, total) == plan.split.canaryWeight
  {
    var total := plan.split.stableWeight + plan.split.canaryWeight;
    WeightsAreShares(plan.split, from);
    if plan.sticky && cohort.Some? {
      CohortPicksAre(plan, random, from, total);
    } else {
      RandomPicksAre(plan, cohort, from, total);
    }
  }

  /** A drained canary gets nothing; a sticky request always gets the same variant. */
  lemma PickedMeans(plan: Option<Plan>, d: Draw, e: Draw)
    ensures d.drained ==> PickVariant(plan, d) == Stable
    ensures plan.Some? && plan.value.sticky && d.cohort.Some? && d.cohort == e.cohort && d.drained == e.drained
            ==> PickVariant(plan, d) == PickVariant(plan, e)
  {}
}
