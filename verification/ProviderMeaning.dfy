/**
 What a merged configuration holds, said of the providers' own routes and
 pools: without the notions the merge is specified with.
 */
module ProviderMeaning {
  import opened Configuration
  import opened Options
  import opened ProviderMerge
  import opened ProviderConfig

  // ------------------------------------------------------------------
  // Pools
  // ------------------------------------------------------------------

  lemma {:induction false} LastPoolIs(entries: seq<Entry>, name: string, i: nat)
    requires i < |entries| && name != "" && name in entries[i].cfg.pools
    requires forall j :: i < j < |entries| ==> name !in entries[j].cfg.pools
    ensures LastPool(entries, name) == Some(entries[i].cfg.pools[name].(overlay := false))
  {
    if i < |entries| - 1 {
      LastPoolIs(entries[..|entries| - 1], name, i);
    }
  }

  lemma {:induction false} LastPoolFrom(entries: seq<Entry>, name: string) returns (i: nat)
    requires LastPool(entries, name).Some?
    ensures i < |entries| && name != "" && name in entries[i].cfg.pools
    ensures forall j :: i < j < |entries| ==> name !in entries[j].cfg.pools
  {
    var n := |entries| - 1;
    if Mentions(entries[n], name) {
      i := n;
    } else {
      i := LastPoolFrom(entries[..n], name);
    }
  }

  /** The last entry that has a pool decides what it is in the result, overlay or not. */
  lemma PoolIsLastGiven(cfg: Config, entries: seq<Entry>, name: string, i: nat)
    requires Stands(cfg, entries) && i < |entries| && name != "" && name in entries[i].cfg.pools
    requires forall j :: i < j < |entries| ==> name !in entries[j].cfg.pools
    ensures name in cfg.pools && cfg.pools[name] == entries[i].cfg.pools[name].(overlay := false)
  {
    LastPoolIs(entries, name, i);
    assert PoolIsLast(cfg.pools, name, entries);
  }

  /** And the result has no other pools. */
  lemma PoolIsGiven(cfg: Config, entries: seq<Entry>, name: string) returns (i: nat)
    requires Stands(cfg, entries) && name in cfg.pools
    ensures name != "" && i < |entries| && name in entries[i].cfg.pools
    ensures cfg.pools[name] == entries[i].cfg.pools[name].(overlay := false)
    ensures forall j :: i < j < |entries| ==> name !in entries[j].cfg.pools
  {
    assert PoolIsLast(cfg.pools, name, entries);
    i := LastPoolFrom(entries, name);
    LastPoolIs(entries, name, i);
  }

  /** Two entries have a pool and none in between does. */
  predicate NextGiven(entries: seq<Entry>, name: string, i: int, j: int) {
    && 0 <= i < j < |entries| && name in entries[i].cfg.pools && name in entries[j].cfg.pools
    && forall m :: i < m < j ==> name !in entries[m].cfg.pools
  }

  /** The entries agree on a pool if and only if each gives what the one before gave, or overlays only its endpoints. */
  lemma {:induction false} PoolAgreesExactly(entries: seq<Entry>, name: string)
    requires name != ""
    ensures PoolAgrees(entries, name)
       <==> forall i, j :: NextGiven(entries, name, i, j) ==>
              var p, q := entries[i].cfg.pools[name], entries[j].cfg.pools[name];
              && (p.endpoints == q.endpoints || q.overlay)
              && p.health == q.health && p.breaker == q.breaker && p.outlier == q.outlier && p.transport == q.transport
  {
    if entries != [] {
      var n := |entries| - 1;
      var front := entries[..n];
      PoolAgreesExactly(front, name);
      assert forall i, j :: NextGiven(front, name, i, j) <==> NextGiven(entries, name, i, j) && j < n;
      if name in entries[n].cfg.pools {
        if LastPool(front, name).Some? {
          var i := LastPoolFrom(front, name);
          LastPoolIs(front, name, i);
          assert NextGiven(entries, name, i, n);
          assert forall m :: NextGiven(entries, name, m, n) ==> m == i;
          AcceptsPoolIs(entries[i].cfg.pools[name], entries[n].cfg.pools[name]);
        } else {
          NoneGiven(front, name);
        }
      }
    }
  }

  lemma {:induction false} NoneGiven(entries: seq<Entry>, name: string)
    requires name != "" && LastPool(entries, name).None?
    ensures forall i :: 0 <= i < |entries| ==> name !in entries[i].cfg.pools
  {
    if entries != [] {
      NoneGiven(entries[..|entries| - 1], name);
    }
  }

  lemma AcceptsPoolIs(p: Pool, q: Pool)
    ensures AcceptsPool(Some(p.(overlay := false)), q)
       <==> && (p.endpoints == q.endpoints || q.overlay)
            && p.health == q.health && p.breaker == q.breaker && p.outlier == q.outlier && p.transport == q.transport
  {}

  // ------------------------------------------------------------------
  // Where a provider's route stands among all mentions
  // ------------------------------------------------------------------

  predicate IsRoute(entries: seq<Entry>, i: int, k: int) {
    0 <= i < |entries| && 0 <= k < |entries[i].cfg.routes| && entries[i].cfg.routes[k].id != ""
  }

  function Position(entries: seq<Entry>, i: nat, k: nat): nat
    requires IsRoute(entries, i, k)
  {
    |RouteMentions(entries[..i])| + |MentionsOf(entries[i], k)|
  }

  /** Entry order first, then the order within the entry. */
  predicate Before(i: int, k: int, j: int, l: int) { i < j || (i == j && k < l) }

  lemma {:induction false} MentionsExtend(entries: seq<Entry>, i: nat)
    requires i <= |entries|
    ensures RouteMentions(entries[..i]) <= RouteMentions(entries)
    decreases |entries|
  {
    if i == |entries| {
      assert entries[..i] == entries;
    } else {
      var front := entries[..|entries| - 1];
      MentionsExtend(front, i);
      assert front[..i] == entries[..i];
    }
  }

  lemma PositionIs(entries: seq<Entry>, i: nat, k: nat)
    requires IsRoute(entries, i, k)
    ensures Position(entries, i, k) < |RouteMentions(entries)|
    ensures RouteMentions(entries)[Position(entries, i, k)] == Mention(entries[i].cfg.routes[k], entries[i].name)
  {
    MentionsExtend(entries, i + 1);
    assert entries[..i + 1][..i] == entries[..i];
    MentionAt(RouteMentions(entries[..i]), entries[i], k);
  }

  lemma PositionsInOrder(entries: seq<Entry>, i: nat, k: nat, j: nat, l: nat)
    requires IsRoute(entries, i, k) && IsRoute(entries, j, l) && Before(i, k, j, l)
    ensures Position(entries, i, k) < Position(entries, j, l)
  {
    if i < j {
      var front := entries[..j];
      PositionIs(front, i, k);
      assert front[..i] == entries[..i];
    } else {
      MentionsGrow(entries[i], k + 1, l);
    }
  }

  lemma {:induction false} MentionFrom(e: Entry, n: nat, j: nat) returns (k: nat)
    requires n <= |e.cfg.routes| && j < |MentionsOf(e, n)|
    ensures k < n && e.cfg.routes[k].id != "" && |MentionsOf(e, k)| == j
  {
    k := n - 1;
    if e.cfg.routes[k].id == "" || j < |MentionsOf(e, k)| {
      k := MentionFrom(e, k, j);
    }
  }

  lemma {:induction false} PositionFrom(entries: seq<Entry>, p: nat) returns (i: nat, k: nat)
    requires p < |RouteMentions(entries)|
    ensures IsRoute(entries, i, k) && Position(entries, i, k) == p
  {
    var n := |entries| - 1;
    var front, e := entries[..n], entries[n];
    if p < |RouteMentions(front)| {
      i, k := PositionFrom(front, p);
      assert front[..i] == entries[..i];
    } else {
      i := n;
      k := MentionFrom(e, |e.cfg.routes|, p - |RouteMentions(front)|);
    }
  }

  // ------------------------------------------------------------------
  // The last mention, the order of the first ones, and agreement
  // ------------------------------------------------------------------

  lemma {:induction false} LastRouteIs(flat: seq<Mention>, p: nat)
    requires p < |flat|
    requires forall q :: p < q < |flat| ==> flat[q].route.id != flat[p].route.id
    ensures LastRoute(flat, flat[p].route.id) == Some(flat[p].route.(overlay := false))
  {
    if p < |flat| - 1 {
      LastRouteIs(flat[..|flat| - 1], p);
    }
  }

  lemma {:induction false} LastRouteFrom(flat: seq<Mention>, id: string) returns (p: nat)
    requires LastRoute(flat, id).Some?
    ensures p < |flat| && flat[p].route.id == id && LastRoute(flat, id) == Some(flat[p].route.(overlay := false))
    ensures forall q :: p < q < |flat| ==> flat[q].route.id != id
  {
    var n := |flat| - 1;
    if flat[n].route.id == id {
      p := n;
    } else {
      p := LastRouteFrom(flat[..n], id);
    }
  }

  /** An ID listed earlier is mentioned before the first mention of one listed later. */
  lemma {:induction false} IdsInOrder(flat: seq<Mention>, a: nat, b: nat) returns (p: nat)
    requires a < b < |Ids(flat)|
    ensures p < |flat| && flat[p].route.id == Ids(flat)[a]
    ensures forall q :: 0 <= q <= p ==> flat[q].route.id != Ids(flat)[b]
  {
    var n := |flat| - 1;
    var front := flat[..n];
    if b < |Ids(front)| {
      p := IdsInOrder(front, a, b);
    } else {
      IdsMentioned(front, Ids(flat)[a]);
      p := LastRouteFrom(front, Ids(flat)[a]);
      forall q | 0 <= q < n
        ensures flat[q].route.id != flat[n].route.id
      {
        IdsHold(front, q);
      }
    }
  }

  lemma {:induction false} IdsHold(flat: seq<Mention>, p: nat)
    requires p < |flat|
    ensures flat[p].route.id in Ids(flat)
  {
    if p < |flat| - 1 {
      IdsHold(flat[..|flat| - 1], p);
    }
  }

  lemma AcceptsRouteIs(p: Route, q: Route)
    ensures AcceptsRoute(Some(p.(overlay := false)), q)
       <==> || p.(overlay := false) == q.(overlay := false)
            || (q.overlay && q == p.(overlay := true, policy := p.policy.(traffic := p.policy.traffic.(
                  stableWeight := q.policy.traffic.stableWeight, canaryWeight := q.policy.traffic.canaryWeight))))
  {
    OverlayRouteIsLast(p, q);
    var weighed := WithWeights(p, q.policy.traffic.stableWeight, q.policy.traffic.canaryWeight);
    if q.overlay && q == weighed.(overlay := true) {
      assert RouteCore(q) == RouteCore(weighed) == RouteCore(p);
    }
  }

  /** Two mentions of one route with none of it in between. */
  predicate Adjacent(flat: seq<Mention>, p: int, q: int) {
    && 0 <= p < q < |flat| && flat[p].route.id == flat[q].route.id
    && forall m :: p < m < q ==> flat[m].route.id != flat[q].route.id
  }

  lemma {:induction false} FlatAgrees(flat: seq<Mention>)
    ensures RoutesAgree(flat)
       <==> forall p, q :: Adjacent(flat, p, q) ==> AcceptsRoute(Some(flat[p].route.(overlay := false)), flat[q].route)
  {
    if flat != [] {
      var n := |flat| - 1;
      var front, id := flat[..n], flat[n].route.id;
      FlatAgrees(front);
      assert forall p, q :: Adjacent(front, p, q) <==> Adjacent(flat, p, q) && q < n;
      if LastRoute(front, id).Some? {
        var p := LastRouteFrom(front, id);
        assert Adjacent(flat, p, n);
        assert forall m :: Adjacent(flat, m, n) ==> m == p;
      } else {
        forall p | 0 <= p < n
          ensures flat[p].route.id != id
        {
          IdsMentioned(front, id);
          IdsHold(front, p);
        }
      }
    }
  }

  // ------------------------------------------------------------------
  // Routes
  // ------------------------------------------------------------------

  /** The last provider's route with an ID decides what it is in the result, overlay or not. */
  lemma RouteIsLastGiven(cfg: Config, entries: seq<Entry>, i: nat, k: nat) returns (p: nat)
    requires Stands(cfg, entries) && IsRoute(entries, i, k)
    requires forall j, l :: IsRoute(entries, j, l) && Before(i, k, j, l) ==> entries[j].cfg.routes[l].id != entries[i].cfg.routes[k].id
    ensures p < |cfg.routes| && cfg.routes[p] == entries[i].cfg.routes[k].(overlay := false)
  {
    var flat, at, id := RouteMentions(entries), Position(entries, i, k), entries[i].cfg.routes[k].id;
    PositionIs(entries, i, k);
    forall q | at < q < |flat|
      ensures flat[q].route.id != id
    {
      var j, l := PositionFrom(entries, q);
      PositionIs(entries, j, l);
      if Before(j, l, i, k) {
        PositionsInOrder(entries, j, l, i, k);
      }
    }
    LastRouteIs(flat, at);
    IdsMentioned(flat, id);
    p :| 0 <= p < |Ids(flat)| && Ids(flat)[p] == id;
  }

  /** And the result has no other routes. */
  lemma RouteIsGiven(cfg: Config, entries: seq<Entry>, p: nat) returns (i: nat, k: nat)
    requires Stands(cfg, entries) && p < |cfg.routes|
    ensures IsRoute(entries, i, k) && cfg.routes[p] == entries[i].cfg.routes[k].(overlay := false)
    ensures forall j, l :: IsRoute(entries, j, l) && Before(i, k, j, l) ==> entries[j].cfg.routes[l].id != cfg.routes[p].id
  {
    var flat := RouteMentions(entries);
    var at := LastRouteFrom(flat, cfg.routes[p].id);
    i, k := PositionFrom(entries, at);
    PositionIs(entries, i, k);
    forall j, l | IsRoute(entries, j, l) && Before(i, k, j, l)
      ensures entries[j].cfg.routes[l].id != cfg.routes[p].id
    {
      PositionIs(entries, j, l);
      PositionsInOrder(entries, i, k, j, l);
    }
  }

  /** Routes come in the order in which the providers first have them, each ID once. */
  lemma RoutesInOrder(cfg: Config, entries: seq<Entry>, p: nat, q: nat) returns (i: nat, k: nat)
    requires Stands(cfg, entries) && p < q < |cfg.routes|
    ensures IsRoute(entries, i, k) && entries[i].cfg.routes[k].id == cfg.routes[p].id
    ensures forall j, l :: IsRoute(entries, j, l) && !Before(i, k, j, l) ==> entries[j].cfg.routes[l].id != cfg.routes[q].id
  {
    var flat := RouteMentions(entries);
    var at := IdsInOrder(flat, p, q);
    i, k := PositionFrom(entries, at);
    PositionIs(entries, i, k);
    forall j, l | IsRoute(entries, j, l) && !Before(i, k, j, l)
      ensures entries[j].cfg.routes[l].id != cfg.routes[q].id
    {
      PositionIs(entries, j, l);
      if Before(j, l, i, k) {
        PositionsInOrder(entries, j, l, i, k);
      }
    }
  }

  /** Two routes of the providers have the same ID and none in between has it. */
  ghost predicate NextRoute(entries: seq<Entry>, i: int, k: int, j: int, l: int) {
    && IsRoute(entries, i, k) && IsRoute(entries, j, l) && Before(i, k, j, l)
    && entries[i].cfg.routes[k].id == entries[j].cfg.routes[l].id
    && forall m, n :: IsRoute(entries, m, n) && Before(i, k, m, n) && Before(m, n, j, l) ==>
         entries[m].cfg.routes[n].id != entries[j].cfg.routes[l].id
  }

  lemma NextIsAdjacent(entries: seq<Entry>, i: nat, k: nat, j: nat, l: nat)
    requires IsRoute(entries, i, k) && IsRoute(entries, j, l) && Before(i, k, j, l)
    ensures NextRoute(entries, i, k, j, l) <==> Adjacent(RouteMentions(entries), Position(entries, i, k), Position(entries, j, l))
  {
    var flat, from, to := RouteMentions(entries), Position(entries, i, k), Position(entries, j, l);
    PositionIs(entries, i, k);
    PositionIs(entries, j, l);
    PositionsInOrder(entries, i, k, j, l);
    if NextRoute(entries, i, k, j, l) {
      forall p | from < p < to
        ensures flat[p].route.id != flat[to].route.id
      {
        var m, n := PositionFrom(entries, p);
        PositionIs(entries, m, n);
        if !Before(i, k, m, n) && (m, n) != (i, k) {
          PositionsInOrder(entries, m, n, i, k);
        }
        if !Before(m, n, j, l) && (m, n) != (j, l) {
          PositionsInOrder(entries, j, l, m, n);
        }
      }
    }
    if Adjacent(flat, from, to) {
      forall m, n | IsRoute(entries, m, n) && Before(i, k, m, n) && Before(m, n, j, l)
        ensures entries[m].cfg.routes[n].id != entries[j].cfg.routes[l].id
      {
        PositionIs(entries, m, n);
        PositionsInOrder(entries, i, k, m, n);
        PositionsInOrder(entries, m, n, j, l);
      }
    }
  }

  lemma AdjacentIsNext(entries: seq<Entry>, p: nat, q: nat) returns (i: nat, k: nat, j: nat, l: nat)
    requires Adjacent(RouteMentions(entries), p, q)
    ensures NextRoute(entries, i, k, j, l)
    ensures RouteMentions(entries)[p].route == entries[i].cfg.routes[k]
    ensures RouteMentions(entries)[q].route == entries[j].cfg.routes[l]
  {
    i, k := PositionFrom(entries, p);
    j, l := PositionFrom(entries, q);
    PositionIs(entries, i, k);
    PositionIs(entries, j, l);
    if !Before(i, k, j, l) && (i, k) != (j, l) {
      PositionsInOrder(entries, j, l, i, k);
    }
    NextIsAdjacent(entries, i, k, j, l);
  }

  /** If the entries agree on routes, each repeats the one before of its ID or overlays only its traffic weights... */
  lemma AgreeingRoutesFit(entries: seq<Entry>, i: nat, k: nat, j: nat, l: nat)
    requires RoutesAgree(RouteMentions(entries)) && NextRoute(entries, i, k, j, l)
    ensures
      var p, q := entries[i].cfg.routes[k], entries[j].cfg.routes[l];
      || p.(overlay := false) == q.(overlay := false)
      || (q.overlay && q == p.(overlay := true, policy := p.policy.(traffic := p.policy.traffic.(
            stableWeight := q.policy.traffic.stableWeight, canaryWeight := q.policy.traffic.canaryWeight))))
  {
    FlatAgrees(RouteMentions(entries));
    NextIsAdjacent(entries, i, k, j, l);
    PositionIs(entries, i, k);
    PositionIs(entries, j, l);
    AcceptsRouteIs(entries[i].cfg.routes[k], entries[j].cfg.routes[l]);
  }

  /** ...and if they do not, two routes show it. */
  lemma ClashingRoutes(entries: seq<Entry>) returns (i: nat, k: nat, j: nat, l: nat)
    requires !RoutesAgree(RouteMentions(entries))
    ensures NextRoute(entries, i, k, j, l)
    ensures
      var p, q := entries[i].cfg.routes[k], entries[j].cfg.routes[l];
      && p.(overlay := false) != q.(overlay := false)
      && (q.overlay ==> q != p.(overlay := true, policy := p.policy.(traffic := p.policy.traffic.(
            stableWeight := q.policy.traffic.stableWeight, canaryWeight := q.policy.traffic.canaryWeight))))
  {
    var flat := RouteMentions(entries);
    FlatAgrees(flat);
    var p, q :| Adjacent(flat, p, q) && !AcceptsRoute(Some(flat[p].route.(overlay := false)), flat[q].route);
    i, k, j, l := AdjacentIsNext(entries, p, q);
    AcceptsRouteIs(entries[i].cfg.routes[k], entries[j].cfg.routes[l]);
  }

  // ------------------------------------------------------------------
  // Listen address and TLS settings
  // ------------------------------------------------------------------

  /** The first listen address given is the result's, and nobody gives another. */
  lemma ListenIsFirstGiven(cfg: Config, entries: seq<Entry>, i: nat)
    requires Stands(cfg, entries) && i <= |entries| && (i < |entries| ==> entries[i].cfg.listenAddr != "")
    requires forall j :: 0 <= j < i ==> entries[j].cfg.listenAddr == ""
    ensures cfg.listenAddr == if i < |entries| then entries[i].cfg.listenAddr else ""
  {
    var given := Listens(entries);
    if i < |entries| {
      assert given[i].Some?;
    }
    assert FirstIndex(given) == i;
  }

  lemma TlsIsFirstGiven(cfg: Config, entries: seq<Entry>, i: nat)
    requires Stands(cfg, entries) && i <= |entries|
    requires i < |entries| ==>
               var t := entries[i].cfg.tls;
               t.enabled || t.addr != "" || t.certs.Length() != 0 || t.clientCaFile != "" || t.minVersion != "" || t.cipherSuites.Length() != 0
    requires forall j :: 0 <= j < i ==>
               var t := entries[j].cfg.tls;
               !t.enabled && t.addr == "" && t.certs.Length() == 0 && t.clientCaFile == "" && t.minVersion == "" && t.cipherSuites.Length() == 0
    ensures cfg.tls == if i < |entries| then entries[i].cfg.tls else NO_TLS
  {
    var given := TlsSettings(entries);
    if i < |entries| {
      assert given[i].Some?;
    }
    assert forall j :: 0 <= j < i ==> TlsEmpty(entries[j].cfg.tls) && given[j].None?;
    assert FirstIndex(given) == i;
  }

  /** Entries agree on the listen address if and only if all that give one give the same... */
  lemma ListensAgreeExactly(entries: seq<Entry>)
    ensures Unanimous(Listens(entries))
       <==> forall i, j :: 0 <= i < j < |entries| && entries[i].cfg.listenAddr != "" && entries[j].cfg.listenAddr != "" ==>
              entries[i].cfg.listenAddr == entries[j].cfg.listenAddr
  {
    var given := Listens(entries);
    if Unanimous(given) {
      forall i, j | 0 <= i < j < |entries| && entries[i].cfg.listenAddr != "" && entries[j].cfg.listenAddr != ""
        ensures entries[i].cfg.listenAddr == entries[j].cfg.listenAddr
      {
        assert given[i] == given[j];
      }
    }
  }

  /** ...and on TLS likewise, where a setting that differs from the empty one in anything counts as given. */
  lemma TlsAgreeExactly(entries: seq<Entry>)
    ensures Unanimous(TlsSettings(entries))
       <==> forall i, j :: 0 <= i < j < |entries| ==>
              var s, t := entries[i].cfg.tls, entries[j].cfg.tls;
              || s == t
              || (!s.enabled && s.addr == "" && s.certs.Length() == 0 && s.clientCaFile == "" && s.minVersion == ""
                  && s.cipherSuites.Length() == 0)
              || (!t.enabled && t.addr == "" && t.certs.Length() == 0 && t.clientCaFile == "" && t.minVersion == ""
                  && t.cipherSuites.Length() == 0)
  {
    var given := TlsSettings(entries);
    if Unanimous(given) {
      forall i, j | 0 <= i < j < |entries| && !TlsEmpty(entries[i].cfg.tls) && !TlsEmpty(entries[j].cfg.tls)
        ensures entries[i].cfg.tls == entries[j].cfg.tls
      {
        assert given[i] == given[j];
      }
    }
  }

  // ------------------------------------------------------------------
  // Whom a conflict names
  // ------------------------------------------------------------------

  lemma {:induction false} PoolOwnerFrom(entries: seq<Entry>, name: string, i: nat) returns (a: nat)
    requires i < |entries| && name != "" && name in entries[i].cfg.pools
    requires forall j :: i < j < |entries| ==> name !in entries[j].cfg.pools
    ensures a <= i && name in entries[a].cfg.pools && PoolOwner(entries, name) == entries[a].name
    ensures forall m :: a <= m <= i && name in entries[m].cfg.pools ==>
              entries[m].cfg.pools[name].(overlay := false) == entries[i].cfg.pools[name].(overlay := false)
    ensures forall b :: NextGiven(entries, name, b, a) ==>
              entries[b].cfg.pools[name].(overlay := false) != entries[a].cfg.pools[name].(overlay := false)
  {
    var n := |entries| - 1;
    var front := entries[..n];
    if i < n {
      a := PoolOwnerFrom(front, name, i);
      assert forall b :: NextGiven(front, name, b, a) <==> NextGiven(entries, name, b, a);
    } else if LastPool(front, name) != Some(entries[i].cfg.pools[name].(overlay := false)) {
      a := i;
      forall b | NextGiven(entries, name, b, a)
        ensures entries[b].cfg.pools[name].(overlay := false) != entries[a].cfg.pools[name].(overlay := false)
      {
        LastPoolIs(front, name, b);
      }
    } else {
      var m := LastPoolFrom(front, name);
      LastPoolIs(front, name, m);
      a := PoolOwnerFrom(front, name, m);
      assert forall b :: NextGiven(front, name, b, a) <==> NextGiven(entries, name, b, a);
    }
  }

  /**
   A pool conflict names the entry whose pool does not fit, and the one that
   gave the pool the value it does not fit.
   */
  lemma PoolConflictNames(front: seq<Entry>, e: Entry, name: string, conflict: Conflict) returns (i: nat, a: nat)
    requires APoolConflict(front, e, name, conflict)
    ensures conflict.objectType == "pool" && conflict.objectId == name && conflict.incoming == e.name
    ensures NextGiven(front + [e], name, i, |front|) && a <= i
    ensures name in front[a].cfg.pools && conflict.existing == front[a].name
    ensures forall m :: a <= m <= i && name in front[m].cfg.pools ==>
              front[m].cfg.pools[name].(overlay := false) == front[i].cfg.pools[name].(overlay := false)
    ensures forall b :: NextGiven(front, name, b, a) ==>
              front[b].cfg.pools[name].(overlay := false) != front[a].cfg.pools[name].(overlay := false)
  {
    i := LastPoolFrom(front, name);
    a := PoolOwnerFrom(front, name, i);
  }

  lemma {:induction false} OwnerFrom(flat: seq<Mention>, p: nat) returns (a: nat)
    requires p < |flat|
    requires forall q :: p < q < |flat| ==> flat[q].route.id != flat[p].route.id
    ensures a <= p && flat[a].route.id == flat[p].route.id && Owner(flat, flat[p].route.id) == flat[a].provider
    ensures forall m :: a <= m <= p && flat[m].route.id == flat[p].route.id ==>
              flat[m].route.(overlay := false) == flat[p].route.(overlay := false)
    ensures forall b :: Adjacent(flat, b, a) ==> flat[b].route.(overlay := false) != flat[a].route.(overlay := false)
  {
    var n, id := |flat| - 1, flat[p].route.id;
    var front := flat[..n];
    if p < n {
      a := OwnerFrom(front, p);
      assert forall b :: Adjacent(front, b, a) <==> Adjacent(flat, b, a);
    } else if LastRoute(front, id) != Some(flat[p].route.(overlay := false)) {
      a := p;
      forall b | Adjacent(flat, b, a)
        ensures flat[b].route.(overlay := false) != flat[a].route.(overlay := false)
      {
        LastRouteIs(front, b);
      }
    } else {
      var m := LastRouteFrom(front, id);
      a := OwnerFrom(front, m);
      assert forall b :: Adjacent(front, b, a) <==> Adjacent(flat, b, a);
    }
  }

  /** A route conflict names the provider of the first mention that does not fit, and whoever gave the value it does not fit. */
  lemma RouteConflictNames(flat: seq<Mention>, j: nat, conflict: Conflict) returns (p: nat, a: nat)
    requires FirstRouteConflict(flat, j, conflict)
    ensures conflict.objectType == "route" && conflict.objectId == flat[j].route.id && conflict.incoming == flat[j].provider
    ensures Adjacent(flat, p, j) && a <= p && flat[a].route.id == flat[j].route.id && conflict.existing == flat[a].provider
    ensures forall m :: a <= m <= p && flat[m].route.id == flat[p].route.id ==>
              flat[m].route.(overlay := false) == flat[p].route.(overlay := false)
    ensures forall b :: Adjacent(flat, b, a) ==> flat[b].route.(overlay := false) != flat[a].route.(overlay := false)
  {
    var front := flat[..j];
    p := LastRouteFrom(front, flat[j].route.id);
    a := OwnerFrom(front, p);
    assert forall b :: Adjacent(front, b, a) <==> Adjacent(flat, b, a);
  }

  /** The field a route conflict names is one the two mentions differ in. */
  lemma RouteFieldDiffers(a: Route, b: Route, field: string)
    requires field == RouteConflictField(a, b)
    ensures field == "host" ==> a.host != b.host
    ensures field == "path_prefix" ==> a.pathPrefix != b.pathPrefix
    ensures field == "methods" ==> a.methods != b.methods
    ensures field == "pool" ==> a.pool != b.pool
  {}

  lemma PolicyFieldDiffers(a: Route, b: Route, field: string)
    requires field == RouteConflictField(a, b)
    ensures field == "policy.request_timeout_ms" ==> a.policy.requestTimeoutMs != b.policy.requestTimeoutMs
    ensures field == "policy.upstream_dial_timeout_ms" ==> a.policy.upstreamDialTimeoutMs != b.policy.upstreamDialTimeoutMs
    ensures field == "policy.upstream_response_header_timeout_ms" ==>
              a.policy.upstreamResponseHeaderTimeoutMs != b.policy.upstreamResponseHeaderTimeoutMs
    ensures field == "policy.require_mtls" ==> a.policy.requireMtls != b.policy.requireMtls
    ensures field == "policy.mtls_client_ca" ==> a.policy.mtlsClientCa != b.policy.mtlsClientCa
    ensures field == "policy.retry" ==> a.policy.retry != b.policy.retry
    ensures field == "policy.retry_budget" ==> a.policy.retryBudget != b.policy.retryBudget
    ensures field == "policy.client_retry_cap" ==> a.policy.clientRetryCap != b.policy.clientRetryCap
    ensures field == "policy.cache" ==> a.policy.cache != b.policy.cache
    ensures field == "policy.plugins" ==> a.policy.plugins != b.policy.plugins
    ensures field == "policy.traffic" ==> a.policy.traffic != b.policy.traffic
  {}

  lemma PoolFieldDiffers(a: Pool, b: Pool, field: string)
    requires field == PoolConflictField(a, b)
    ensures field == "endpoints" ==> a.endpoints != b.endpoints
    ensures field == "health" ==> a.health != b.health
    ensures field == "breaker" ==> a.breaker != b.breaker
    ensures field == "outlier" ==> a.outlier != b.outlier
  {}

  // ------------------------------------------------------------------
  // What the providers load
  // ------------------------------------------------------------------

  /** Every provider that loads a configuration contributes it under its own name and priority, in order, and no other does. */
  lemma {:induction false} EntriesAreLoaded(providers: seq<Option<Provider>>, more: seq<Option<Provider>>)
    ensures EntriesOf(providers + more) == EntriesOf(providers) + EntriesOf(more)
    ensures forall p :: EntriesOf([p]) == if p.Some? && p.value.load.Loaded?
                                          then [Entry(p.value.name, p.value.priority, p.value.load.cfg)] else []
    decreases |more|
  {
    assert forall p: Option<Provider> :: [p][..0] == [];
    if more == [] {
      assert providers + more == providers;
    } else {
      var n := |more| - 1;
      assert (providers + more)[..|providers + more| - 1] == providers + more[..n];
      EntriesAreLoaded(providers, more[..n]);
    }
  }
}
