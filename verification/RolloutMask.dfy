/**
 The locked stage of a rollout applies the new configuration with its
 canaries and plugins masked. The mask is idempotent, leaves everything else
 alone, cannot turn an acceptable configuration into a rejected one, and
 sends every request to the stable pool.
 */
module RolloutMask {
  import opened Configuration
  import opened Options
  import opened TrafficSplit

  const DEFAULT_STABLE_WEIGHT := 100
  const MAX_PLUGIN_FILTERS := 200
  const DEFAULT_OBJECT_BYTES := 1024 * 1024
  const MIN_OBJECT_BYTES := 1024
  const MAX_OBJECT_BYTES := 50 * 1024 * 1024
  const MAX_VARY_HEADER := 128

  // ------------------------------------------------------------------
  // The mask
  // ------------------------------------------------------------------

  function MaskTraffic(t: Traffic): Traffic {
    if t.enabled then t.(canaryWeight := 0, stableWeight := if t.stableWeight == 0 then DEFAULT_STABLE_WEIGHT else t.stableWeight)
    else t
  }

  function MaskRoute(r: Route): Route {
    r.(policy := r.policy.(plugins := Plugins(false, Absent), traffic := MaskTraffic(r.policy.traffic)))
  }

  function Mask(cfg: Config): Config {
    cfg.(routes := seq(|cfg.routes|, i requires 0 <= i < |cfg.routes| => MaskRoute(cfg.routes[i])))
  }

  method MaskLocked(cfg: Config) returns (locked: Config)
    ensures locked == Mask(cfg)
  {
    var routes := [];
    for i := 0 to |cfg.routes|
      invariant |routes| == i && forall k :: 0 <= k < i ==> routes[k] == MaskRoute(cfg.routes[k])
    {
      var route := cfg.routes[i];
      var policy := route.policy.(plugins := route.policy.plugins.(enabled := false, filters := Absent));
      if policy.traffic.enabled {
        policy := policy.(traffic := policy.traffic.(canaryWeight := 0));
        if policy.traffic.stableWeight == 0 {
          policy := policy.(traffic := policy.traffic.(stableWeight := 100));
        }
      }
      routes := routes + [route.(policy := policy)];
    }
    locked := cfg.(routes := routes);
    assert locked.routes == Mask(cfg).routes;
  }

  /** Masking twice is masking once. */
  lemma MaskIdempotent(cfg: Config)
    ensures Mask(Mask(cfg)) == Mask(cfg)
  {
    assert forall i :: 0 <= i < |cfg.routes| ==> MaskRoute(MaskRoute(cfg.routes[i])) == MaskRoute(cfg.routes[i]);
    assert Mask(Mask(cfg)).routes == Mask(cfg).routes;
  }

  /** A mask only touches plugins and, where traffic is split, the two weights. */
  lemma MaskTouchesOnly(cfg: Config, i: nat)
    requires i < |cfg.routes|
    ensures |Mask(cfg).routes| == |cfg.routes| && Mask(cfg).(routes := []) == cfg.(routes := [])
    ensures
      var r, was := Mask(cfg).routes[i], cfg.routes[i];
      && r.(policy := was.policy) == was
      && r.policy.(plugins := was.policy.plugins, traffic := was.policy.traffic) == was.policy
      && (if was.policy.traffic.enabled
          then var t := was.policy.traffic;
               && r.policy.traffic.(stableWeight := t.stableWeight, canaryWeight := t.canaryWeight) == t
               && r.policy.traffic.canaryWeight == 0
               && r.policy.traffic.stableWeight == if t.stableWeight == 0 then 100 else t.stableWeight
          else r.policy.traffic == was.policy.traffic)
      && !r.policy.plugins.enabled && r.policy.plugins.filters == Absent
  {}

  // ------------------------------------------------------------------
  // The checks a configuration has to pass
  // ------------------------------------------------------------------

  /** String helpers and the checks of parts that a mask does not touch. */
  datatype Checks = Checks(trim: string -> string, lower: string -> string, isIp: string -> bool, splits: string -> bool,
                           restOk: (string, Tls, Rest, map<string, Pool>, bool) -> bool)

  predicate FailureModeOk(c: Checks, mode: string) {
    var trimmed := c.trim(c.lower(mode));
    trimmed == "" || trimmed == "fail_open" || trimmed == "fail_closed"
  }

  predicate FilterOk(c: Checks, filter: PluginFilter) {
    && c.trim(filter.name) != "" && c.trim(filter.addr) != "" && c.splits(c.trim(filter.addr))
    && FailureModeOk(c, filter.failureMode)
  }

  function Filters(p: Plugins): seq<PluginFilter> { if p.filters.Absent? then [] else p.filters.items }

  predicate FiltersOk(c: Checks, filters: seq<PluginFilter>) {
    forall i :: 0 <= i < |filters| ==> FilterOk(c, filters[i])
  }

  predicate PluginsOk(c: Checks, p: Plugins) {
    (p.enabled ==> Filters(p) != []) && FiltersOk(c, Filters(p))
  }

  /** The filter names counted once some filters have joined. */
  function NamesAfter(c: Checks, names: set<string>, filters: seq<PluginFilter>): set<string> {
    if filters == [] then names else NamesAfter(c, names, filters[..|filters| - 1]) + {c.trim(filters[|filters| - 1].name)}
  }

  function FilterNames(c: Checks, routes: seq<Route>): set<string> {
    if routes == [] then {}
    else NamesAfter(c, FilterNames(c, routes[..|routes| - 1]), Filters(routes[|routes| - 1].policy.plugins))
  }

  lemma {:induction false} SubsetIsSmaller(a: set<string>, b: set<string>)
    requires a <= b
    ensures |a| <= |b|
  {
    if a != {} {
      var x :| x in a;
      SubsetIsSmaller(a - {x}, b - {x});
    }
  }

  lemma {:induction false} NamesGrow(c: Checks, names: set<string>, filters: seq<PluginFilter>, i: nat)
    requires i <= |filters|
    ensures NamesAfter(c, names, filters[..i]) <= NamesAfter(c, names, filters)
    decreases |filters|
  {
    if i == |filters| {
      assert filters[..i] == filters;
    } else {
      var front := filters[..|filters| - 1];
      NamesGrow(c, names, front, i);
      assert front[..i] == filters[..i];
    }
  }

  /** Too many names stay too many. */
  lemma TooManyNames(c: Checks, names: set<string>, filters: seq<PluginFilter>, i: nat)
    requires i <= |filters| && |NamesAfter(c, names, filters[..i])| > MAX_PLUGIN_FILTERS
    ensures |NamesAfter(c, names, filters)| > MAX_PLUGIN_FILTERS
  {
    NamesGrow(c, names, filters, i);
    SubsetIsSmaller(NamesAfter(c, names, filters[..i]), NamesAfter(c, names, filters));
  }

  /** The plugin filters of one route; names counted across routes. */
  method CheckPlugins(c: Checks, p: Plugins, names: set<string>) returns (ok: bool, names': set<string>)
    requires |names| <= MAX_PLUGIN_FILTERS
    ensures ok <==> PluginsOk(c, p) && |NamesAfter(c, names, Filters(p))| <= MAX_PLUGIN_FILTERS
    ensures ok ==> names' == NamesAfter(c, names, Filters(p))
  {
    if p.enabled && |Filters(p)| == 0 {
      return false, names;
    }
    ok, names' := CheckFilters(c, Filters(p), names);
  }

  method CheckFilters(c: Checks, filters: seq<PluginFilter>, names: set<string>) returns (ok: bool, names': set<string>)
    requires |names| <= MAX_PLUGIN_FILTERS
    ensures ok <==> FiltersOk(c, filters) && |NamesAfter(c, names, filters)| <= MAX_PLUGIN_FILTERS
    ensures ok ==> names' == NamesAfter(c, names, filters)
  {
    ok, names' := false, names;
    for i := 0 to |filters|
      invariant names' == NamesAfter(c, names, filters[..i]) && |names'| <= MAX_PLUGIN_FILTERS
      invariant FiltersOk(c, filters[..i])
    {
      var filter := filters[i];
      if !FilterOk(c, filter) {
        return;
      }
      names' := names' + {c.trim(filter.name)};
      assert filters[..i + 1][..i] == filters[..i];
      if |names'| > MAX_PLUGIN_FILTERS {
        TooManyNames(c, names, filters, i + 1);
        return;
      }
    }
    assert filters[..|filters|] == filters;
    ok := true;
  }

  predicate VaryHeaderOk(c: Checks, header: string) {
    var trimmed := c.trim(header);
    |trimmed| <= MAX_VARY_HEADER && forall i :: 0 <= i < |trimmed| ==> trimmed[i] as int <= 127
  }

  function VaryHeaders(cache: Cache): seq<string> { if cache.varyHeaders.Absent? then [] else cache.varyHeaders.items }

  predicate CacheOk(c: Checks, cache: Cache) {
    && (cache.maxObjectBytes <= 0 || MIN_OBJECT_BYTES <= cache.maxObjectBytes <= MAX_OBJECT_BYTES)
    && (forall i :: 0 <= i < |VaryHeaders(cache)| ==> VaryHeaderOk(c, VaryHeaders(cache)[i]))
    && (cache.enabled ==> 0 < cache.ttlMs)
  }

  /** The cache policy of one route. */
  method CheckCache(c: Checks, cache: Cache) returns (ok: bool)
    ensures ok <==> CacheOk(c, cache)
  {
    var maxObjectBytes := cache.maxObjectBytes;
    if maxObjectBytes <= 0 {
      maxObjectBytes := DEFAULT_OBJECT_BYTES;
    }
    if maxObjectBytes < MIN_OBJECT_BYTES || maxObjectBytes > MAX_OBJECT_BYTES {
      return false;
    }
    var headers := VaryHeaders(cache);
    for i := 0 to |headers|
      invariant forall k :: 0 <= k < i ==> VaryHeaderOk(c, headers[k])
    {
      var trimmed := c.trim(headers[i]);
      if trimmed == "" {
        continue;
      }
      if !VaryHeaderOk(c, headers[i]) {
        return false;
      }
    }
    return !cache.enabled || cache.ttlMs > 0;
  }

  /** The validation a configuration goes through before a snapshot is built from it. */
  predicate RouteValid(c: Checks, tls: Tls, r: Route) {
    && (r.policy.retry.enabled ==> 0 < r.policy.retry.maxAttempts)
    && (r.policy.traffic.overload.enabled ==> 0 < r.policy.traffic.overload.maxInflight)
    && (r.policy.requireMtls ==> tls.enabled && c.trim(tls.clientCaFile) != "")
  }

  predicate RoutesValid(c: Checks, cfg: Config) {
    forall i :: 0 <= i < |cfg.routes| ==> RouteValid(c, cfg.tls, cfg.routes[i])
  }

  method ValidateRoutes(c: Checks, cfg: Config) returns (ok: bool)
    ensures ok <==> RoutesValid(c, cfg)
  {
    for i := 0 to |cfg.routes|
      invariant forall k :: 0 <= k < i ==> RouteValid(c, cfg.tls, cfg.routes[k])
    {
      var policy := cfg.routes[i].policy;
      if policy.retry.enabled && policy.retry.maxAttempts <= 0 {
        return false;
      }
      if policy.traffic.overload.enabled && policy.traffic.overload.maxInflight <= 0 {
        return false;
      }
      if policy.requireMtls {
        if !cfg.tls.enabled {
          return false;
        }
        if c.trim(cfg.tls.clientCaFile) == "" {
          return false;
        }
      }
    }
    return true;
  }

  datatype Settings = Settings(stablePool: string, canaryPool: string, split: Split, cohort: Option<string>)

  predicate OverloadOk(o: Overload) {
    o.enabled ==> o.maxInflight > 0 && o.maxQueue >= 0 && (o.maxQueue > 0 ==> o.queueTimeoutMs > 0)
  }

  predicate AutoDrainOk(a: AutoDrain) {
    a.enabled ==> a.windowMs > 0 && a.minRequests > 0 && a.errorRateMultiplier > 0.0 && a.cooloffMs > 0
  }

  /** The traffic settings of a route that splits its traffic, unless they are refused. */
  function TrafficSettings(c: Checks, t: Traffic): Option<Settings> {
    var stablePool, canaryPool := c.trim(t.stablePool), c.trim(t.canaryPool);
    var stableWeight := if canaryPool == "" && t.stableWeight == 0 && t.canaryWeight == 0 then DEFAULT_STABLE_WEIGHT else t.stableWeight;
    if stablePool == "" then None
    else if t.stableWeight < 0 || t.canaryWeight < 0 then None
    else if canaryPool == "" && t.canaryWeight > 0 then None
    else if stableWeight == 0 && t.canaryWeight == 0 then None
    else if t.cohort.enabled && c.trim(t.cohort.key) == "" then None
    else if !OverloadOk(t.overload) || !AutoDrainOk(t.autoDrain) then None
    else Some(Settings(stablePool, canaryPool, Split(stableWeight, t.canaryWeight),
                       if t.cohort.enabled then Some(c.trim(t.cohort.key)) else None))
  }

  /** Whether a cohort extractor can be built; a blank key would build none. */
  predicate CohortOk(c: Checks, key: string) {
    var trimmed := c.trim(key);
    || trimmed == "" || c.isIp(trimmed)
    || (|trimmed| >= 7 && "header:" <= c.lower(trimmed) && c.trim(trimmed[7..]) != "")
  }

  predicate TrafficOk(c: Checks, pools: map<string, Pool>, id: string, t: Traffic) {
    t.enabled ==>
      var s := TrafficSettings(c, t);
      && s.Some? && s.value.stablePool in pools && (s.value.canaryPool != "" ==> s.value.canaryPool in pools)
      && id != "" && (s.value.cohort.Some? ==> CohortOk(c, s.value.cohort.value))
  }

  predicate RouteOk(c: Checks, pools: map<string, Pool>, r: Route) {
    && r.host != "" && "/" <= r.pathPrefix && r.pool in pools
    && (r.policy.requireMtls ==> r.policy.mtlsClientCa == "" || r.policy.mtlsClientCa == "default")
    && PluginsOk(c, r.policy.plugins) && CacheOk(c, r.policy.cache) && TrafficOk(c, pools, r.id, r.policy.traffic)
  }

  predicate DistinctIds(routes: seq<Route>) {
    forall i, j :: 0 <= i < j < |routes| ==> routes[i].id != routes[j].id
  }

  predicate EachOk(c: Checks, pools: map<string, Pool>, routes: seq<Route>) {
    forall i :: 0 <= i < |routes| ==> RouteOk(c, pools, routes[i])
  }

  predicate RoutesOk(c: Checks, pools: map<string, Pool>, routes: seq<Route>) {
    EachOk(c, pools, routes) && DistinctIds(routes) && |FilterNames(c, routes)| <= MAX_PLUGIN_FILTERS
  }

  predicate NeedsMtls(routes: seq<Route>) { exists i :: 0 <= i < |routes| && routes[i].policy.requireMtls }

  predicate Acceptable(c: Checks, cfg: Config) {
    RoutesValid(c, cfg) && RoutesOk(c, cfg.pools, cfg.routes) && c.restOk(cfg.listenAddr, cfg.tls, cfg.rest, cfg.pools, NeedsMtls(cfg.routes))
  }

  lemma {:induction false} FilterNamesGrow(c: Checks, routes: seq<Route>, i: nat)
    requires i <= |routes|
    ensures FilterNames(c, routes[..i]) <= FilterNames(c, routes)
    decreases |routes|
  {
    if i == |routes| {
      assert routes[..i] == routes;
    } else {
      var front := routes[..|routes| - 1];
      FilterNamesGrow(c, front, i);
      assert front[..i] == routes[..i];
      var filters := Filters(routes[|routes| - 1].policy.plugins);
      NamesGrow(c, FilterNames(c, front), filters, 0);
      assert filters[..0] == [];
    }
  }

  function IdsOf(routes: seq<Route>): set<string> { set i | 0 <= i < |routes| :: routes[i].id }

  /** All checks of the routes, one route after the other. */
  predicate RoutesPass(c: Checks, pools: map<string, Pool>, routes: seq<Route>) {
    routes == [] ||
    (var front, r := routes[..|routes| - 1], routes[|routes| - 1];
     && RoutesPass(c, pools, front) && RouteOk(c, pools, r) && r.id !in IdsOf(front)
     && |FilterNames(c, routes)| <= MAX_PLUGIN_FILTERS)
  }

  /** Checking route by route is checking the routes as a whole. */
  lemma {:induction false} RoutesPassExactly(c: Checks, pools: map<string, Pool>, routes: seq<Route>)
    ensures RoutesPass(c, pools, routes) <==> RoutesOk(c, pools, routes)
  {
    if routes != [] {
      RoutesPassExactly(c, pools, routes[..|routes| - 1]);
      RoutesOkSnoc(c, pools, routes);
    }
  }

  lemma RoutesOkSnoc(c: Checks, pools: map<string, Pool>, routes: seq<Route>)
    requires routes != []
    ensures
      var front, r := routes[..|routes| - 1], routes[|routes| - 1];
      RoutesOk(c, pools, routes) <==>
        && RoutesOk(c, pools, front) && RouteOk(c, pools, r) && r.id !in IdsOf(front)
        && |FilterNames(c, routes)| <= MAX_PLUGIN_FILTERS
  {
    EachSnoc(c, pools, routes);
    DistinctSnoc(routes);
    FewerNames(c, routes);
  }

  lemma FewerNames(c: Checks, routes: seq<Route>)
    requires routes != []
    ensures |FilterNames(c, routes[..|routes| - 1])| <= |FilterNames(c, routes)|
  {
    FilterNamesGrow(c, routes, |routes| - 1);
    SubsetIsSmaller(FilterNames(c, routes[..|routes| - 1]), FilterNames(c, routes));
  }

  lemma EachSnoc(c: Checks, pools: map<string, Pool>, routes: seq<Route>)
    requires routes != []
    ensures EachOk(c, pools, routes) <==> EachOk(c, pools, routes[..|routes| - 1]) && RouteOk(c, pools, routes[|routes| - 1])
  {
    assert forall i :: 0 <= i < |routes| - 1 ==> routes[..|routes| - 1][i] == routes[i];
  }

  lemma DistinctSnoc(routes: seq<Route>)
    requires routes != []
    ensures
      var front := routes[..|routes| - 1];
      DistinctIds(routes) <==> DistinctIds(front) && routes[|routes| - 1].id !in IdsOf(front)
  {
    var front := routes[..|routes| - 1];
    assert forall i :: 0 <= i < |front| ==> front[i].id == routes[i].id && front[i].id in IdsOf(front);
  }

  lemma {:induction false} PassPrefix(c: Checks, pools: map<string, Pool>, routes: seq<Route>, i: nat)
    requires i <= |routes| && RoutesPass(c, pools, routes)
    ensures RoutesPass(c, pools, routes[..i])
    decreases |routes|
  {
    if i == |routes| {
      assert routes[..i] == routes;
    } else {
      var front := routes[..|routes| - 1];
      PassPrefix(c, pools, front, i);
      assert front[..i] == routes[..i];
    }
  }

  /** One route against the IDs and filter names before it. */
  method CheckRoute(c: Checks, pools: map<string, Pool>, route: Route, seen: set<string>, names: set<string>)
    returns (ok: bool, names': set<string>)
    requires |names| <= MAX_PLUGIN_FILTERS
    ensures ok <==> RouteOk(c, pools, route) && route.id !in seen
                    && |NamesAfter(c, names, Filters(route.policy.plugins))| <= MAX_PLUGIN_FILTERS
    ensures ok ==> names' == NamesAfter(c, names, Filters(route.policy.plugins))
  {
    ok, names' := false, names;
    if route.host == "" || !("/" <= route.pathPrefix) || route.id in seen || route.pool !in pools {
      return;
    }
    if route.policy.requireMtls && route.policy.mtlsClientCa != "" && route.policy.mtlsClientCa != "default" {
      return;
    }
    ok, names' := CheckPlugins(c, route.policy.plugins, names);
    if ok {
      ok := CheckCache(c, route.policy.cache);
      ok := ok && TrafficOk(c, pools, route.id, route.policy.traffic);
    }
  }

  /** What is known after the routes so far. */
  ghost predicate Checked(c: Checks, pools: map<string, Pool>, front: seq<Route>, seen: set<string>, names: set<string>, mtls: bool) {
    && RoutesPass(c, pools, front) && seen == IdsOf(front) && (mtls <==> NeedsMtls(front))
    && names == FilterNames(c, front) && |names| <= MAX_PLUGIN_FILTERS
  }

  lemma PassSnoc(c: Checks, pools: map<string, Pool>, routes: seq<Route>, i: nat)
    requires i < |routes| && RoutesPass(c, pools, routes[..i])
    ensures RoutesPass(c, pools, routes[..i + 1])
       <==> RouteOk(c, pools, routes[i]) && routes[i].id !in IdsOf(routes[..i])
            && |FilterNames(c, routes[..i + 1])| <= MAX_PLUGIN_FILTERS
    ensures FilterNames(c, routes[..i + 1]) == NamesAfter(c, FilterNames(c, routes[..i]), Filters(routes[i].policy.plugins))
  {
    assert routes[..i + 1][..i] == routes[..i] && routes[..i + 1][i] == routes[i];
  }

  method CheckNext(c: Checks, pools: map<string, Pool>, routes: seq<Route>, i: nat, seen: set<string>, names: set<string>, mtls: bool)
    returns (ok: bool, seen': set<string>, names': set<string>, mtls': bool)
    requires i < |routes| && Checked(c, pools, routes[..i], seen, names, mtls)
    ensures if ok then Checked(c, pools, routes[..i + 1], seen', names', mtls') else !RoutesPass(c, pools, routes)
  {
    var route := routes[i];
    ok, names' := CheckRoute(c, pools, route, seen, names);
    seen', mtls' := seen + {route.id}, mtls || route.policy.requireMtls;
    PassSnoc(c, pools, routes, i);
    if ok {
      IdsSnoc(routes, i);
      NeedsSnoc(routes, i);
    } else if RoutesPass(c, pools, routes) {
      PassPrefix(c, pools, routes, i + 1);
    }
  }

  /** Route by route, as a snapshot is built. */
  method CheckRoutes(c: Checks, cfg: Config) returns (ok: bool, requiresMtls: bool)
    ensures ok <==> RoutesOk(c, cfg.pools, cfg.routes)
    ensures ok ==> (requiresMtls <==> NeedsMtls(cfg.routes))
  {
    ok, requiresMtls := true, false;
    var seen: set<string>, names: set<string> := {}, {};
    RoutesPassExactly(c, cfg.pools, cfg.routes);
    for i := 0 to |cfg.routes|
      invariant Checked(c, cfg.pools, cfg.routes[..i], seen, names, requiresMtls) && ok
    {
      ok, seen, names, requiresMtls := CheckNext(c, cfg.pools, cfg.routes, i, seen, names, requiresMtls);
      if !ok {
        return;
      }
    }
    assert cfg.routes[..|cfg.routes|] == cfg.routes;
  }

  /** Validating a configuration and building a snapshot from it succeeds exactly for acceptable ones. */
  method Compile(c: Checks, cfg: Config) returns (ok: bool)
    ensures ok <==> Acceptable(c, cfg)
  {
    ok := ValidateRoutes(c, cfg);
    if !ok {
      return;
    }
    var requiresMtls;
    ok, requiresMtls := CheckRoutes(c, cfg);
    ok := ok && c.restOk(cfg.listenAddr, cfg.tls, cfg.rest, cfg.pools, requiresMtls);
  }

  lemma IdsSnoc(routes: seq<Route>, i: nat)
    requires i < |routes|
    ensures IdsOf(routes[..i + 1]) == IdsOf(routes[..i]) + {routes[i].id}
  {
    var front, all := routes[..i], routes[..i + 1];
    assert all[i].id in IdsOf(all);
    forall id
      ensures id in IdsOf(all) <==> id in IdsOf(front) || id == routes[i].id
    {
      if id in IdsOf(front) {
        var k :| 0 <= k < i && front[k].id == id;
        assert all[k].id in IdsOf(all);
      }
      if id in IdsOf(all) && id != routes[i].id {
        var k :| 0 <= k < i + 1 && all[k].id == id;
        assert front[k].id in IdsOf(front);
      }
    }
  }

  lemma NeedsSnoc(routes: seq<Route>, i: nat)
    requires i < |routes|
    ensures NeedsMtls(routes[..i + 1]) <==> NeedsMtls(routes[..i]) || routes[i].policy.requireMtls
  {
    var front, all := routes[..i], routes[..i + 1];
    assert all[i] == routes[i] && forall k :: 0 <= k < i ==> front[k] == all[k];
  }

  // ------------------------------------------------------------------
  // What the mask means
  // ------------------------------------------------------------------

  /** The checks of a masked route, in terms of the route before: plugins and the canary's weight no longer matter. */
  predicate MaskedRouteOk(c: Checks, pools: map<string, Pool>, r: Route) {
    && r.host != "" && "/" <= r.pathPrefix && r.pool in pools
    && (r.policy.requireMtls ==> r.policy.mtlsClientCa == "" || r.policy.mtlsClientCa == "default")
    && CacheOk(c, r.policy.cache)
    && (var t := r.policy.traffic;
        t.enabled ==>
          && t.stableWeight >= 0 && r.id != ""
          && c.trim(t.stablePool) != "" && c.trim(t.stablePool) in pools
          && (c.trim(t.canaryPool) != "" ==> c.trim(t.canaryPool) in pools)
          && (t.cohort.enabled ==> c.trim(t.cohort.key) != "" && CohortOk(c, c.trim(t.cohort.key)))
          && OverloadOk(t.overload) && AutoDrainOk(t.autoDrain))
  }

  lemma MaskedRouteExactly(c: Checks, pools: map<string, Pool>, r: Route)
    ensures RouteOk(c, pools, MaskRoute(r)) <==> MaskedRouteOk(c, pools, r)
    ensures RouteOk(c, pools, r) ==> MaskedRouteOk(c, pools, r)
  {
    assert PluginsOk(c, MaskRoute(r).policy.plugins);
  }

  /** All checks of one route, written out; without plugins and canary weight they are those of the masked route. */
  lemma RouteOkExactly(c: Checks, pools: map<string, Pool>, r: Route)
    ensures RouteOk(c, pools, r)
       <==> && MaskedRouteOk(c, pools, r)
            && (r.policy.plugins.enabled ==> r.policy.plugins.filters.Items? && r.policy.plugins.filters.items != [])
            && (r.policy.plugins.filters.Items? ==>
                  forall f <- r.policy.plugins.filters.items ::
                    && c.trim(f.name) != "" && c.trim(f.addr) != "" && c.splits(c.trim(f.addr))
                    && c.trim(c.lower(f.failureMode)) in {"", "fail_open", "fail_closed"})
            && (var t := r.policy.traffic;
                t.enabled ==>
                  && 0 <= t.canaryWeight
                  && (c.trim(t.canaryPool) == "" ==> t.canaryWeight == 0)
                  && (c.trim(t.canaryPool) != "" ==> 0 < t.stableWeight + t.canaryWeight))
  {
    var filters := Filters(r.policy.plugins);
    assert FiltersOk(c, filters) <==> forall f <- filters :: FilterOk(c, f);
  }

  /** The checks of the parts a mask does not touch, written out. */
  lemma PartsOkExactly(c: Checks, cache: Cache, o: Overload, a: AutoDrain, key: string)
    ensures CacheOk(c, cache)
       <==> && (0 < cache.maxObjectBytes ==> 1024 <= cache.maxObjectBytes <= 52_428_800)
            && (cache.enabled ==> 0 < cache.ttlMs)
            && (cache.varyHeaders.Items? ==>
                  forall h <- cache.varyHeaders.items :: |c.trim(h)| <= 128 && forall ch <- c.trim(h) :: ch as int < 128)
    ensures OverloadOk(o)
       <==> !o.enabled || (0 < o.maxInflight && (o.maxQueue == 0 || (0 < o.maxQueue && 0 < o.queueTimeoutMs)))
    ensures AutoDrainOk(a)
       <==> !a.enabled || (0 < a.windowMs && 0 < a.minRequests && 0.0 < a.errorRateMultiplier && 0 < a.cooloffMs)
    ensures
      var k := c.trim(key);
      CohortOk(c, key)
      <==> k == "" || c.isIp(k) || (7 <= |k| && 7 <= |c.lower(k)| && c.lower(k)[..7] == "header:" && c.trim(k[7..]) != "")
  {
    var headers := VaryHeaders(cache);
    assert (forall i :: 0 <= i < |headers| ==> VaryHeaderOk(c, headers[i])) <==> forall h <- headers :: VaryHeaderOk(c, h);
    forall h <- headers
      ensures VaryHeaderOk(c, h) <==> |c.trim(h)| <= 128 && forall ch <- c.trim(h) :: ch as int < 128
    {
      AllAscii(c.trim(h));
    }
  }

  lemma AllAscii(s: string)
    ensures (forall i :: 0 <= i < |s| ==> s[i] as int <= 127) <==> forall ch <- s :: ch as int < 128
  {
    if forall i :: 0 <= i < |s| ==> s[i] as int <= 127 {
      forall ch <- s
        ensures ch as int < 128
      {
        var i :| 0 <= i < |s| && s[i] == ch;
      }
    }
    if forall ch <- s :: ch as int < 128 {
      forall i | 0 <= i < |s|
        ensures s[i] as int <= 127
      {
        assert s[i] in s;
      }
    }
  }

  /** The validation of one route, by what makes it fail. */
  lemma RouteValidExactly(c: Checks, tls: Tls, r: Route)
    ensures !RouteValid(c, tls, r)
       <==> || (r.policy.retry.enabled && r.policy.retry.maxAttempts <= 0)
            || (r.policy.traffic.overload.enabled && r.policy.traffic.overload.maxInflight <= 0)
            || (r.policy.requireMtls && (!tls.enabled || c.trim(tls.clientCaFile) == ""))
  {}

  lemma {:induction false} NamesAfterAre(c: Checks, names: set<string>, filters: seq<PluginFilter>, x: string)
    ensures x in NamesAfter(c, names, filters) <==> x in names || exists i :: 0 <= i < |filters| && c.trim(filters[i].name) == x
  {
    if filters != [] {
      var n := |filters| - 1;
      NamesAfterAre(c, names, filters[..n], x);
      assert forall i :: 0 <= i < n ==> filters[..n][i] == filters[i];
    }
  }

  /** Some filter of the route has the name. */
  predicate UsesFilter(c: Checks, r: Route, x: string) {
    r.policy.plugins.filters.Items?
    && exists i :: 0 <= i < |r.policy.plugins.filters.items| && c.trim(r.policy.plugins.filters.items[i].name) == x
  }

  lemma {:induction false} NameIsUsed(c: Checks, routes: seq<Route>, x: string) returns (i: nat)
    requires x in FilterNames(c, routes)
    ensures i < |routes| && UsesFilter(c, routes[i], x)
  {
    var n := |routes| - 1;
    if x in FilterNames(c, routes[..n]) {
      i := NameIsUsed(c, routes[..n], x);
    } else {
      NamesAfterAre(c, FilterNames(c, routes[..n]), Filters(routes[n].policy.plugins), x);
      i := n;
    }
  }

  lemma {:induction false} UsedIsNamed(c: Checks, routes: seq<Route>, x: string, i: nat)
    requires i < |routes| && UsesFilter(c, routes[i], x)
    ensures x in FilterNames(c, routes)
  {
    var n := |routes| - 1;
    NamesAfterAre(c, FilterNames(c, routes[..n]), Filters(routes[n].policy.plugins), x);
    if i < n {
      UsedIsNamed(c, routes[..n], x, i);
    }
  }

  /** The filter names used over all routes. */
  ghost predicate AreNames(c: Checks, routes: seq<Route>, names: set<string>) {
    forall x :: x in names <==> exists i :: 0 <= i < |routes| && UsesFilter(c, routes[i], x)
  }

  lemma NamesAre(c: Checks, routes: seq<Route>, names: set<string>)
    requires AreNames(c, routes, names)
    ensures names == FilterNames(c, routes)
  {
    forall x
      ensures x in names <==> x in FilterNames(c, routes)
    {
      if x in names {
        var i :| 0 <= i < |routes| && UsesFilter(c, routes[i], x);
        UsedIsNamed(c, routes, x, i);
      } else if x in FilterNames(c, routes) {
        var i := NameIsUsed(c, routes, x);
      }
    }
  }

  /** IDs are distinct if and only if there are as many as routes. */
  lemma {:induction false} DistinctExactly(routes: seq<Route>, ids: set<string>)
    requires ids == set i | 0 <= i < |routes| :: routes[i].id
    ensures |ids| <= |routes| && (DistinctIds(routes) <==> |ids| == |routes|)
  {
    assert ids == IdsOf(routes);
    if routes != [] {
      var n := |routes| - 1;
      DistinctExactly(routes[..n], IdsOf(routes[..n]));
      DistinctSnoc(routes);
      IdsSnoc(routes, n);
      assert routes[..n + 1] == routes;
    }
  }

  /**
   A configuration is accepted if and only if each of its routes is, no two
   of them share an ID, at most 200 filter names are used over all of them,
   and the rest is fine with mTLS being needed if some route needs it.
   */
  lemma AcceptableExactly(c: Checks, cfg: Config, names: set<string>, mtls: bool)
    requires AreNames(c, cfg.routes, names)
    requires mtls <==> exists i :: 0 <= i < |cfg.routes| && cfg.routes[i].policy.requireMtls
    ensures Acceptable(c, cfg)
       <==> && RoutesValid(c, cfg) && EachOk(c, cfg.pools, cfg.routes) && DistinctIds(cfg.routes) && |names| <= 200
            && c.restOk(cfg.listenAddr, cfg.tls, cfg.rest, cfg.pools, mtls)
  {
    NamesAre(c, cfg.routes, names);
  }

  lemma {:induction false} NoFilterNames(c: Checks, routes: seq<Route>)
    requires forall i :: 0 <= i < |routes| ==> Filters(routes[i].policy.plugins) == []
    ensures FilterNames(c, routes) == {}
  {
    if routes != [] {
      NoFilterNames(c, routes[..|routes| - 1]);
    }
  }

  /** Exactly which configurations pass the locked stage. */
  lemma MaskAcceptedExactly(c: Checks, cfg: Config)
    ensures Acceptable(c, Mask(cfg))
       <==> && (forall i :: 0 <= i < |cfg.routes| ==> MaskedRouteOk(c, cfg.pools, cfg.routes[i]))
            && RoutesValid(c, cfg) && DistinctIds(cfg.routes)
            && c.restOk(cfg.listenAddr, cfg.tls, cfg.rest, cfg.pools, NeedsMtls(cfg.routes))
  {
    var locked := Mask(cfg).routes;
    NoFilterNames(c, locked);
    MaskKeepsIds(cfg);
    EachMaskedExactly(c, cfg);
    MaskKeepsValid(c, cfg);
  }

  lemma MaskKeepsValid(c: Checks, cfg: Config)
    ensures RoutesValid(c, Mask(cfg)) <==> RoutesValid(c, cfg)
  {
    var locked := Mask(cfg).routes;
    assert forall i :: 0 <= i < |cfg.routes| ==> (RouteValid(c, cfg.tls, locked[i]) <==> RouteValid(c, cfg.tls, cfg.routes[i]));
  }

  lemma EachMaskedExactly(c: Checks, cfg: Config)
    ensures EachOk(c, cfg.pools, Mask(cfg).routes)
       <==> forall i :: 0 <= i < |cfg.routes| ==> MaskedRouteOk(c, cfg.pools, cfg.routes[i])
  {
    var locked := Mask(cfg).routes;
    forall i | 0 <= i < |cfg.routes|
      ensures RouteOk(c, cfg.pools, locked[i]) <==> MaskedRouteOk(c, cfg.pools, cfg.routes[i])
    {
      MaskedRouteExactly(c, cfg.pools, cfg.routes[i]);
    }
  }

  lemma MaskKeepsIds(cfg: Config)
    ensures DistinctIds(Mask(cfg).routes) <==> DistinctIds(cfg.routes)
    ensures NeedsMtls(Mask(cfg).routes) <==> NeedsMtls(cfg.routes)
  {
    var locked := Mask(cfg).routes;
    assert forall i :: 0 <= i < |cfg.routes| ==>
      locked[i].id == cfg.routes[i].id && locked[i].policy.requireMtls == cfg.routes[i].policy.requireMtls;
    assert DistinctIds(locked) ==> forall i, j :: 0 <= i < j < |cfg.routes| ==> locked[i].id != locked[j].id;
  }

  /** A configuration that validates never fails the locked stage. */
  lemma MaskAccepted(c: Checks, cfg: Config)
    requires Acceptable(c, cfg)
    ensures Acceptable(c, Mask(cfg))
  {
    MaskAcceptedExactly(c, cfg);
    forall i | 0 <= i < |cfg.routes|
      ensures MaskedRouteOk(c, cfg.pools, cfg.routes[i])
    {
      MaskedRouteExactly(c, cfg.pools, cfg.routes[i]);
    }
  }

  /** The plan of a route that splits its traffic. */
  function PlanOf(c: Checks, r: Route): Option<Plan> {
    if !r.policy.traffic.enabled then None
    else
      var s := TrafficSettings(c, r.policy.traffic);
      if s.None? then None
      else Some(Plan(s.value.split, s.value.cohort.Some? && c.trim(s.value.cohort.value) != ""))
  }

  function StablePool(c: Checks, r: Route): string {
    if r.policy.traffic.enabled then c.trim(r.policy.traffic.stablePool) else r.pool
  }

  /** The pool a request is sent to. */
  function ServingPool(c: Checks, r: Route, d: Draw): string {
    var canaryPool := c.trim(r.policy.traffic.canaryPool);
    if PickVariant(PlanOf(c, r), d).Canary? && canaryPool != "" then canaryPool else StablePool(c, r)
  }

  /** In the locked stage every request goes to the stable pool of the new configuration, and through no plugin. */
  lemma LockedServesStable(c: Checks, cfg: Config, i: nat, d: Draw)
    requires i < |cfg.routes|
    ensures PickVariant(PlanOf(c, Mask(cfg).routes[i]), d) == Stable
    ensures ServingPool(c, Mask(cfg).routes[i], d) == StablePool(c, cfg.routes[i])
    ensures !Mask(cfg).routes[i].policy.plugins.enabled && Filters(Mask(cfg).routes[i].policy.plugins) == []
  {
    var r := MaskRoute(cfg.routes[i]);
    assert PlanOf(c, r).Some? ==> PlanOf(c, r).value.split.canaryWeight == 0;
  }

  /** How many requests without a cohort, with the random values from, ..., from + n - 1, a pool serves. */
  function ServedBy(c: Checks, r: Route, pool: string, from: nat, n: nat): nat {
    if n == 0 then 0
    else ServedBy(c, r, pool, from, n - 1) + if ServingPool(c, r, Draw(false, None, from + n - 1)) == pool then 1 else 0
  }

  lemma {:induction false} ServedArePicks(c: Checks, r: Route, plan: Plan, from: nat, n: nat)
    requires PlanOf(c, r) == Some(plan) && c.trim(r.policy.traffic.canaryPool) != ""
    requires StablePool(c, r) != c.trim(r.policy.traffic.canaryPool)
    ensures ServedBy(c, r, c.trim(r.policy.traffic.canaryPool), from, n) == RandomPicks(plan, None, from, n)
  {
    if n > 0 {
      ServedArePicks(c, r, plan, from, n - 1);
    }
  }

  /** In the full stage a canary pool of its own serves exactly its weight's share of the requests. */
  lemma CanaryServesShare(c: Checks, pools: map<string, Pool>, r: Route, from: nat)
    requires RouteOk(c, pools, r) && r.policy.traffic.enabled
    requires c.trim(r.policy.traffic.canaryPool) != "" && c.trim(r.policy.traffic.canaryPool) != c.trim(r.policy.traffic.stablePool)
    ensures
      var t := r.policy.traffic;
      && 0 < t.stableWeight + t.canaryWeight
      && ServedBy(c, r, c.trim(t.canaryPool), from, t.stableWeight + t.canaryWeight) == t.canaryWeight
  {
    var t := r.policy.traffic;
    var plan := PlanOf(c, r).value;
    assert plan.split == Split(t.stableWeight, t.canaryWeight);
    ServedArePicks(c, r, plan, from, t.stableWeight + t.canaryWeight);
    PicksAreShares(plan, None, 0, from);
  }

  /** In the full stage the canary is reachable exactly where it has weight. */
  lemma FullReachesCanaryExactly(c: Checks, pools: map<string, Pool>, r: Route)
    requires RouteOk(c, pools, r)
    ensures (exists d :: PickVariant(PlanOf(c, r), d).Canary?) <==> r.policy.traffic.enabled && r.policy.traffic.canaryWeight > 0
  {
    var t := r.policy.traffic;
    if t.enabled {
      var plan := PlanOf(c, r).value;
      assert plan.split.canaryWeight == t.canaryWeight;
      NeverCanaryExactly(plan.split);
      if t.canaryWeight > 0 {
        var value: nat :| Choose(plan.split, value).Canary?;
        assert PickVariant(PlanOf(c, r), Draw(false, None, value)).Canary?;
      }
    }
  }
}
