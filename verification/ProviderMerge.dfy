/**
 Merging the configurations of several providers. Providers are taken in
 order of priority; the first mention of an object fixes it, later mentions
 may repeat it, or overlay it with new traffic weights (routes) or endpoints
 (pools); anything else is a conflict.
 */
module ProviderMerge {
  import opened Configuration
  import opened Options

  // ------------------------------------------------------------------
  // Overlaying one mention over another
  // ------------------------------------------------------------------

  function StripRoute(r: Route): Route { r.(overlay := false) }

  function StripPool(p: Pool): Pool { p.(overlay := false) }

  function WithWeights(r: Route, stable: int, canary: int): Route {
    r.(policy := r.policy.(traffic := r.policy.traffic.(stableWeight := stable, canaryWeight := canary)))
  }

  /** What all mentions of a route have to agree on. */
  function RouteCore(r: Route): Route { WithWeights(StripRoute(r), 0, 0) }

  /** What all mentions of a pool have to agree on. */
  function PoolCore(p: Pool): Pool { StripPool(p).(endpoints := Absent) }

  /** The overlay applied to the base, unless it touches more than the weights. */
  function OverlayRoute(base: Route, overlay: Route): Option<Route> {
    var normalized := WithWeights(StripRoute(overlay), base.policy.traffic.stableWeight, base.policy.traffic.canaryWeight);
    if StripRoute(base) != StripRoute(normalized) then None
    else Some(StripRoute(WithWeights(base, overlay.policy.traffic.stableWeight, overlay.policy.traffic.canaryWeight)))
  }

  function OverlayPool(base: Pool, overlay: Pool): Option<Pool> {
    var normalized := StripPool(overlay).(endpoints := base.endpoints);
    if StripPool(base) != StripPool(normalized) then None
    else Some(StripPool(base.(endpoints := overlay.endpoints)))
  }

  /** An overlay succeeds exactly when the cores agree, and then the result is the overlaying mention itself. */
  lemma OverlayRouteIsLast(base: Route, overlay: Route)
    ensures OverlayRoute(base, overlay) == if RouteCore(base) == RouteCore(overlay) then Some(StripRoute(overlay)) else None
  {
    var normalized := WithWeights(StripRoute(overlay), base.policy.traffic.stableWeight, base.policy.traffic.canaryWeight);
    if RouteCore(base) == RouteCore(overlay) {
      assert StripRoute(base) == WithWeights(RouteCore(base), base.policy.traffic.stableWeight, base.policy.traffic.canaryWeight);
      assert normalized == WithWeights(RouteCore(overlay), base.policy.traffic.stableWeight, base.policy.traffic.canaryWeight);
      assert StripRoute(overlay)
          == WithWeights(RouteCore(overlay), overlay.policy.traffic.stableWeight, overlay.policy.traffic.canaryWeight);
    } else {
      assert RouteCore(normalized) == RouteCore(overlay);
    }
  }

  lemma OverlayPoolIsLast(base: Pool, overlay: Pool)
    ensures OverlayPool(base, overlay) == if PoolCore(base) == PoolCore(overlay) then Some(StripPool(overlay)) else None
  {
    var normalized := StripPool(overlay).(endpoints := base.endpoints);
    if PoolCore(base) == PoolCore(overlay) {
      assert StripPool(base) == PoolCore(base).(endpoints := base.endpoints);
      assert StripPool(overlay) == PoolCore(overlay).(endpoints := overlay.endpoints);
    } else {
      assert PoolCore(normalized) == PoolCore(overlay);
    }
  }

  // ------------------------------------------------------------------
  // Which field a conflict is reported on
  // ------------------------------------------------------------------

  function RouteConflictField(a: Route, b: Route): string {
    if a.host != b.host then "host"
    else if a.pathPrefix != b.pathPrefix then "path_prefix"
    else if a.methods != b.methods then "methods"
    else if a.pool != b.pool then "pool"
    else if a.policy.requestTimeoutMs != b.policy.requestTimeoutMs then "policy.request_timeout_ms"
    else if a.policy.upstreamDialTimeoutMs != b.policy.upstreamDialTimeoutMs then "policy.upstream_dial_timeout_ms"
    else if a.policy.upstreamResponseHeaderTimeoutMs != b.policy.upstreamResponseHeaderTimeoutMs
    then "policy.upstream_response_header_timeout_ms"
    else if a.policy.requireMtls != b.policy.requireMtls then "policy.require_mtls"
    else if a.policy.mtlsClientCa != b.policy.mtlsClientCa then "policy.mtls_client_ca"
    else if a.policy.retry != b.policy.retry then "policy.retry"
    else if a.policy.retryBudget != b.policy.retryBudget then "policy.retry_budget"
    else if a.policy.clientRetryCap != b.policy.clientRetryCap then "policy.client_retry_cap"
    else if a.policy.cache != b.policy.cache then "policy.cache"
    else if a.policy.plugins != b.policy.plugins then "policy.plugins"
    else if a.policy.traffic != b.policy.traffic then "policy.traffic"
    else "route"
  }

  function PoolConflictField(a: Pool, b: Pool): string {
    if a.endpoints != b.endpoints then "endpoints"
    else if a.health != b.health then "health"
    else if a.breaker != b.breaker then "breaker"
    else if a.outlier != b.outlier then "outlier"
    else "pool"
  }

  /** Two mentions of the same route that differ always differ in a field that is named. */
  lemma RouteFieldIsNamed(a: Route, b: Route)
    requires a.id == b.id && RouteConflictField(a, b) == "route"
    ensures StripRoute(a) == StripRoute(b)
  {
    var f := RouteConflictField(a, b);
    assert |f| == 5;
    assert a.policy == b.policy;
  }

  /** A pool conflict without a named field is about the transport settings. */
  lemma PoolFieldIsNamed(a: Pool, b: Pool)
    requires PoolConflictField(a, b) == "pool"
    ensures StripPool(a) == StripPool(b) || a.transport != b.transport
  {
    var f := PoolConflictField(a, b);
    assert |f| == 4;
  }

  // ------------------------------------------------------------------
  // Mentions of routes
  // ------------------------------------------------------------------

  datatype Mention = Mention(route: Route, provider: string)

  datatype Entry = Entry(name: string, priority: int, cfg: Config)

  /** The mentions among the first `k` routes of a provider; routes without an ID are skipped. */
  function MentionsOf(e: Entry, k: nat): seq<Mention>
    requires k <= |e.cfg.routes|
  {
    if k == 0 then []
    else if e.cfg.routes[k - 1].id == "" then MentionsOf(e, k - 1)
    else MentionsOf(e, k - 1) + [Mention(e.cfg.routes[k - 1], e.name)]
  }

  function RouteMentions(entries: seq<Entry>): seq<Mention> {
    if entries == [] then []
    else
      var e := entries[|entries| - 1];
      RouteMentions(entries[..|entries| - 1]) + MentionsOf(e, |e.cfg.routes|)
  }

  /** The last mention of a route, overlay flag cleared. */
  function LastRoute(flat: seq<Mention>, id: string): (r: Option<Route>)
    ensures r.Some? ==> r.value.id == id && !r.value.overlay
  {
    if flat == [] then None
    else
      var m := flat[|flat| - 1].route;
      if m.id == id then Some(StripRoute(m)) else LastRoute(flat[..|flat| - 1], id)
  }

  /** The provider that last changed a route. */
  function Owner(flat: seq<Mention>, id: string): string {
    if flat == [] then ""
    else
      var front, m := flat[..|flat| - 1], flat[|flat| - 1];
      if m.route.id == id && LastRoute(front, id) != Some(StripRoute(m.route)) then m.provider else Owner(front, id)
  }

  /** Route IDs in order of first mention. */
  function Ids(flat: seq<Mention>): seq<string> {
    if flat == [] then []
    else
      var front, id := Ids(flat[..|flat| - 1]), flat[|flat| - 1].route.id;
      if id in front then front else front + [id]
  }

  /** A mention may come first, repeat what is there, or overlay it without touching its core. */
  predicate AcceptsRoute(before: Option<Route>, r: Route) {
    before.None? || before.value == StripRoute(r) || (r.overlay && RouteCore(before.value) == RouteCore(r))
  }

  predicate RoutesAgree(flat: seq<Mention>) {
    flat == [] ||
    (var front, m := flat[..|flat| - 1], flat[|flat| - 1];
     RoutesAgree(front) && AcceptsRoute(LastRoute(front, m.route.id), m.route))
  }

  lemma Snoc(flat: seq<Mention>, m: Mention)
    ensures (flat + [m])[..|flat|] == flat
  {}

  lemma {:induction false} IdsMentioned(flat: seq<Mention>, id: string)
    ensures id in Ids(flat) <==> LastRoute(flat, id).Some?
  {
    if flat != [] {
      IdsMentioned(flat[..|flat| - 1], id);
      IdsMentioned(flat[..|flat| - 1], flat[|flat| - 1].route.id);
    }
  }

  lemma {:induction false} AgreePrefix(flat: seq<Mention>, more: seq<Mention>)
    requires RoutesAgree(flat + more)
    ensures RoutesAgree(flat)
    decreases |more|
  {
    if more == [] {
      assert flat + more == flat;
    } else {
      assert (flat + more)[..|flat + more| - 1] == flat + more[..|more| - 1];
      AgreePrefix(flat, more[..|more| - 1]);
    }
  }

  // ------------------------------------------------------------------
  // The table of routes
  // ------------------------------------------------------------------

  /** The table resolves the mentions so far: one entry per ID, in order, each its last mention. */
  ghost predicate Resolves(routes: seq<Route>, flat: seq<Mention>) {
    && |routes| == |Ids(flat)|
    && forall k :: 0 <= k < |routes| ==> routes[k].id == Ids(flat)[k] && LastRoute(flat, Ids(flat)[k]) == Some(routes[k])
  }

  ghost predicate Indexed(routes: seq<Route>, index: map<string, int>, owners: map<string, string>, flat: seq<Mention>) {
    && (forall k :: 0 <= k < |routes| ==> routes[k].id in index && index[routes[k].id] == k)
    && (forall id <- index :: 0 <= index[id] < |routes| && routes[index[id]].id == id)
    && (forall id <- index :: id in owners && owners[id] == Owner(flat, id))
  }

  datatype Conflict = Conflict(objectType: string, objectId: string, field: string, existing: string, incoming: string)

  /** The conflict a mention raises against the ones before it. */
  function RouteConflict(flat: seq<Mention>, m: Mention): Conflict
    requires LastRoute(flat, m.route.id).Some?
  {
    var base := LastRoute(flat, m.route.id).value;
    var seen := if m.route.overlay
                then WithWeights(StripRoute(m.route), base.policy.traffic.stableWeight, base.policy.traffic.canaryWeight)
                else m.route;
    Conflict("route", m.route.id, RouteConflictField(base, seen), Owner(flat, m.route.id), m.provider)
  }

  lemma Unindexed(routes: seq<Route>, index: map<string, int>, owners: map<string, string>, flat: seq<Mention>, id: string)
    requires Resolves(routes, flat) && Indexed(routes, index, owners, flat) && id !in index
    ensures id !in Ids(flat) && LastRoute(flat, id).None?
  {
    assert forall k :: 0 <= k < |Ids(flat)| ==> Ids(flat)[k] == routes[k].id && Ids(flat)[k] in index;
    IdsMentioned(flat, id);
  }

  lemma NewResolves(routes: seq<Route>, flat: seq<Mention>, m: Mention)
    requires Resolves(routes, flat) && m.route.id !in Ids(flat)
    ensures Resolves(routes + [StripRoute(m.route)], flat + [m])
  {
    Snoc(flat, m);
  }

  /** A mention of a route that has no entry yet. */
  lemma NewRoute(routes: seq<Route>, index: map<string, int>, owners: map<string, string>, flat: seq<Mention>, m: Mention)
    requires Resolves(routes, flat) && Indexed(routes, index, owners, flat) && m.route.id !in index
    ensures LastRoute(flat, m.route.id).None?
    ensures
      var routes', id := routes + [StripRoute(m.route)], m.route.id;
      Resolves(routes', flat + [m]) && Indexed(routes', index[id := |routes|], owners[id := m.provider], flat + [m])
  {
    Unindexed(routes, index, owners, flat, m.route.id);
    NewResolves(routes, flat, m);
    Snoc(flat, m);
  }

  /** A mention of a route that has an entry: the entry becomes that mention, its position stays. */
  lemma KnownRoute(routes: seq<Route>, index: map<string, int>, owners: map<string, string>, flat: seq<Mention>, m: Mention)
    requires Resolves(routes, flat) && Indexed(routes, index, owners, flat) && m.route.id in index
    ensures LastRoute(flat, m.route.id) == Some(routes[index[m.route.id]])
    ensures
      var id, k := m.route.id, index[m.route.id];
      var routes' := routes[k := StripRoute(m.route)];
      Resolves(routes', flat + [m])
      && Indexed(routes', index, if routes[k] == StripRoute(m.route) then owners else owners[id := m.provider], flat + [m])
  {
    Snoc(flat, m);
    var k := index[m.route.id];
    assert Ids(flat)[k] == m.route.id;
    assert forall j :: 0 <= j < |routes| && j != k ==> routes[j].id != m.route.id;
  }

  /** One route of a provider: appended, repeated, overlaid or refused. */
  method MergeRoute(m: Mention, routes: seq<Route>, index: map<string, int>, owners: map<string, string>,
                    ghost flat: seq<Mention>)
    returns (routes': seq<Route>, index': map<string, int>, owners': map<string, string>, conflict: Option<Conflict>)
    requires Table(routes, index, owners, flat)
    ensures conflict.None? <==> AcceptsRoute(LastRoute(flat, m.route.id), m.route)
    ensures conflict.None? ==> Resolves(routes', flat + [m]) && Indexed(routes', index', owners', flat + [m])
    ensures conflict.Some? ==> LastRoute(flat, m.route.id).Some? && conflict.value == RouteConflict(flat, m)
  {
    routes', index', owners', conflict := routes, index, owners, None;
    var id := m.route.id;
    if id !in index {
      NewRoute(routes, index, owners, flat, m);
      routes' := routes + [m.route.(overlay := false)];
      index' := index[id := |routes'| - 1];
      owners' := owners[id := m.provider];
      return;
    }
    KnownRoute(routes, index, owners, flat, m);
    var existing := routes[index[id]];
    if StripRoute(existing) == StripRoute(m.route) {
      assert routes[index[id] := StripRoute(m.route)] == routes;
      return;
    }
    if m.route.overlay {
      OverlayRouteIsLast(existing, m.route);
      var merged := OverlayRoute(existing, m.route);
      if merged.None? {
        var base := existing.policy.traffic;
        var seen := WithWeights(StripRoute(m.route), base.stableWeight, base.canaryWeight);
        conflict := Some(Conflict("route", id, RouteConflictField(existing, seen), owners[id], m.provider));
        return;
      }
      routes' := routes[index[id] := merged.value];
      owners' := owners[id := m.provider];
      return;
    }
    conflict := Some(Conflict("route", id, RouteConflictField(existing, m.route), owners[id], m.provider));
  }

  /** The route conflict reported is the one of the first mention that does not fit the ones before it. */
  ghost predicate FirstRouteConflict(flat: seq<Mention>, j: nat, conflict: Conflict) {
    && j < |flat| && RoutesAgree(flat[..j])
    && !AcceptsRoute(LastRoute(flat[..j], flat[j].route.id), flat[j].route)
    && conflict == RouteConflict(flat[..j], flat[j])
  }

  /** All routes of a provider, in order. */
  method MergeRoutes(e: Entry, routes: seq<Route>, index: map<string, int>, owners: map<string, string>,
                     ghost flat: seq<Mention>)
    returns (routes': seq<Route>, index': map<string, int>, owners': map<string, string>, conflict: Option<Conflict>)
    requires Table(routes, index, owners, flat)
    ensures
      var all := flat + MentionsOf(e, |e.cfg.routes|);
      if conflict.None? then Table(routes', index', owners', all) else exists j: nat :: FirstRouteConflict(all, j, conflict.value)
  {
    routes', index', owners', conflict := routes, index, owners, None;
    ghost var done := flat;
    assert flat + [] == flat;
    var k := 0;
    while k < |e.cfg.routes|
      invariant 0 <= k <= |e.cfg.routes| && conflict.None?
      invariant done == flat + MentionsOf(e, k) && Table(routes', index', owners', done)
    {
      var route := e.cfg.routes[k];
      if route.id != "" {
        var m := Mention(route, e.name);
        ghost var before := done;
        routes', index', owners', conflict := MergeRoute(m, routes', index', owners', done);
        MentionAt(flat, e, k);
        done := done + [m];
        if conflict.Some? {
          assert FirstRouteConflict(flat + MentionsOf(e, |e.cfg.routes|), |before|, conflict.value);
          return;
        }
        AgreeSnoc(before, m);
      }
      k := k + 1;
    }
  }

  ghost predicate Table(routes: seq<Route>, index: map<string, int>, owners: map<string, string>, flat: seq<Mention>) {
    Resolves(routes, flat) && Indexed(routes, index, owners, flat) && RoutesAgree(flat)
  }

  lemma AgreeSnoc(flat: seq<Mention>, m: Mention)
    requires RoutesAgree(flat) && AcceptsRoute(LastRoute(flat, m.route.id), m.route)
    ensures RoutesAgree(flat + [m])
  {
    Snoc(flat, m);
  }

  /** Where a provider's k-th route stands among all mentions. */
  lemma MentionAt(flat: seq<Mention>, e: Entry, k: nat)
    requires k < |e.cfg.routes| && e.cfg.routes[k].id != ""
    ensures
      var done, m, all := flat + MentionsOf(e, k), Mention(e.cfg.routes[k], e.name), flat + MentionsOf(e, |e.cfg.routes|);
      && done + [m] == flat + MentionsOf(e, k + 1)
      && |done| < |all| && all[..|done|] == done && all[|done|] == m
  {
    MentionsGrow(e, k + 1, |e.cfg.routes|);
    var done, m, all := flat + MentionsOf(e, k), Mention(e.cfg.routes[k], e.name), flat + MentionsOf(e, |e.cfg.routes|);
    assert done + [m] == flat + MentionsOf(e, k + 1);
    assert done + [m] <= all;
    assert all[..|done| + 1] == done + [m];
  }

  lemma {:induction false} MentionsGrow(e: Entry, k: nat, n: nat)
    requires k <= n <= |e.cfg.routes|
    ensures MentionsOf(e, k) <= MentionsOf(e, n)
  {
    if k < n {
      MentionsGrow(e, k, n - 1);
    }
  }

  // ------------------------------------------------------------------
  // Pools
  // ------------------------------------------------------------------

  /** The entry mentions the pool; a pool without a name is never mentioned. */
  predicate Mentions(e: Entry, name: string) { name != "" && name in e.cfg.pools }

  /** The last mention of a pool, overlay flag cleared. */
  function LastPool(entries: seq<Entry>, name: string): Option<Pool> {
    if entries == [] then None
    else
      var e := entries[|entries| - 1];
      if Mentions(e, name) then Some(StripPool(e.cfg.pools[name])) else LastPool(entries[..|entries| - 1], name)
  }

  function PoolOwner(entries: seq<Entry>, name: string): string {
    if entries == [] then ""
    else
      var front, e := entries[..|entries| - 1], entries[|entries| - 1];
      if Mentions(e, name) && LastPool(front, name) != Some(StripPool(e.cfg.pools[name])) then e.name
      else PoolOwner(front, name)
  }

  predicate AcceptsPool(before: Option<Pool>, p: Pool) {
    before.None? || before.value == StripPool(p) || (p.overlay && PoolCore(before.value) == PoolCore(p))
  }

  predicate PoolAgrees(entries: seq<Entry>, name: string) {
    entries == [] ||
    (var front, e := entries[..|entries| - 1], entries[|entries| - 1];
     PoolAgrees(front, name) && (Mentions(e, name) ==> AcceptsPool(LastPool(front, name), e.cfg.pools[name])))
  }

  ghost predicate PoolsAgree(entries: seq<Entry>) { forall name :: PoolAgrees(entries, name) }

  /** One pool of the table is the last mention of its name. */
  predicate PoolIsLast(pools: map<string, Pool>, name: string, entries: seq<Entry>) {
    if LastPool(entries, name).None? then name !in pools else name in pools && LastPool(entries, name) == Some(pools[name])
  }

  predicate PoolResolved(pools: map<string, Pool>, owners: map<string, string>, name: string, entries: seq<Entry>) {
    && PoolIsLast(pools, name, entries)
    && (name in pools ==> name in owners && owners[name] == PoolOwner(entries, name))
  }

  ghost predicate PoolTable(pools: map<string, Pool>, owners: map<string, string>, entries: seq<Entry>) {
    forall name :: PoolResolved(pools, owners, name, entries)
  }

  function PoolConflict(front: seq<Entry>, e: Entry, name: string): Conflict
    requires Mentions(e, name) && LastPool(front, name).Some?
  {
    var base, pool := LastPool(front, name).value, e.cfg.pools[name];
    var seen := if pool.overlay then StripPool(pool).(endpoints := base.endpoints) else pool;
    Conflict("pool", name, PoolConflictField(base, seen), PoolOwner(front, name), e.name)
  }

  /** What one pool of a provider does to the table: nothing but its own name changes. */
  method MergePool(e: Entry, name: string, pools: map<string, Pool>, owners: map<string, string>, ghost front: seq<Entry>)
    returns (pools': map<string, Pool>, owners': map<string, string>, conflict: Option<Conflict>)
    requires Mentions(e, name) && PoolResolved(pools, owners, name, front)
    ensures conflict.None? <==> AcceptsPool(LastPool(front, name), e.cfg.pools[name])
    ensures conflict.None? ==> PoolResolved(pools', owners', name, front + [e])
    ensures conflict.None? ==> forall x :: x != name ==> SameAt(pools, owners, pools', owners', x)
    ensures conflict.Some? ==> LastPool(front, name).Some? && conflict.value == PoolConflict(front, e, name)
  {
    assert (front + [e])[..|front|] == front;
    pools', owners', conflict := pools, owners, None;
    var pool := e.cfg.pools[name];
    if name !in pools {
      pools' := pools[name := pool.(overlay := false)];
      owners' := owners[name := e.name];
      return;
    }
    var existing := pools[name];
    if StripPool(existing) == StripPool(pool) {
      LastPoolStripped(front, name);
      return;
    }
    LastPoolStripped(front, name);
    if pool.overlay {
      OverlayPoolIsLast(existing, pool);
      var merged := OverlayPool(existing, pool);
      if merged.None? {
        var seen := StripPool(pool).(endpoints := existing.endpoints);
        conflict := Some(Conflict("pool", name, PoolConflictField(existing, seen), owners[name], e.name));
        return;
      }
      pools' := pools[name := merged.value];
      owners' := owners[name := e.name];
      return;
    }
    conflict := Some(Conflict("pool", name, PoolConflictField(existing, pool), owners[name], e.name));
  }

  lemma {:induction false} LastPoolStripped(entries: seq<Entry>, name: string)
    ensures LastPool(entries, name).Some? ==> name != "" && !LastPool(entries, name).value.overlay
  {
    if entries != [] {
      LastPoolStripped(entries[..|entries| - 1], name);
    }
  }

  /** The pool conflict reported is one a pool of this provider really raises. */
  ghost predicate APoolConflict(front: seq<Entry>, e: Entry, name: string, conflict: Conflict) {
    && Mentions(e, name) && LastPool(front, name).Some?
    && !AcceptsPool(LastPool(front, name), e.cfg.pools[name])
    && conflict == PoolConflict(front, e, name)
  }

  /** What a table says of a name does not depend on the other names. */
  predicate SameAt(pools: map<string, Pool>, owners: map<string, string>, pools': map<string, Pool>, owners': map<string, string>,
                   name: string)
  {
    && (name in pools' <==> name in pools) && (name in pools ==> pools'[name] == pools[name])
    && (name in owners' <==> name in owners) && (name in owners ==> owners'[name] == owners[name])
  }

  /** One name while a provider's pools are being merged: still to do, or resolved. */
  predicate MidwayAt(pools: map<string, Pool>, owners: map<string, string>, todo: set<string>, front: seq<Entry>, e: Entry,
                     name: string)
  {
    if name in todo then PoolResolved(pools, owners, name, front)
    else
      && PoolResolved(pools, owners, name, front + [e])
      && (Mentions(e, name) ==> AcceptsPool(LastPool(front, name), e.cfg.pools[name]))
  }

  ghost predicate Midway(pools: map<string, Pool>, owners: map<string, string>, todo: set<string>, front: seq<Entry>, e: Entry) {
    forall name :: MidwayAt(pools, owners, todo, front, e, name)
  }

  lemma UnmentionedPool(pools: map<string, Pool>, owners: map<string, string>, name: string, front: seq<Entry>, e: Entry)
    requires !Mentions(e, name) && PoolResolved(pools, owners, name, front)
    ensures PoolResolved(pools, owners, name, front + [e])
  {
    assert (front + [e])[..|front|] == front;
  }

  lemma MidwayStart(pools: map<string, Pool>, owners: map<string, string>, front: seq<Entry>, e: Entry)
    requires PoolTable(pools, owners, front)
    ensures Midway(pools, owners, e.cfg.pools.Keys, front, e)
  {
    forall name
      ensures MidwayAt(pools, owners, e.cfg.pools.Keys, front, e, name)
    {
      assert PoolResolved(pools, owners, name, front);
      if name !in e.cfg.pools.Keys {
        UnmentionedPool(pools, owners, name, front, e);
      }
    }
  }

  lemma MidwayStep(pools: map<string, Pool>, owners: map<string, string>, pools': map<string, Pool>, owners': map<string, string>,
                   todo: set<string>, front: seq<Entry>, e: Entry, done: string)
    requires Midway(pools, owners, todo, front, e)
    requires forall name :: name != done ==> SameAt(pools, owners, pools', owners', name)
    requires MidwayAt(pools', owners', todo - {done}, front, e, done)
    ensures Midway(pools', owners', todo - {done}, front, e)
  {
    forall name
      ensures MidwayAt(pools', owners', todo - {done}, front, e, name)
    {
      if name != done {
        assert MidwayAt(pools, owners, todo, front, e, name);
        assert SameAt(pools, owners, pools', owners', name);
      }
    }
  }

  lemma MidwayEnd(pools: map<string, Pool>, owners: map<string, string>, front: seq<Entry>, e: Entry)
    requires PoolsAgree(front) && Midway(pools, owners, {}, front, e)
    ensures PoolTable(pools, owners, front + [e]) && PoolsAgree(front + [e])
  {
    forall name
      ensures PoolResolved(pools, owners, name, front + [e]) && PoolAgrees(front + [e], name)
    {
      assert (front + [e])[..|front|] == front;
      assert PoolAgrees(front, name) && MidwayAt(pools, owners, {}, front, e, name);
    }
  }

  /** All pools of a provider, in whatever order the map is walked. */
  method MergePools(e: Entry, pools: map<string, Pool>, owners: map<string, string>, ghost front: seq<Entry>)
    returns (pools': map<string, Pool>, owners': map<string, string>, conflict: Option<Conflict>)
    requires PoolTable(pools, owners, front) && PoolsAgree(front)
    ensures if conflict.None? then PoolTable(pools', owners', front + [e]) && PoolsAgree(front + [e])
            else exists name :: APoolConflict(front, e, name, conflict.value)
  {
    pools', owners', conflict := pools, owners, None;
    var todo := e.cfg.pools.Keys;
    MidwayStart(pools, owners, front, e);
    while todo != {}
      invariant todo <= e.cfg.pools.Keys && conflict.None?
      invariant Midway(pools', owners', todo, front, e)
      decreases |todo|
    {
      var name :| name in todo;
      ghost var before, ownersBefore := pools', owners';
      assert MidwayAt(pools', owners', todo, front, e, name);
      if name != "" {
        pools', owners', conflict := MergePool(e, name, pools', owners', front);
        if conflict.Some? {
          assert APoolConflict(front, e, name, conflict.value);
          return;
        }
      } else {
        UnmentionedPool(pools', owners', name, front, e);
      }
      MidwayStep(before, ownersBefore, pools', owners', todo, front, e, name);
      todo := todo - {name};
    }
    MidwayEnd(pools', owners', front, e);
  }
}
