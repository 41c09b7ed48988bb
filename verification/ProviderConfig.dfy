/**
 Loading the providers, ordering them by priority and merging their
 configurations into one. The result depends on the providers only through
 what they load, grouped by priority.
 */
module ProviderConfig {
  import opened Configuration
  import opened Options
  import opened ProviderMerge

  // ------------------------------------------------------------------
  // Order of priority
  // ------------------------------------------------------------------

  /** The entries of one priority, in order. */
  function OfPriority(entries: seq<Entry>, p: int): seq<Entry> {
    if entries == [] then []
    else if entries[0].priority == p then [entries[0]] + OfPriority(entries[1..], p)
    else OfPriority(entries[1..], p)
  }

  predicate InOrder(entries: seq<Entry>) {
    forall i, j :: 0 <= i < j < |entries| ==> entries[i].priority <= entries[j].priority
  }

  function Insert(e: Entry, entries: seq<Entry>): seq<Entry> {
    if entries == [] || e.priority <= entries[0].priority then [e] + entries
    else [entries[0]] + Insert(e, entries[1..])
  }

  function StableSort(entries: seq<Entry>): seq<Entry> {
    if entries == [] then [] else Insert(entries[0], StableSort(entries[1..]))
  }

  lemma {:induction false} InsertKeeps(e: Entry, entries: seq<Entry>, p: int)
    ensures OfPriority(Insert(e, entries), p) == OfPriority([e] + entries, p)
  {
    assert ([e] + entries)[1..] == entries;
    if entries != [] && e.priority > entries[0].priority {
      var tail := entries[1..];
      InsertKeeps(e, tail, p);
      assert ([entries[0]] + Insert(e, tail))[1..] == Insert(e, tail) && ([e] + tail)[1..] == tail;
    }
  }

  lemma {:induction false} InsertInOrder(e: Entry, entries: seq<Entry>)
    requires InOrder(entries)
    ensures InOrder(Insert(e, entries))
    ensures forall x :: x in Insert(e, entries) <==> x == e || x in entries
  {
    if entries != [] && e.priority > entries[0].priority {
      var tail := entries[1..];
      InsertInOrder(e, tail);
      assert entries == [entries[0]] + tail;
      assert forall x <- Insert(e, tail) :: entries[0].priority <= x.priority;
    }
  }

  /** Sorting orders the entries by priority and keeps the order among those of one priority. */
  lemma {:induction false} StableSortSorts(entries: seq<Entry>, p: int)
    ensures InOrder(StableSort(entries))
    ensures OfPriority(StableSort(entries), p) == OfPriority(entries, p)
  {
    if entries != [] {
      var rest := entries[1..];
      StableSortSorts(rest, p);
      InsertInOrder(entries[0], StableSort(rest));
      InsertKeeps(entries[0], StableSort(rest), p);
      assert ([entries[0]] + StableSort(rest))[1..] == StableSort(rest);
    }
  }

  lemma {:induction false} FirstOfPriority(entries: seq<Entry>, p: int)
    ensures forall e <- OfPriority(entries, p) :: e.priority == p && e in entries
    ensures (exists e :: e in entries && e.priority == p) ==> OfPriority(entries, p) != []
  {
    if entries != [] {
      FirstOfPriority(entries[1..], p);
      assert entries == [entries[0]] + entries[1..];
    }
  }

  /** Being in order with the same entries of each priority leaves one possibility only. */
  lemma {:induction false} OrderIsUnique(a: seq<Entry>, b: seq<Entry>)
    requires InOrder(a) && InOrder(b)
    requires forall p :: OfPriority(a, p) == OfPriority(b, p)
    ensures a == b
    decreases |a| + |b|
  {
    if b != [] {
      HeadsAgree(b, a);
    }
    if a != [] {
      HeadsAgree(a, b);
      var p := a[0].priority;
      assert OfPriority(a, p) == OfPriority(b, p);
      assert OfPriority(a, p)[0] == a[0] && OfPriority(b, p)[0] == b[0];
      forall q
        ensures OfPriority(a[1..], q) == OfPriority(b[1..], q)
      {
        assert OfPriority(a, q) == OfPriority(b, q);
        assert OfPriority(a[1..], q) == if p == q then OfPriority(a, q)[1..] else OfPriority(a, q);
        assert OfPriority(b[1..], q) == if p == q then OfPriority(b, q)[1..] else OfPriority(b, q);
      }
      OrderIsUnique(a[1..], b[1..]);
      assert a == [a[0]] + a[1..] && b == [b[0]] + b[1..];
    }
  }

  lemma HeadsAgree(a: seq<Entry>, b: seq<Entry>)
    requires a != [] && InOrder(b)
    requires forall p :: OfPriority(a, p) == OfPriority(b, p)
    ensures b != [] && b[0].priority <= a[0].priority
  {
    var p := a[0].priority;
    assert OfPriority(a, p) == OfPriority(b, p);
    FirstOfPriority(b, p);
    var e := OfPriority(a, p)[0];
    assert e in OfPriority(b, p);
    assert e in b;
  }

  /** The order of providers matters only among those of equal priority. */
  lemma SortIgnoresOrder(a: seq<Entry>, b: seq<Entry>)
    requires forall p :: OfPriority(a, p) == OfPriority(b, p)
    ensures StableSort(a) == StableSort(b)
  {
    forall p
      ensures OfPriority(StableSort(a), p) == OfPriority(StableSort(b), p)
    {
      StableSortSorts(a, p);
      StableSortSorts(b, p);
      assert OfPriority(a, p) == OfPriority(b, p);
    }
    StableSortSorts(a, 0);
    StableSortSorts(b, 0);
    OrderIsUnique(StableSort(a), StableSort(b));
  }

  // ------------------------------------------------------------------
  // Listen address and TLS settings
  // ------------------------------------------------------------------

  predicate TlsEmpty(t: Tls) {
    !t.enabled && t.addr == "" && t.certs.Length() == 0 && t.clientCaFile == "" && t.minVersion == "" && t.cipherSuites.Length() == 0
  }

  function ListenOf(cfg: Config): Option<string> { if cfg.listenAddr == "" then None else Some(cfg.listenAddr) }

  function TlsOf(cfg: Config): Option<Tls> { if TlsEmpty(cfg.tls) then None else Some(cfg.tls) }

  function Listens(entries: seq<Entry>): seq<Option<string>> {
    seq(|entries|, i requires 0 <= i < |entries| => ListenOf(entries[i].cfg))
  }

  function TlsSettings(entries: seq<Entry>): seq<Option<Tls>> {
    seq(|entries|, i requires 0 <= i < |entries| => TlsOf(entries[i].cfg))
  }

  /** Whoever gives the setting gives the same one. */
  predicate Unanimous<T(==)>(given: seq<Option<T>>) {
    forall i, j :: 0 <= i < j < |given| && given[i].Some? && given[j].Some? ==> given[i] == given[j]
  }

  /** Where the setting is given first. */
  function FirstIndex<T>(given: seq<Option<T>>): (k: nat)
    ensures k <= |given| && (k < |given| ==> given[k].Some?)
    ensures forall i :: 0 <= i < k ==> given[i].None?
  {
    if given == [] then 0
    else
      var k := FirstIndex(given[..|given| - 1]);
      if k < |given| - 1 || given[|given| - 1].Some? then k else |given|
  }

  function FirstGiven<T>(given: seq<Option<T>>): Option<T> {
    var k := FirstIndex(given);
    if k < |given| then given[k] else None
  }

  function Giver<T>(given: seq<Option<T>>, entries: seq<Entry>): string
    requires |given| == |entries|
  {
    var k := FirstIndex(given);
    if k < |given| then entries[k].name else ""
  }

  lemma GivenSnoc<T>(given: seq<Option<T>>, entries: seq<Entry>, x: Option<T>, e: Entry)
    requires |given| == |entries|
    ensures FirstGiven(given + [x]) == if FirstGiven(given).Some? then FirstGiven(given) else x
    ensures Giver(given + [x], entries + [e])
         == if FirstGiven(given).Some? then Giver(given, entries) else if x.Some? then e.name else ""
    ensures Unanimous(given + [x])
       <==> Unanimous(given) && (x.None? || FirstGiven(given).None? || FirstGiven(given) == x)
  {
    var all := given + [x];
    assert all[..|given|] == given;
    var k := FirstIndex(given);
    if Unanimous(all) {
      assert forall i :: 0 <= i < |given| ==> given[i] == all[i];
      if x.Some? && k < |given| {
        assert all[k] == all[|given|];
      }
    }
  }

  // ------------------------------------------------------------------
  // The merge
  // ------------------------------------------------------------------

  ghost predicate Mergeable(entries: seq<Entry>) {
    && Unanimous(Listens(entries)) && Unanimous(TlsSettings(entries))
    && RoutesAgree(RouteMentions(entries)) && PoolsAgree(entries)
  }

  /** The configuration stands for everything the entries mention. */
  ghost predicate Stands(cfg: Config, entries: seq<Entry>) {
    && cfg.listenAddr == FirstGiven(Listens(entries)).GetOr("")
    && cfg.tls == FirstGiven(TlsSettings(entries)).GetOr(NO_TLS)
    && cfg.rest == NoRest
    && Resolves(cfg.routes, RouteMentions(entries))
    && (forall name :: PoolIsLast(cfg.pools, name, entries))
  }

  /** Two configurations that stand for the same entries are the same. */
  lemma StandsForOne(a: Config, b: Config, entries: seq<Entry>)
    requires Stands(a, entries) && Stands(b, entries)
    ensures a == b
  {
    assert forall k :: 0 <= k < |a.routes| ==> Some(a.routes[k]) == LastRoute(RouteMentions(entries), Ids(RouteMentions(entries))[k]);
    assert a.routes == b.routes;
    forall name
      ensures name in a.pools <==> name in b.pools
      ensures name in a.pools ==> a.pools[name] == b.pools[name]
    {
      assert PoolIsLast(a.pools, name, entries) && PoolIsLast(b.pools, name, entries);
    }
    assert a.pools == b.pools;
  }

  lemma EntriesSnoc(front: seq<Entry>, e: Entry)
    ensures (front + [e])[..|front|] == front
    ensures Listens(front + [e]) == Listens(front) + [ListenOf(e.cfg)]
    ensures TlsSettings(front + [e]) == TlsSettings(front) + [TlsOf(e.cfg)]
    ensures RouteMentions(front + [e]) == RouteMentions(front) + MentionsOf(e, |e.cfg.routes|)
  {
    assert (front + [e])[..|front|] == front;
  }

  predicate ListenClash(front: seq<Entry>, e: Entry) {
    ListenOf(e.cfg).Some? && FirstGiven(Listens(front)).Some? && FirstGiven(Listens(front)) != ListenOf(e.cfg)
  }

  predicate TlsClash(front: seq<Entry>, e: Entry) {
    TlsOf(e.cfg).Some? && FirstGiven(TlsSettings(front)).Some? && FirstGiven(TlsSettings(front)) != TlsOf(e.cfg)
  }

  /** The conflict an entry raises: listen address before TLS before routes before pools. */
  ghost predicate Raises(front: seq<Entry>, e: Entry, conflict: Conflict) {
    if ListenClash(front, e) then
      conflict == Conflict("config", "listen_addr", "listen_addr", Giver(Listens(front), front), e.name)
    else if TlsClash(front, e) then
      conflict == Conflict("config", "tls", "tls", Giver(TlsSettings(front), front), e.name)
    else if RoutesAgree(RouteMentions(front + [e])) then exists name :: APoolConflict(front, e, name, conflict)
    else exists j: nat :: FirstRouteConflict(RouteMentions(front + [e]), j, conflict)
  }

  /** The conflict reported is raised by the first entry that does not fit the ones before it. */
  ghost predicate FirstConflict(entries: seq<Entry>, conflict: Conflict) { exists i :: RaisedAt(entries, i, conflict) }

  ghost predicate RaisedAt(entries: seq<Entry>, i: int, conflict: Conflict) {
    0 <= i < |entries| && Mergeable(entries[..i]) && Raises(entries[..i], entries[i], conflict)
  }

  /** An entry that raises a conflict makes the entries unmergeable, whatever follows. */
  lemma RaisesUnmergeable(front: seq<Entry>, e: Entry, conflict: Conflict)
    requires Raises(front, e, conflict)
    ensures !Mergeable(front + [e])
  {
    EntriesSnoc(front, e);
    GivenSnoc(Listens(front), front, ListenOf(e.cfg), e);
    GivenSnoc(TlsSettings(front), front, TlsOf(e.cfg), e);
    if !ListenClash(front, e) && !TlsClash(front, e) && RoutesAgree(RouteMentions(front + [e])) {
      var name :| APoolConflict(front, e, name, conflict);
      assert !PoolAgrees(front + [e], name);
    }
  }

  lemma MergeablePrefix(front: seq<Entry>, e: Entry)
    requires Mergeable(front + [e])
    ensures Mergeable(front)
  {
    EntriesSnoc(front, e);
    GivenSnoc(Listens(front), front, ListenOf(e.cfg), e);
    GivenSnoc(TlsSettings(front), front, TlsOf(e.cfg), e);
    AgreePrefix(RouteMentions(front), MentionsOf(e, |e.cfg.routes|));
    forall name
      ensures PoolAgrees(front, name)
    {
      assert PoolAgrees(front + [e], name);
    }
  }

  lemma {:induction false} MergeablePrefixes(entries: seq<Entry>, i: nat)
    requires i <= |entries| && Mergeable(entries)
    ensures Mergeable(entries[..i])
    decreases |entries|
  {
    if i == |entries| {
      assert entries[..i] == entries;
    } else {
      var front := entries[..|entries| - 1];
      assert entries == front + [entries[|entries| - 1]];
      MergeablePrefix(front, entries[|entries| - 1]);
      MergeablePrefixes(front, i);
      assert front[..i] == entries[..i];
    }
  }

  lemma RaisedHides(entries: seq<Entry>, i: nat, conflict: Conflict)
    requires RaisedAt(entries, i, conflict)
    ensures !Mergeable(entries)
  {
    var upTo := entries[..i + 1];
    assert upTo == entries[..i] + [entries[i]];
    assert !Mergeable(upTo) by {
      RaisesUnmergeable(entries[..i], entries[i], conflict);
    }
    if Mergeable(entries) {
      MergeablePrefixes(entries, i + 1);
    }
  }

  /** A reported conflict is never spurious. */
  lemma ConflictIsReal(entries: seq<Entry>, conflict: Conflict)
    requires FirstConflict(entries, conflict)
    ensures !Mergeable(entries)
  {
    var i :| RaisedAt(entries, i, conflict);
    RaisedHides(entries, i, conflict);
  }

  datatype Load = Failed(error: string) | NoConfig | Loaded(cfg: Config)

  datatype Provider = Provider(name: string, priority: int, load: Load)

  datatype Outcome = LoadFailed(error: string) | Conflicted(conflict: Conflict) | Merged(cfg: Config)

  /** What the providers load, in order; missing providers and missing configurations do not count. */
  function EntriesOf(providers: seq<Option<Provider>>): seq<Entry> {
    if providers == [] then []
    else
      var front, p := EntriesOf(providers[..|providers| - 1]), providers[|providers| - 1];
      if p.Some? && p.value.load.Loaded? then front + [Entry(p.value.name, p.value.priority, p.value.load.cfg)] else front
  }

  predicate Fails(p: Option<Provider>) { p.Some? && p.value.load.Failed? }

  method LoadAll(providers: seq<Option<Provider>>) returns (entries: seq<Entry>, error: Option<string>)
    ensures error.None? <==> forall i :: 0 <= i < |providers| ==> !Fails(providers[i])
    ensures error.None? ==> entries == EntriesOf(providers)
    ensures error.Some? ==> exists i :: 0 <= i < |providers| && Fails(providers[i]) && error.value == providers[i].value.load.error
                                  && forall j :: 0 <= j < i ==> !Fails(providers[j])
  {
    entries, error := [], None;
    for i := 0 to |providers|
      invariant entries == EntriesOf(providers[..i])
      invariant forall j :: 0 <= j < i ==> !Fails(providers[j])
    {
      assert providers[..i + 1][..i] == providers[..i];
      var p := providers[i];
      if p.None? {
        continue;
      }
      match p.value.load {
        case Failed(e) =>
          error := Some(e);
          return;
        case NoConfig =>
        case Loaded(cfg) =>
          entries := entries + [Entry(p.value.name, p.value.priority, cfg)];
      }
    }
    assert providers[..|providers|] == providers;
  }

  /** The listen address so far and who gave it. */
  method MergeListen(e: Entry, listen: string, owner: string, ghost front: seq<Entry>)
    returns (listen': string, owner': string, conflict: Option<Conflict>)
    requires listen == FirstGiven(Listens(front)).GetOr("") && owner == Giver(Listens(front), front)
    ensures conflict.None? <==> !ListenClash(front, e)
    ensures conflict.Some? ==> Raises(front, e, conflict.value)
    ensures conflict.None? ==> listen' == FirstGiven(Listens(front + [e])).GetOr("")
    ensures conflict.None? ==> owner' == Giver(Listens(front + [e]), front + [e])
  {
    EntriesSnoc(front, e);
    GivenSnoc(Listens(front), front, ListenOf(e.cfg), e);
    ListenGiven(front);
    listen', owner', conflict := listen, owner, None;
    if e.cfg.listenAddr != "" {
      if listen == "" {
        listen', owner' := e.cfg.listenAddr, e.name;
      } else if listen != e.cfg.listenAddr {
        conflict := Some(Conflict("config", "listen_addr", "listen_addr", owner, e.name));
      }
    }
  }

  lemma ListenGiven(entries: seq<Entry>)
    ensures FirstGiven(Listens(entries)).Some? ==> FirstGiven(Listens(entries)).value != ""
    ensures FirstGiven(Listens(entries)).None? ==> Giver(Listens(entries), entries) == ""
  {}

  lemma TlsGiven(entries: seq<Entry>)
    ensures FirstGiven(TlsSettings(entries)).Some? ==> !TlsEmpty(FirstGiven(TlsSettings(entries)).value)
    ensures FirstGiven(TlsSettings(entries)).None? ==> Giver(TlsSettings(entries), entries) == ""
  {}

  method MergeTls(e: Entry, tls: Tls, owner: string, ghost front: seq<Entry>)
    returns (tls': Tls, owner': string, conflict: Option<Conflict>)
    requires tls == FirstGiven(TlsSettings(front)).GetOr(NO_TLS) && owner == Giver(TlsSettings(front), front)
    requires !ListenClash(front, e)
    ensures conflict.None? <==> !TlsClash(front, e)
    ensures conflict.Some? ==> Raises(front, e, conflict.value)
    ensures conflict.None? ==> tls' == FirstGiven(TlsSettings(front + [e])).GetOr(NO_TLS)
    ensures conflict.None? ==> owner' == Giver(TlsSettings(front + [e]), front + [e])
  {
    EntriesSnoc(front, e);
    GivenSnoc(TlsSettings(front), front, TlsOf(e.cfg), e);
    TlsGiven(front);
    tls', owner', conflict := tls, owner, None;
    if !TlsEmpty(e.cfg.tls) {
      if TlsEmpty(tls) {
        tls', owner' := e.cfg.tls, e.name;
      } else if tls != e.cfg.tls {
        conflict := Some(Conflict("config", "tls", "tls", owner, e.name));
      }
    }
  }

  /** An entry without conflicts keeps the entries mergeable. */
  lemma MergeableSnoc(front: seq<Entry>, e: Entry)
    requires Mergeable(front) && !ListenClash(front, e) && !TlsClash(front, e)
    requires RoutesAgree(RouteMentions(front + [e])) && PoolsAgree(front + [e])
    ensures Mergeable(front + [e])
  {
    EntriesSnoc(front, e);
    GivenSnoc(Listens(front), front, ListenOf(e.cfg), e);
    GivenSnoc(TlsSettings(front), front, TlsOf(e.cfg), e);
  }

  /** Everything the merge keeps while it goes through the entries. */
  datatype Draft = Draft(listen: string, listenOwner: string, tls: Tls, tlsOwner: string,
                         routes: seq<Route>, index: map<string, int>, routeOwners: map<string, string>,
                         pools: map<string, Pool>, poolOwners: map<string, string>)

  ghost predicate Holds(d: Draft, front: seq<Entry>) {
    && d.listen == FirstGiven(Listens(front)).GetOr("") && d.listenOwner == Giver(Listens(front), front)
    && d.tls == FirstGiven(TlsSettings(front)).GetOr(NO_TLS) && d.tlsOwner == Giver(TlsSettings(front), front)
    && Table(d.routes, d.index, d.routeOwners, RouteMentions(front))
    && PoolTable(d.pools, d.poolOwners, front)
    && Mergeable(front)
  }

  lemma RouteConflictRaised(front: seq<Entry>, e: Entry, conflict: Conflict)
    requires !ListenClash(front, e) && !TlsClash(front, e)
    requires exists j: nat :: FirstRouteConflict(RouteMentions(front + [e]), j, conflict)
    ensures Raises(front, e, conflict)
  {
    var flat := RouteMentions(front + [e]);
    var j: nat :| FirstRouteConflict(flat, j, conflict);
    assert flat == flat[..j + 1] + flat[j + 1..] && flat[..j + 1][..j] == flat[..j];
    if RoutesAgree(flat) {
      AgreePrefix(flat[..j + 1], flat[j + 1..]);
    }
  }

  /** One provider's configuration. */
  method MergeEntry(e: Entry, d: Draft, ghost front: seq<Entry>) returns (d': Draft, conflict: Option<Conflict>)
    requires Holds(d, front)
    ensures if conflict.None? then Holds(d', front + [e]) else Raises(front, e, conflict.value)
  {
    d' := d;
    var listen, listenOwner, tls, tlsOwner;
    listen, listenOwner, conflict := MergeListen(e, d.listen, d.listenOwner, front);
    if conflict.Some? {
      return;
    }
    tls, tlsOwner, conflict := MergeTls(e, d.tls, d.tlsOwner, front);
    if conflict.Some? {
      return;
    }
    var routes, index, routeOwners;
    EntriesSnoc(front, e);
    routes, index, routeOwners, conflict := MergeRoutes(e, d.routes, d.index, d.routeOwners, RouteMentions(front));
    if conflict.Some? {
      RouteConflictRaised(front, e, conflict.value);
      return;
    }
    var pools, poolOwners;
    pools, poolOwners, conflict := MergePools(e, d.pools, d.poolOwners, front);
    if conflict.None? {
      MergeableSnoc(front, e);
      d' := Draft(listen, listenOwner, tls, tlsOwner, routes, index, routeOwners, pools, poolOwners);
    }
  }

  ghost predicate Decides(outcome: Outcome, entries: seq<Entry>) {
    match outcome
    case LoadFailed(_) => false
    case Conflicted(conflict) => FirstConflict(entries, conflict)
    case Merged(cfg) => Mergeable(entries) && Stands(cfg, entries)
  }

  lemma HoldsNothing()
    ensures Holds(Draft("", "", NO_TLS, "", [], map[], map[], map[], map[]), [])
  {}

  lemma HeldStands(d: Draft, entries: seq<Entry>, i: nat)
    requires i == |entries| && Holds(d, entries[..i])
    ensures Decides(Merged(Config(d.listen, d.tls, NoRest, d.routes, d.pools)), entries)
  {
    assert entries[..i] == entries;
    forall name
      ensures PoolIsLast(d.pools, name, entries)
    {
      assert PoolResolved(d.pools, d.poolOwners, name, entries);
    }
  }

  method MergeNext(entries: seq<Entry>, i: nat, d: Draft) returns (d': Draft, conflict: Option<Conflict>)
    requires i < |entries| && Holds(d, entries[..i])
    ensures if conflict.None? then Holds(d', entries[..i + 1]) else Decides(Conflicted(conflict.value), entries)
  {
    d', conflict := MergeEntry(entries[i], d, entries[..i]);
    if conflict.None? {
      assert entries[..i + 1] == entries[..i] + [entries[i]];
    } else {
      assert RaisedAt(entries, i, conflict.value);
    }
  }

  method MergeEntries(entries: seq<Entry>) returns (outcome: Outcome)
    ensures Decides(outcome, entries)
  {
    var d := Draft("", "", NO_TLS, "", [], map[], map[], map[], map[]);
    HoldsNothing();
    for i := 0 to |entries|
      invariant Holds(d, entries[..i])
    {
      var conflict;
      d, conflict := MergeNext(entries, i, d);
      if conflict.Some? {
        return Conflicted(conflict.value);
      }
    }
    HeldStands(d, entries, |entries|);
    return Merged(Config(d.listen, d.tls, NoRest, d.routes, d.pools));
  }

  /** Merging succeeds exactly when every provider loads and the entries, by priority, agree. */
  method Merge(providers: seq<Option<Provider>>) returns (outcome: Outcome)
    ensures outcome.LoadFailed? <==> exists i :: 0 <= i < |providers| && Fails(providers[i])
    ensures outcome.LoadFailed? ==>
              exists i :: 0 <= i < |providers| && Fails(providers[i]) && outcome.error == providers[i].value.load.error
                          && forall j :: 0 <= j < i ==> !Fails(providers[j])
    ensures !outcome.LoadFailed? ==> (outcome.Merged? <==> Mergeable(StableSort(EntriesOf(providers))))
    ensures outcome.Merged? ==> Stands(outcome.cfg, StableSort(EntriesOf(providers)))
    ensures outcome.Conflicted? ==> FirstConflict(StableSort(EntriesOf(providers)), outcome.conflict)
  {
    var entries, error := LoadAll(providers);
    if error.Some? {
      return LoadFailed(error.value);
    }
    outcome := MergeEntries(StableSort(entries));
    if outcome.Conflicted? {
      ConflictIsReal(StableSort(entries), outcome.conflict);
    }
  }

  /** Only the order among providers of equal priority can change what they merge into. */
  lemma MergeIgnoresOrder(a: seq<Entry>, b: seq<Entry>, x: Config, y: Config)
    requires forall p :: OfPriority(a, p) == OfPriority(b, p)
    requires Stands(x, StableSort(a)) && Stands(y, StableSort(b))
    ensures x == y
  {
    SortIgnoresOrder(a, b);
    StandsForOne(x, y, StableSort(a));
  }

  // ------------------------------------------------------------------
  // What a merged configuration is like
  // ------------------------------------------------------------------

  /** All mentions of a route agree on everything but weights and overlay flag. */
  lemma {:induction false} MentionsShareCore(flat: seq<Mention>, k: nat)
    requires RoutesAgree(flat) && k < |flat|
    ensures LastRoute(flat, flat[k].route.id).Some?
    ensures RouteCore(flat[k].route) == RouteCore(LastRoute(flat, flat[k].route.id).value)
  {
    var front, m := flat[..|flat| - 1], flat[|flat| - 1];
    if k < |front| {
      MentionsShareCore(front, k);
      assert front[k] == flat[k];
    }
  }

  /** The same for pools and everything but endpoints and overlay flag. */
  lemma {:induction false} PoolMentionsShareCore(entries: seq<Entry>, name: string, k: nat)
    requires PoolAgrees(entries, name) && k < |entries| && Mentions(entries[k], name)
    ensures LastPool(entries, name).Some?
    ensures PoolCore(entries[k].cfg.pools[name]) == PoolCore(LastPool(entries, name).value)
  {
    var front := entries[..|entries| - 1];
    if k < |front| {
      PoolMentionsShareCore(front, name, k);
      assert front[k] == entries[k];
    }
  }

  lemma {:induction false} IdsDistinct(flat: seq<Mention>, i: nat, j: nat)
    requires i < j < |Ids(flat)|
    ensures Ids(flat)[i] != Ids(flat)[j]
  {
    var front := Ids(flat[..|flat| - 1]);
    if j < |front| {
      IdsDistinct(flat[..|flat| - 1], i, j);
    }
  }

  /** No two routes of a merged configuration share an ID. */
  lemma RouteIdsDistinct(cfg: Config, entries: seq<Entry>, i: nat, j: nat)
    requires Stands(cfg, entries) && i < j < |cfg.routes|
    ensures cfg.routes[i].id != cfg.routes[j].id
  {
    IdsDistinct(RouteMentions(entries), i, j);
  }

  lemma {:induction false} MentionsNamed(e: Entry, k: nat)
    requires k <= |e.cfg.routes|
    ensures forall m <- MentionsOf(e, k) :: m.route.id != ""
  {
    if k > 0 {
      MentionsNamed(e, k - 1);
    }
  }

  lemma {:induction false} AllNamed(entries: seq<Entry>)
    ensures forall m <- RouteMentions(entries) :: m.route.id != ""
  {
    if entries != [] {
      AllNamed(entries[..|entries| - 1]);
      var e := entries[|entries| - 1];
      MentionsNamed(e, |e.cfg.routes|);
    }
  }

  lemma {:induction false} IdsNamed(flat: seq<Mention>)
    requires forall m <- flat :: m.route.id != ""
    ensures forall id <- Ids(flat) :: id != ""
  {
    if flat != [] {
      assert forall m <- flat[..|flat| - 1] :: m in flat;
      IdsNamed(flat[..|flat| - 1]);
    }
  }

  /** A mention that repeats the last one changes nothing. */
  lemma RepeatChangesNothing(routes: seq<Route>, flat: seq<Mention>, m: Mention)
    requires Resolves(routes, flat) && RoutesAgree(flat) && LastRoute(flat, m.route.id) == Some(m.route)
    ensures Resolves(routes, flat + [m]) && RoutesAgree(flat + [m]) && Ids(flat + [m]) == Ids(flat)
  {
    Snoc(flat, m);
    IdsMentioned(flat, m.route.id);
  }

  lemma {:induction false} RepeatRoutes(flat: seq<Mention>, e: Entry, k: nat)
    requires k <= |e.cfg.routes| && Resolves(e.cfg.routes, flat) && RoutesAgree(flat)
    requires forall id <- Ids(flat) :: id != ""
    ensures Resolves(e.cfg.routes, flat + MentionsOf(e, k)) && RoutesAgree(flat + MentionsOf(e, k))
    ensures Ids(flat + MentionsOf(e, k)) == Ids(flat)
  {
    if k == 0 {
      assert flat + [] == flat;
    } else {
      RepeatRoutes(flat, e, k - 1);
      var done, m := flat + MentionsOf(e, k - 1), Mention(e.cfg.routes[k - 1], e.name);
      assert m.route.id == Ids(flat)[k - 1] == Ids(done)[k - 1];
      RepeatChangesNothing(e.cfg.routes, done, m);
      assert Ids(flat)[k - 1] in Ids(flat);
      assert flat + MentionsOf(e, k) == done + [m];
    }
  }

  /** Feeding the merged configuration back as one more provider merges again, into the same configuration. */
  lemma MergeAgain(cfg: Config, entries: seq<Entry>, e: Entry)
    requires Mergeable(entries) && Stands(cfg, entries) && e.cfg == cfg
    ensures Mergeable(entries + [e]) && Stands(cfg, entries + [e])
  {
    EntriesSnoc(entries, e);
    ListenGiven(entries);
    TlsGiven(entries);
    GivenSnoc(Listens(entries), entries, ListenOf(cfg), e);
    GivenSnoc(TlsSettings(entries), entries, TlsOf(cfg), e);
    AllNamed(entries);
    IdsNamed(RouteMentions(entries));
    RepeatRoutes(RouteMentions(entries), e, |cfg.routes|);
    forall name
      ensures PoolIsLast(cfg.pools, name, entries + [e]) && PoolAgrees(entries + [e], name)
    {
      assert PoolIsLast(cfg.pools, name, entries) && PoolAgrees(entries, name);
      LastPoolStripped(entries, name);
    }
  }
}
