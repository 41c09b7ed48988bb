/** The budgets of all routes: handed out by policy, replaced when it changes, dropped when idle. */
module RetryRegistry {
  import opened RetryBudget
  import opened ClientCap

  datatype BudgetPolicy = BudgetPolicy(enabled: bool, percent: int, burst: int)

  datatype ClientPolicy = ClientPolicy(enabled: bool, key: string, percent: int, burst: int, lruSize: int)

  datatype Entry = Entry(budgetPolicy: BudgetPolicy, clientPolicy: ClientPolicy, budget: Budget?, clientCap: Cap?, lastUsed: int)

  datatype Answer = Budgets(route: Budget?, client: Cap?) | EmptyRouteId | BadLruSize

  class Registry {
    const ttl: int
    var routes: map<string, Entry>

    constructor (ttl: int)
      ensures this.ttl == (if ttl <= 0 then 300_000_000_000 else ttl) && routes == map[]
    {
      this.ttl := if ttl <= 0 then 300_000_000_000 else ttl;
      routes := map[];
    }

    /**
     The same policies get the same budgets back until the entry is dropped;
     any change of policy gets empty ones. Other routes are not affected, and
     an error leaves everything as it was.
     */
    method Budgets(routeId: string, budgetPolicy: BudgetPolicy, clientPolicy: ClientPolicy, now: int) returns (answer: Answer)
      modifies this
      ensures answer.EmptyRouteId? <==> routeId == ""
      ensures
        var entries := old(routes);
        var current := routeId in entries && entries[routeId].budgetPolicy == budgetPolicy
                       && entries[routeId].clientPolicy == clientPolicy;
        && (answer.BadLruSize? <==> routeId != "" && !current && clientPolicy.enabled && clientPolicy.lruSize <= 0)
        && (answer.Budgets? && current ==> answer == Answer.Budgets(entries[routeId].budget, entries[routeId].clientCap))
        && (answer.Budgets? && !current ==>
              && (answer.route != null <==> budgetPolicy.enabled) && (answer.client != null <==> clientPolicy.enabled)
              && (answer.route != null ==>
                    fresh(answer.route) && answer.route.View() == Tokens(budgetPolicy.percent, budgetPolicy.burst, 0, 0))
              && (answer.client != null ==>
                    && fresh(answer.client) && answer.client.Valid() && answer.client.hist == []
                    && answer.client.percent == clientPolicy.percent && answer.client.burst == clientPolicy.burst
                    && answer.client.lruSize == clientPolicy.lruSize))
      ensures !answer.Budgets? ==> routes == old(routes)
      ensures answer.Budgets? ==>
                routes == old(routes)[routeId := Entry(budgetPolicy, clientPolicy, answer.route, answer.client, now)]
    {
      if routeId == "" {
        return EmptyRouteId;
      }
      if routeId in routes && routes[routeId].budgetPolicy == budgetPolicy && routes[routeId].clientPolicy == clientPolicy {
        var entry := routes[routeId].(lastUsed := now);
        routes := routes[routeId := entry];
        return Answer.Budgets(entry.budget, entry.clientCap);
      }
      var budget: Budget? := null;
      var clientCap: Cap? := null;
      if budgetPolicy.enabled {
        budget := new Budget(budgetPolicy.percent, budgetPolicy.burst);
      }
      if clientPolicy.enabled {
        if clientPolicy.lruSize <= 0 {
          return BadLruSize;
        }
        clientCap := new Cap(clientPolicy.percent, clientPolicy.burst, clientPolicy.lruSize);
      }
      routes := routes[routeId := Entry(budgetPolicy, clientPolicy, budget, clientCap, now)];
      return Answer.Budgets(budget, clientCap);
    }

    /** Drops exactly the routes not used for longer than the time to live. */
    method ReapOnce(now: int)
      modifies this
      ensures routes.Keys <= old(routes).Keys
      ensures forall id <- old(routes) ::
                if old(routes)[id].lastUsed < now - ttl then id !in routes
                else id in routes && routes[id] == old(routes)[id]
    {
      var cutoff := now - ttl;
      var before := routes;
      var todo := routes.Keys;
      while todo != {}
        invariant todo <= before.Keys && routes.Keys <= before.Keys
        invariant forall id <- before ::
                    if id !in todo && before[id].lastUsed < cutoff then id !in routes
                    else id in routes && routes[id] == before[id]
        decreases |todo|
      {
        var id :| id in todo;
        if routes[id].lastUsed < cutoff {
          routes := routes - {id};
        }
        todo := todo - {id};
      }
    }
  }
}
