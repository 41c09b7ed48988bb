/**
 The proxy's configuration. Field by field as the configuration file has
 them; equality is structural. Nested lists keep the difference between an
 absent list and an empty one, because comparing configurations does.
 */
module Configuration {
  import opened Options

  datatype Slice<T> = Absent | Items(items: seq<T>) {
    function Length(): nat { if Absent? then 0 else |items| }
  }

  datatype Retry = Retry(enabled: bool, maxAttempts: int, perTryTimeoutMs: int, totalRetryBudgetMs: int,
                         retryOnStatus: Slice<int>, retryOnErrors: Slice<string>, backoffMs: int, backoffJitterMs: int)

  datatype RetryBudget = RetryBudget(enabled: bool, percentOfSuccesses: int, burst: int)

  datatype ClientRetryCap = ClientRetryCap(enabled: bool, key: string, percentOfSuccesses: int, burst: int, lruSize: int)

  datatype Cache = Cache(enabled: bool, isPublic: bool, ttlMs: int, maxObjectBytes: int, varyHeaders: Slice<string>,
                         coalesceEnabled: Option<bool>, coalesceTimeoutMs: int, onlyIfContentLength: Option<bool>)

  datatype Cohort = Cohort(enabled: bool, key: string)

  datatype Overload = Overload(enabled: bool, maxInflight: int, maxQueue: int, queueTimeoutMs: int)

  datatype AutoDrain = AutoDrain(enabled: bool, windowMs: int, minRequests: int, errorRateMultiplier: real, cooloffMs: int)

  datatype Traffic = Traffic(enabled: bool, stablePool: string, canaryPool: string, stableWeight: int, canaryWeight: int,
                             cohort: Cohort, overload: Overload, autoDrain: AutoDrain)

  datatype PluginBreaker = PluginBreaker(enabled: Option<bool>, consecutiveFailures: int, openMs: int, halfOpenProbes: int)

  datatype PluginFilter = PluginFilter(name: string, addr: string, requestTimeoutMs: int, responseTimeoutMs: int,
                                       failureMode: string, breaker: PluginBreaker)

  datatype Plugins = Plugins(enabled: bool, filters: Slice<PluginFilter>)

  datatype Policy = Policy(requestTimeoutMs: int, upstreamDialTimeoutMs: int, upstreamResponseHeaderTimeoutMs: int,
                           retry: Retry, retryBudget: RetryBudget, clientRetryCap: ClientRetryCap,
                           requireMtls: bool, mtlsClientCa: string, cache: Cache, traffic: Traffic, plugins: Plugins)

  datatype Route = Route(id: string, host: string, pathPrefix: string, methods: Slice<string>, pool: string,
                         policy: Policy, overlay: bool)

  datatype Health = Health(path: string, intervalMs: int, timeoutMs: int, unhealthyAfterFailures: int,
                           healthyAfterSuccesses: int, baseEjectMs: int, maxEjectMs: int)

  datatype Breaker = Breaker(enabled: bool, failureRateThresholdPercent: int, minimumRequests: int,
                             evaluationWindowMs: int, openMs: int, halfOpenMaxProbes: int)

  datatype Outlier = Outlier(enabled: bool, consecutiveFailures: int, errorRateThreshold: int, errorRateWindowMs: int,
                             minRequests: int, baseEjectMs: int, maxEjectMs: int, maxEjectPercent: int,
                             latencyEnabled: bool, latencyWindowSize: int, latencyEvalIntervalMs: int,
                             latencyMinSamples: int, latencyMultiplier: int, latencyConsecutiveIntervals: int)

  datatype Transport = Transport(maxIdlePerHost: int, maxConnsPerHost: int, idleConnTimeoutMs: int)

  datatype Pool = Pool(endpoints: Slice<string>, health: Health, breaker: Breaker, outlier: Outlier,
                       transport: Transport, overlay: bool)

  datatype TlsCert = TlsCert(serverName: string, certFile: string, keyFile: string)

  datatype Tls = Tls(enabled: bool, addr: string, certs: Slice<TlsCert>, clientCaFile: string, minVersion: string,
                     cipherSuites: Slice<string>)

  const NO_TLS := Tls(false, "", Absent, "", "", Absent)

  /** The parts of a configuration that no model here looks into. */
  datatype Rest = NoRest | Rest(id: nat)

  datatype Config = Config(listenAddr: string, tls: Tls, rest: Rest, routes: seq<Route>, pools: map<string, Pool>)
}
