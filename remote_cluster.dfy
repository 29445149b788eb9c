/**
 * The status of a remote cluster as the clustermesh operator reports it
 * (pkg/clustermesh/operator): which of its stores count as synchronized, and
 * whether the cluster is ready. Also the choice, made when the connection is
 * established, of which stores to watch.
 */
module RemoteCluster {
  import opened Wrappers

  /** The part of the remote cluster's configuration the operator looks at. */
  datatype ClusterConfig = ClusterConfig(serviceExportsEnabled: Option<bool>)

  /**
   * The common part of the status, filled by the shared remote-cluster code:
   * the connection's own readiness and the configuration it received.
   */
  datatype CommonStatus = CommonStatus(ready: bool, config: Option<ClusterConfig>)

  /** What the operator reads from one of its watch stores. */
  datatype StoreState = StoreState(numEntries: nat, synced: bool)

  datatype Synced = Synced(services: bool, nodes: bool, endpoints: bool, identities: bool, serviceExports: Option<bool>)

  datatype Status = Status(
    ready: bool,
    config: Option<ClusterConfig>,
    numSharedServices: int,
    numServiceExports: int,
    synced: Synced)

  /** The operator's settings for one remote cluster. */
  datatype Settings = Settings(enableEndpointSync: bool, enableMCSAPI: bool)

  /** Whether service exports are watched: the MCS API is on and the remote configuration says whether it has them. */
  predicate WatchesServiceExports(settings: Settings, config: Option<ClusterConfig>)
  {
    config.Some? && config.value.serviceExportsEnabled.Some? && settings.enableMCSAPI
  }

  /**
   * remoteCluster.Status: the common status with the store counts and the
   * synced flags filled in, and Ready narrowed to require every synced flag
   * (an absent ServiceExports flag counts as synced).
   */
  function ClusterStatus(settings: Settings, common: CommonStatus, services: StoreState, serviceExports: StoreState): (s: Status)
    ensures s.synced.services <==> !settings.enableEndpointSync || services.synced
    ensures s.synced.nodes && s.synced.endpoints && s.synced.identities
    ensures s.synced.serviceExports.Some? <==> WatchesServiceExports(settings, common.config)
    ensures s.synced.serviceExports.Some? ==> s.synced.serviceExports.value == serviceExports.synced
    ensures s.ready <==> (common.ready && s.synced.services
      && (s.synced.serviceExports.None? || s.synced.serviceExports.value))
    ensures s.config == common.config
    ensures s.numSharedServices == services.numEntries && s.numServiceExports == serviceExports.numEntries
  {
    var base := Synced(!settings.enableEndpointSync || services.synced, true, true, true, None);
    var synced := if WatchesServiceExports(settings, common.config) then base.(serviceExports := Some(serviceExports.synced)) else base;
    var ready := common.ready && synced.nodes && synced.services
      && (synced.serviceExports.None? || synced.serviceExports.value)
      && synced.identities && synced.endpoints;
    Status(ready, common.config, services.numEntries, serviceExports.numEntries, synced)
  }

  /**
   * Readiness in the terms of the inputs: the connection is ready, services
   * are synced unless endpoint sync is off, and service exports are synced
   * whenever they are watched.
   */
  lemma ReadyIff(settings: Settings, common: CommonStatus, services: StoreState, serviceExports: StoreState)
    ensures ClusterStatus(settings, common, services, serviceExports).ready <==>
      common.ready
      && (settings.enableEndpointSync ==> services.synced)
      && (WatchesServiceExports(settings, common.config) ==> serviceExports.synced)
  {
  }

  /** A cluster that is not connected and ready never reports ready, whatever its stores say. */
  lemma NotReadyWithoutConnection(settings: Settings, common: CommonStatus, services: StoreState, serviceExports: StoreState)
    requires !common.ready
    ensures !ClusterStatus(settings, common, services, serviceExports).ready
  {
  }

  /** The stores the operator can watch in a remote cluster. */
  datatype Store = ServicesStore | ServiceExportsStore

  /** The capabilities the remote cluster advertises in its configuration. */
  datatype Capabilities = Capabilities(syncedCanaries: bool, cached: bool, serviceExportsEnabled: Option<bool>)

  /**
   * What Run arranges before starting the watch store manager: the stores
   * registered with it, in order, and whether service exports are drained
   * and marked synced instead.
   */
  datatype RunPlan = RunPlan(registered: seq<Store>, drainServiceExports: bool)

  /**
   * remoteCluster.Run's registrations: services when endpoint sync is on;
   * service exports when the MCS API is on and the remote cluster advertises
   * the capability, otherwise drain the exports and mark them synced.
   */
  function PlanRun(settings: Settings, caps: Capabilities): (plan: RunPlan)
    ensures ServicesStore in plan.registered <==> settings.enableEndpointSync
    ensures ServiceExportsStore in plan.registered <==> !plan.drainServiceExports
    ensures !plan.drainServiceExports <==> settings.enableMCSAPI && caps.serviceExportsEnabled.Some?
    ensures |plan.registered| <= 2
  {
    var services := if settings.enableEndpointSync then [ServicesStore] else [];
    if settings.enableMCSAPI && caps.serviceExportsEnabled.Some? then
      RunPlan(services + [ServiceExportsStore], false)
    else
      RunPlan(services, true)
  }

  /**
   * The run plan and the status agree: when the remote configuration is the
   * one Run saw, service exports have a synced flag exactly when they are
   * watched, and no flag (so they count as synced) when they were drained.
   */
  lemma PlanMatchesStatus(settings: Settings, caps: Capabilities, common: CommonStatus, services: StoreState, serviceExports: StoreState)
    requires common.config == Some(ClusterConfig(caps.serviceExportsEnabled))
    ensures PlanRun(settings, caps).drainServiceExports <==>
      ClusterStatus(settings, common, services, serviceExports).synced.serviceExports.None?
  {
  }
}
