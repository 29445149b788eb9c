/**
 * The node manager (pkg/node/manager): a registry of node records keyed by
 * node identity. It projects every node into the ipcache (as metadata facts
 * keyed by prefix, owning resource and kind) and into the node ipset, fans
 * node events out to the subscribed node handlers, arbitrates between
 * sources, and replays deletions of nodes that disappeared while the agent
 * was down (restore from checkpoint, then prune).
 *
 * The ipcache and the ipset are foreign services; the model keeps their
 * contents as plain fields. Handler calls and checkpoint triggers are recorded
 * in ghost logs.
 */
module NodeManager {
  import opened Wrappers
  import opened Sources
  import opened NodeTypes
  import opened Seqs

  /** A subscribed datapath.NodeHandler, identified by an opaque number. */
  type HandlerID = nat

  /**
   * The parts of the agent configuration the manager consults. `ipsetFilter`
   * is the IPSetFilterFn (true = keep the node out of the ipset) and
   * `clusterScope` the cluster ID the prefix-cluster mutator attaches to
   * scoped prefixes (0 when the mutator adds nothing). `reservedIdentities`
   * is the table of reserved numeric identities that
   * NumericIdentity.IsReservedIdentity looks a value up in.
   */
  datatype Config = Config(
    clusterName: string,
    localNodeName: string,
    localRouterIPs: set<Ip>,
    ipsetFilter: Node -> bool,
    clusterScope: Node -> nat,
    reservedIdentities: set<nat>)

  /** Node.IsLocal: the record describes the node this agent runs on. */
  predicate IsLocal(conf: Config, n: Node)
  {
    n.name == conf.localNodeName && n.cluster == conf.clusterName
  }

  /** NumericIdentity.IsReservedIdentity: the identity is in the reserved table. */
  predicate IsReservedIdentity(conf: Config, id: nat)
  {
    id in conf.reservedIdentities
  }

  /** nodeIdentityLabels' second result: remote nodes with an allocated identity. */
  predicate HasIdentityOverride(conf: Config, n: Node)
  {
    !IsLocal(conf, n) && !IsReservedIdentity(conf, n.nodeIdentity)
  }

  /** cmtypes.PrefixCluster: a prefix qualified by a cluster ID (0 = local). */
  datatype PrefixCluster = PrefixCluster(prefix: Prefix, clusterID: nat)

  /** The prefix-cluster a node address is announced under. */
  function AddressPrefixCluster(conf: Config, n: Node, a: Address): (pc: PrefixCluster)
    ensures pc.prefix == HostPrefix(a.ip)
  {
    if a.kind == NodeCiliumInternalIP then PrefixCluster(HostPrefix(a.ip), conf.clusterScope(n))
    else PrefixCluster(HostPrefix(a.ip), 0)
  }

  /** PrefixClusterFrom with the node's mutator: pod CIDRs, health and ingress IPs. */
  function ScopedPrefixCluster(conf: Config, n: Node, p: Prefix): PrefixCluster
  {
    PrefixCluster(p, conf.clusterScope(n))
  }

  /** ipcacheTypes.ResourceID of kind node. */
  datatype ResourceID = NodeResource(nodeName: string)

  /** What a piece of ipcache metadata says about its prefix. */
  datatype FactKind = NodeLabels | IdentityOverride | PodCIDRFallback | HealthEndpoint | IngressEndpoint

  /** One metadata entry: UpsertMetadata / OverrideIdentity by one resource. */
  datatype Fact = Fact(prefix: PrefixCluster, resource: ResourceID, kind: FactKind)

  /** The ipcache metadata layer: each fact with the source that wrote it. */
  type IPCache = map<Fact, Source>

  datatype NodeEvent =
    | NodeAdd(node: Node)
    | NodeUpdate(oldNode: Node, newNode: Node)
    | NodeDelete(node: Node)

  datatype HandlerCall = HandlerCall(handler: HandlerID, event: NodeEvent)

  /** Requests to the checkpoint writer: a trigger, or a synchronous write. */
  datatype CheckpointEvent = Triggered(reason: string) | Written(nodes: map<NodeIdentity, Node>)

  /** The outcome of opening and decoding the node checkpoint file. */
  datatype CheckpointRead = FileMissing | ReadFailed | DecodeFailed | Decoded(nodes: seq<Node>)

  function HealthIPs(n: Node): seq<Option<Ip>>
  {
    [n.ipv4HealthIP, n.ipv6HealthIP]
  }

  function IngressIPs(n: Node): seq<Option<Ip>>
  {
    [n.ipv4IngressIP, n.ipv6IngressIP]
  }

  // ---------------------------------------------------------------------
  // What NodeUpdated writes into the ipcache and the ipset.
  // ---------------------------------------------------------------------

  /** Per-address metadata: the labels fact, plus an identity override if any. */
  function AddressFacts(conf: Config, n: Node, addrs: seq<Address>, r: ResourceID): set<Fact>
  {
    (set a | a in addrs :: Fact(AddressPrefixCluster(conf, n, a), r, NodeLabels))
    + (if HasIdentityOverride(conf, n)
       then set a | a in addrs :: Fact(AddressPrefixCluster(conf, n, a), r, IdentityOverride)
       else {})
  }

  /** Pod-CIDR fallback entries: valid CIDRs of remote nodes only. */
  function PodCIDRFacts(conf: Config, n: Node, cidrs: seq<Prefix>, r: ResourceID): set<Fact>
  {
    if IsLocal(conf, n) then {}
    else set p | p in cidrs && ValidPrefix(p) :: Fact(ScopedPrefixCluster(conf, n, p), r, PodCIDRFallback)
  }

  /** Health or ingress endpoint entries: the IPs that are set. */
  function EndpointFacts(conf: Config, n: Node, ips: seq<Option<Ip>>, r: ResourceID, kind: FactKind): set<Fact>
  {
    set o | o in ips && o.Some? :: Fact(ScopedPrefixCluster(conf, n, HostPrefix(o.value)), r, kind)
  }

  /** Everything NodeUpdated upserts for node n, all owned by n's resource. */
  function ProjectedFacts(conf: Config, n: Node): set<Fact>
  {
    var r := NodeResource(n.name);
    AddressFacts(conf, n, n.addresses, r)
    + PodCIDRFacts(conf, n, n.podCIDRs, r)
    + EndpointFacts(conf, n, HealthIPs(n), r, HealthEndpoint)
    + EndpointFacts(conf, n, IngressIPs(n), r, IngressEndpoint)
  }

  /** The ipcache after upserting `facts`, each tagged with `src`. */
  function Upsert(c: IPCache, facts: set<Fact>, src: Source): IPCache
  {
    c + map f | f in facts :: src
  }

  lemma UpsertContents(c: IPCache, facts: set<Fact>, src: Source)
    ensures Upsert(c, facts, src).Keys == c.Keys + facts
    ensures forall f | f in facts :: Upsert(c, facts, src)[f] == src
    ensures forall f | f in c && f !in facts :: Upsert(c, facts, src)[f] == c[f]
  {
  }

  /** Host prefixes of the addresses (nodeIPsAdded). */
  function AddressPrefixes(addrs: seq<Address>): set<Prefix>
  {
    set a | a in addrs :: HostPrefix(a.ip)
  }

  /** ipsetEntries: internal IPs, unless the filter excludes the node. */
  function IPSetEntries(conf: Config, n: Node, addrs: seq<Address>): set<Prefix>
  {
    if conf.ipsetFilter(n) then {}
    else set a | a in addrs && a.kind == NodeInternalIP :: HostPrefix(a.ip)
  }

  /** podCIDRsAdded: the valid pod CIDRs of a remote node. */
  function PodCIDRsAdded(conf: Config, n: Node, cidrs: seq<Prefix>): set<Prefix>
  {
    if IsLocal(conf, n) then {} else set p | p in cidrs && ValidPrefix(p)
  }

  /** healthIPsAdded / ingressIPsAdded. */
  function EndpointPrefixes(ips: seq<Option<Ip>>): set<Prefix>
  {
    set o | o in ips && o.Some? :: HostPrefix(o.value)
  }

  /** The IPs NodeUpdated adds to the node ipset. */
  function IPSetProjected(conf: Config, n: Node): set<Ip>
  {
    set p | p in IPSetEntries(conf, n, n.addresses) :: p.addr
  }

  /** The per-address datapath check of NodeUpdated. */
  predicate AddressAllowsDatapath(conf: Config, n: Node, existing: PrefixCluster -> Source, a: Address)
  {
    var s := existing(AddressPrefixCluster(conf, n, a));
    AllowOverwrite(s, n.source) || s == KubeAPIServer
    || (a.kind == NodeCiliumInternalIP && a.ip in conf.localRouterIPs)
  }

  predicate AddressesAllowDatapath(conf: Config, n: Node, existing: PrefixCluster -> Source, addrs: seq<Address>)
  {
    forall a | a in addrs :: AddressAllowsDatapath(conf, n, existing, a)
  }

  predicate EndpointsAllowDatapath(conf: Config, n: Node, existing: PrefixCluster -> Source, ips: seq<Option<Ip>>)
  {
    forall o | o in ips && o.Some? ::
      AllowOverwrite(existing(ScopedPrefixCluster(conf, n, HostPrefix(o.value))), n.source)
  }

  /**
   * dpUpdate: the handlers hear about the node only if, for every prefix it
   * announces, the ipcache's current owner may be overwritten by n's source.
   */
  predicate DatapathUpdate(conf: Config, n: Node, existing: PrefixCluster -> Source)
  {
    AddressesAllowDatapath(conf, n, existing, n.addresses)
    && EndpointsAllowDatapath(conf, n, existing, HealthIPs(n))
    && EndpointsAllowDatapath(conf, n, existing, IngressIPs(n))
  }

  // ---------------------------------------------------------------------
  // What removeNodeFromIPCache retracts.
  // ---------------------------------------------------------------------

  function RetractedAddressFacts(conf: Config, o: Node, addrs: seq<Address>, r: ResourceID, nodeIPs: set<Prefix>): set<Fact>
  {
    (set a | a in addrs && HostPrefix(a.ip) !in nodeIPs :: Fact(AddressPrefixCluster(conf, o, a), r, NodeLabels))
    + (if HasIdentityOverride(conf, o)
       then set a | a in addrs && HostPrefix(a.ip) !in nodeIPs :: Fact(AddressPrefixCluster(conf, o, a), r, IdentityOverride)
       else {})
  }

  function RetractedPodCIDRFacts(conf: Config, o: Node, cidrs: seq<Prefix>, r: ResourceID, podCIDRs: set<Prefix>): set<Fact>
  {
    if IsLocal(conf, o) then {}
    else set p | p in cidrs && ValidPrefix(p) && p !in podCIDRs :: Fact(ScopedPrefixCluster(conf, o, p), r, PodCIDRFallback)
  }

  function RetractedEndpointFacts(conf: Config, o: Node, ips: seq<Option<Ip>>, r: ResourceID, kind: FactKind, added: set<Prefix>): set<Fact>
  {
    set x | x in ips && x.Some? && HostPrefix(x.value) !in added :: Fact(ScopedPrefixCluster(conf, o, HostPrefix(x.value)), r, kind)
  }

  /** All facts removeNodeFromIPCache removes for the old node `o`. */
  function RetractedFacts(conf: Config, o: Node, r: ResourceID,
                          nodeIPs: set<Prefix>, healthIPs: set<Prefix>, ingressIPs: set<Prefix>, podCIDRs: set<Prefix>): set<Fact>
  {
    RetractedAddressFacts(conf, o, o.addresses, r, nodeIPs)
    + RetractedPodCIDRFacts(conf, o, o.podCIDRs, r, podCIDRs)
    + RetractedEndpointFacts(conf, o, HealthIPs(o), r, HealthEndpoint, healthIPs)
    + RetractedEndpointFacts(conf, o, IngressIPs(o), r, IngressEndpoint, ingressIPs)
  }

  /** The ipset addresses removeNodeFromIPCache removes. */
  function IPSetRetractedFrom(addrs: seq<Address>, nodeIPs: set<Prefix>, ipsetEntries: set<Prefix>): set<Ip>
  {
    set a | a in addrs && HostPrefix(a.ip) !in nodeIPs && a.kind == NodeInternalIP && HostPrefix(a.ip) !in ipsetEntries :: a.ip
  }

  /** What an allowed update of `o` to `n` retracts from the ipcache. */
  function UpdateRetraction(conf: Config, o: Node, n: Node): set<Fact>
  {
    RetractedFacts(conf, o, NodeResource(n.name),
                   AddressPrefixes(n.addresses), EndpointPrefixes(HealthIPs(n)),
                   EndpointPrefixes(IngressIPs(n)), PodCIDRsAdded(conf, n, n.podCIDRs))
  }

  function UpdateIPSetRetraction(conf: Config, o: Node, n: Node): set<Ip>
  {
    IPSetRetractedFrom(o.addresses, AddressPrefixes(n.addresses), IPSetEntries(conf, n, n.addresses))
  }

  /** What a deletion of `o` retracts: every list of added prefixes is empty. */
  function DeleteRetraction(conf: Config, o: Node): set<Fact>
  {
    RetractedFacts(conf, o, NodeResource(o.name), {}, {}, {}, {})
  }

  /** The ipcache after NodeUpdated(n) that replaces the stored `o`. */
  function ReplacedIPCache(conf: Config, c: IPCache, o: Node, n: Node): IPCache
  {
    Upsert(c, ProjectedFacts(conf, n), n.source) - UpdateRetraction(conf, o, n)
  }

  function ReplacedIPSet(conf: Config, s: set<Ip>, o: Node, n: Node): set<Ip>
  {
    (s + IPSetProjected(conf, n)) - UpdateIPSetRetraction(conf, o, n)
  }

  // ---------------------------------------------------------------------
  // Handler fan-out and the restore/prune bookkeeping.
  // ---------------------------------------------------------------------

  /** Iter: every subscribed handler received `ev`, exactly once. */
  ghost predicate FannedOut(delta: seq<HandlerCall>, hs: set<HandlerID>, ev: NodeEvent)
  {
    (forall i | 0 <= i < |delta| :: delta[i].event == ev && delta[i].handler in hs)
    && (forall h | h in hs :: exists i | 0 <= i < |delta| :: delta[i].handler == h)
    && (forall i, j | 0 <= i < j < |delta| :: delta[i].handler != delta[j].handler)
  }

  /** Subscribe's replay: `h` received one NodeAdd per stored node. */
  ghost predicate Replayed(delta: seq<HandlerCall>, h: HandlerID, nodes: map<NodeIdentity, Node>)
  {
    (forall i | 0 <= i < |delta| :: delta[i].handler == h && delta[i].event.NodeAdd? && delta[i].event.node in nodes.Values)
    && (forall id | id in nodes :: exists i | 0 <= i < |delta| :: delta[i].event == NodeAdd(nodes[id]))
    && (forall i, j | 0 <= i < j < |delta| :: delta[i] != delta[j])
  }

  /** Every handler received exactly one NodeDelete per pruned node. */
  ghost predicate DeletesDelivered(delta: seq<HandlerCall>, hs: set<HandlerID>, pruned: map<NodeIdentity, Node>)
  {
    (forall i | 0 <= i < |delta| ::
       delta[i].handler in hs && delta[i].event.NodeDelete?
       && delta[i].event.node.Identity() in pruned && pruned[delta[i].event.node.Identity()] == delta[i].event.node)
    && (forall id, h | id in pruned && h in hs ::
          exists i | 0 <= i < |delta| :: delta[i] == HandlerCall(h, NodeDelete(pruned[id])))
    && (forall i, j | 0 <= i < j < |delta| :: delta[i] != delta[j])
  }

  /** The prefix lists NodeUpdated hands to removeNodeFromIPCache. */
  datatype Added = Added(ipsetEntries: seq<Prefix>, nodeIPs: seq<Prefix>, healthIPs: seq<Prefix>,
                         ingressIPs: seq<Prefix>, podCIDRs: seq<Prefix>)

  /** The lists hold exactly what NodeUpdated(n) upserted. */
  predicate AddedFor(conf: Config, n: Node, added: Added)
  {
    Elems(added.ipsetEntries) == IPSetEntries(conf, n, n.addresses)
    && Elems(added.nodeIPs) == AddressPrefixes(n.addresses)
    && Elems(added.healthIPs) == EndpointPrefixes(HealthIPs(n))
    && Elems(added.ingressIPs) == EndpointPrefixes(IngressIPs(n))
    && Elems(added.podCIDRs) == PodCIDRsAdded(conf, n, n.podCIDRs)
  }

  /** A stored record with the same identity exists and n's source may overwrite it. */
  predicate Replaces(nodes: map<NodeIdentity, Node>, n: Node)
  {
    n.Identity() in nodes && AllowOverwrite(nodes[n.Identity()].source, n.source)
  }

  /** NodeUpdated stores n: it is new, or it replaces the stored record. */
  predicate UpdateAccepted(nodes: map<NodeIdentity, Node>, n: Node)
  {
    n.Identity() !in nodes || Replaces(nodes, n)
  }

  /** The restored nodes among `done` that pruneNodes selects for deletion. */
  function StaleSelected(conf: Config, restored: map<NodeIdentity, Node>, includeMeshed: bool, done: set<NodeIdentity>): map<NodeIdentity, Node>
  {
    map id | id in restored && id in done && PruneSelects(conf, restored[id], includeMeshed) :: restored[id]
  }

  /** NodeDeleted acts: a restored replay, or the owner of the stored record. */
  predicate DeleteMatches(nodes: map<NodeIdentity, Node>, n: Node)
  {
    n.source == Restored || (n.Identity() in nodes && nodes[n.Identity()].source == n.source)
  }

  /** Kubernetes deleting the local node while another source owns its record. */
  predicate StopsManager(conf: Config, nodes: map<NodeIdentity, Node>, n: Node)
  {
    n.Identity() in nodes && IsLocal(conf, n) && n.source == Kubernetes
  }

  predicate IdentityKeyed(m: map<NodeIdentity, Node>)
  {
    forall id | id in m :: m[id].Identity() == id
  }

  /** restoreNodeCheckpoint's loop: tag each node Restored, last one wins. */
  function RestoreAll(m: map<NodeIdentity, Node>, ns: seq<Node>): map<NodeIdentity, Node>
  {
    if ns == [] then m
    else
      var n := ns[|ns| - 1].(source := Restored);
      RestoreAll(m, ns[..|ns| - 1])[n.Identity() := n]
  }

  /** pruneNodes deletes restored nodes of the local cluster, or all of them when meshed. */
  predicate PruneSelects(conf: Config, n: Node, includeMeshed: bool)
  {
    n.cluster == conf.clusterName || includeMeshed
  }

  /** The restored nodes pruneNodes deletes. */
  function PrunedNodes(conf: Config, restored: map<NodeIdentity, Node>, live: set<NodeIdentity>, includeMeshed: bool): map<NodeIdentity, Node>
  {
    map id | id in restored && id !in live && PruneSelects(conf, restored[id], includeMeshed) :: restored[id]
  }

  /** The restored nodes pruneNodes keeps (not live, not selected). */
  function PruneSurvivors(conf: Config, restored: map<NodeIdentity, Node>, live: set<NodeIdentity>, includeMeshed: bool): map<NodeIdentity, Node>
  {
    map id | id in restored && id !in live && !PruneSelects(conf, restored[id], includeMeshed) :: restored[id]
  }

  function Triggers(reason: string, k: nat): (t: seq<CheckpointEvent>)
    ensures |t| == k && forall i | 0 <= i < k :: t[i] == Triggered(reason)
  {
    if k == 0 then [] else Triggers(reason, k - 1) + [Triggered(reason)]
  }

  class Manager {
    var conf: Config
    /** Live nodes (m.nodes). */
    var nodes: map<NodeIdentity, Node>
    /** Nodes read from the checkpoint and not yet pruned (m.restoredNodes). */
    var restoredNodes: map<NodeIdentity, Node>
    /** Subscribed node handlers (m.nodeHandlers). */
    var handlers: set<HandlerID>
    var ipcache: IPCache
    var ipset: set<Ip>
    /** m.nodeCheckpointer != nil */
    var checkpointerActive: bool
    /** m.nodePruneOnce has fired. */
    var pruneDone: bool
    /** m.ipsetInitializer.InitDone() was called. */
    var ipsetInitDone: bool
    ghost var handlerLog: seq<HandlerCall>
    ghost var checkpointLog: seq<CheckpointEvent>

    ghost predicate Valid()
      reads this
    {
      IdentityKeyed(nodes) && IdentityKeyed(restoredNodes)
      && (forall id | id in restoredNodes :: restoredNodes[id].source == Restored)
    }

    /** New: an empty manager without checkpointer. */
    constructor (conf: Config)
      ensures Valid()
      ensures this.conf == conf && nodes == map[] && restoredNodes == map[] && handlers == {}
      ensures ipcache == map[] && ipset == {} && !checkpointerActive && !pruneDone && !ipsetInitDone
      ensures handlerLog == [] && checkpointLog == []
    {
      this.conf := conf;
      nodes := map[];
      restoredNodes := map[];
      handlers := {};
      ipcache := map[];
      ipset := {};
      checkpointerActive := false;
      pruneDone := false;
      ipsetInitDone := false;
      handlerLog := [];
      checkpointLog := [];
    }

    /** SetPrefixClusterMutatorFn. */
    method SetPrefixClusterMutator(scope: Node -> nat)
      modifies this`conf
      ensures conf == old(conf).(clusterScope := scope)
    {
      conf := conf.(clusterScope := scope);
    }

    /** Subscribe: register `h`, then replay every stored node to it. */
    method Subscribe(h: HandlerID)
      requires Valid()
      modifies this`handlers, this`handlerLog
      ensures handlers == old(handlers) + {h}
      ensures |handlerLog| >= |old(handlerLog)| && handlerLog[..|old(handlerLog)|] == old(handlerLog)
      ensures Replayed(handlerLog[|old(handlerLog)|..], h, nodes)
    {
      handlers := handlers + {h};
      var stored := nodes;
      var rest := stored.Keys;
      ghost var delta: seq<HandlerCall> := [];
      ghost var ids: seq<NodeIdentity> := [];
      while rest != {}
        invariant ReplayProgress(delta, ids, h, stored, rest)
        modifies {}
        decreases |rest|
      {
        var id :| id in rest;
        ReplayStep(delta, ids, h, stored, rest, id);
        delta := delta + [HandlerCall(h, NodeAdd(stored[id]))];
        ids := ids + [id];
        rest := rest - {id};
      }
      ReplayedByIds(delta, ids, h, stored);
      handlerLog := handlerLog + delta;
      assert handlerLog[|old(handlerLog)|..] == delta;
    }

    /** Unsubscribe. */
    method Unsubscribe(h: HandlerID)
      modifies this`handlers
      ensures handlers == old(handlers) - {h}
    {
      handlers := handlers - {h};
    }

    /** Iter: deliver `ev` to every subscribed handler. */
    method FanOut(ev: NodeEvent)
      modifies this`handlerLog
      ensures |handlerLog| >= |old(handlerLog)| && handlerLog[..|old(handlerLog)|] == old(handlerLog)
      ensures FannedOut(handlerLog[|old(handlerLog)|..], handlers, ev)
    {
      var hs := handlers;
      var rest := hs;
      ghost var delta: seq<HandlerCall> := [];
      while rest != {}
        invariant rest <= hs
        invariant forall i | 0 <= i < |delta| :: delta[i].event == ev && delta[i].handler in hs - rest
        invariant forall g | g in hs - rest :: exists i | 0 <= i < |delta| :: delta[i].handler == g
        invariant forall i, j | 0 <= i < j < |delta| :: delta[i].handler != delta[j].handler
        decreases |rest|
        modifies {}
      {
        var h :| h in rest;
        ghost var prev := delta;
        delta := delta + [HandlerCall(h, ev)];
        forall g | g in hs - (rest - {h})
          ensures exists i | 0 <= i < |delta| :: delta[i].handler == g
        {
          if g == h {
            assert delta[|delta| - 1].handler == g;
          } else {
            assert g in hs - rest;
            var i :| 0 <= i < |prev| && prev[i].handler == g;
            assert delta[i] == prev[i];
          }
        }
        rest := rest - {h};
      }
      assert hs - rest == hs;
      handlerLog := handlerLog + delta;
      assert handlerLog[|old(handlerLog)|..] == delta;
    }

    /** NodeUpdated's address loop: upsert labels (and identity overrides). */
    method UpsertAddresses(n: Node, r: ResourceID, existing: PrefixCluster -> Source)
      returns (dpUpdate: bool, ipsetEntries: seq<Prefix>, nodeIPsAdded: seq<Prefix>)
      modifies this`ipcache
      ensures ipcache == Upsert(old(ipcache), AddressFacts(conf, n, n.addresses, r), n.source)
      ensures dpUpdate == AddressesAllowDatapath(conf, n, existing, n.addresses)
      ensures Elems(ipsetEntries) == IPSetEntries(conf, n, n.addresses)
      ensures Elems(nodeIPsAdded) == AddressPrefixes(n.addresses)
    {
      ghost var c0 := ipcache;
      var cache := ipcache;
      var c := conf;
      var hasOverride := HasIdentityOverride(c, n);
      dpUpdate := true;
      ipsetEntries := [];
      nodeIPsAdded := [];
      var i := 0;
      ghost var done: seq<Address> := [];
      while i < |n.addresses|
        invariant 0 <= i <= |n.addresses|
        invariant done == n.addresses[..i]
        invariant cache == Upsert(c0, AddressFacts(c, n, done, r), n.source)
        invariant dpUpdate == AddressesAllowDatapath(c, n, existing, done)
        invariant Elems(ipsetEntries) == IPSetEntries(c, n, done)
        invariant Elems(nodeIPsAdded) == AddressPrefixes(done)
        modifies {}
      {
        var a := n.addresses[i];
        assert n.addresses[..i + 1] == done + [a];
        AddressStep(c, n, done, a, r, existing);
        var pc := AddressPrefixCluster(c, n, a);
        var prefix := HostPrefix(a.ip);
        if a.kind == NodeInternalIP && !c.ipsetFilter(n) {
          ElemsAppend(ipsetEntries, prefix);
          ipsetEntries := ipsetEntries + [prefix];
        }
        assert Elems(ipsetEntries) == IPSetEntries(c, n, done + [a]);
        var s := existing(pc);
        if !AllowOverwrite(s, n.source) && s != KubeAPIServer
           && !(a.kind == NodeCiliumInternalIP && a.ip in c.localRouterIPs) {
          dpUpdate := false;
        }
        assert dpUpdate == AddressesAllowDatapath(c, n, existing, done + [a]);
        ghost var upserted := AddressFacts(c, n, done, r);
        UpsertStep(c0, upserted, Fact(pc, r, NodeLabels), n.source);
        cache := cache[Fact(pc, r, NodeLabels) := n.source];
        upserted := upserted + {Fact(pc, r, NodeLabels)};
        if hasOverride {
          UpsertStep(c0, upserted, Fact(pc, r, IdentityOverride), n.source);
          cache := cache[Fact(pc, r, IdentityOverride) := n.source];
          upserted := upserted + {Fact(pc, r, IdentityOverride)};
        }
        ElemsAppend(nodeIPsAdded, pc.prefix);
        nodeIPsAdded := nodeIPsAdded + [pc.prefix];
        assert upserted == AddressFacts(c, n, done + [a], r);
        done := done + [a];
        i := i + 1;
      }
      ipcache := cache;
      assert n.addresses[..i] == n.addresses;
    }

    /** AddToIPSet: queue the prefixes' addresses into the node ipset. */
    method AddToIPSet(entries: seq<Prefix>)
      modifies this`ipset
      ensures ipset == old(ipset) + (set p | p in entries :: p.addr)
    {
      ipset := ipset + (set p | p in entries :: p.addr);
    }

    /** NodeUpdated's pod-CIDR loop (remote nodes only): upsert fallback entries. */
    method UpsertPodCIDRs(n: Node, r: ResourceID) returns (podCIDRsAdded: seq<Prefix>)
      requires !IsLocal(conf, n)
      modifies this`ipcache
      ensures ipcache == Upsert(old(ipcache), PodCIDRFacts(conf, n, n.podCIDRs, r), n.source)
      ensures Elems(podCIDRsAdded) == PodCIDRsAdded(conf, n, n.podCIDRs)
    {
      var c := conf;
      ghost var c0 := ipcache;
      var cache := ipcache;
      podCIDRsAdded := [];
      ghost var done: seq<Prefix> := [];
      var i := 0;
      while i < |n.podCIDRs|
        invariant 0 <= i <= |n.podCIDRs|
        invariant done == n.podCIDRs[..i]
        invariant cache == Upsert(c0, PodCIDRFacts(c, n, done, r), n.source)
        invariant Elems(podCIDRsAdded) == PodCIDRsAdded(c, n, done)
        modifies {}
      {
        var p := n.podCIDRs[i];
        SliceStep(n.podCIDRs, i);
        PodCIDRStep(c, n, done, p, r);
        if ValidPrefix(p) {
          var f := Fact(ScopedPrefixCluster(c, n, p), r, PodCIDRFallback);
          UpsertStep(c0, PodCIDRFacts(c, n, done, r), f, n.source);
          cache := cache[f := n.source];
          ElemsAppend(podCIDRsAdded, p);
          podCIDRsAdded := podCIDRsAdded + [p];
          assert PodCIDRFacts(c, n, done + [p], r) == PodCIDRFacts(c, n, done, r) + {f};
        } else {
          assert PodCIDRFacts(c, n, done + [p], r) == PodCIDRFacts(c, n, done, r);
        }
        done := done + [p];
        i := i + 1;
      }
      ipcache := cache;
      assert n.podCIDRs[..i] == n.podCIDRs;
    }

    /** NodeUpdated's health and ingress loops: upsert the endpoint IPs that are set. */
    method UpsertEndpoints(n: Node, ips: seq<Option<Ip>>, r: ResourceID, kind: FactKind, existing: PrefixCluster -> Source)
      returns (dpUpdate: bool, added: seq<Prefix>)
      modifies this`ipcache
      ensures ipcache == Upsert(old(ipcache), EndpointFacts(conf, n, ips, r, kind), n.source)
      ensures dpUpdate == EndpointsAllowDatapath(conf, n, existing, ips)
      ensures Elems(added) == EndpointPrefixes(ips)
    {
      var c := conf;
      ghost var c0 := ipcache;
      var cache := ipcache;
      dpUpdate := true;
      added := [];
      ghost var done: seq<Option<Ip>> := [];
      var i := 0;
      while i < |ips|
        invariant 0 <= i <= |ips|
        invariant done == ips[..i]
        invariant cache == Upsert(c0, EndpointFacts(c, n, done, r, kind), n.source)
        invariant dpUpdate == EndpointsAllowDatapath(c, n, existing, done)
        invariant Elems(added) == EndpointPrefixes(done)
        modifies {}
      {
        var o := ips[i];
        SliceStep(ips, i);
        EndpointStep(c, n, done, o, r, kind, existing);
        if o.Some? {
          var pc := ScopedPrefixCluster(c, n, HostPrefix(o.value));
          if !AllowOverwrite(existing(pc), n.source) {
            dpUpdate := false;
          }
          UpsertStep(c0, EndpointFacts(c, n, done, r, kind), Fact(pc, r, kind), n.source);
          cache := cache[Fact(pc, r, kind) := n.source];
          ElemsAppend(added, pc.prefix);
          added := added + [pc.prefix];
          assert EndpointFacts(c, n, done + [o], r, kind) == EndpointFacts(c, n, done, r, kind) + {Fact(pc, r, kind)};
        } else {
          assert EndpointFacts(c, n, done + [o], r, kind) == EndpointFacts(c, n, done, r, kind);
        }
        done := done + [o];
        i := i + 1;
      }
      ipcache := cache;
      assert ips[..i] == ips;
    }

    /** removeNodeFromIPCache's address loop; returns the ipset addresses to remove. */
    method RemoveAddresses(o: Node, r: ResourceID, ipsetEntries: set<Prefix>, nodeIPsAdded: set<Prefix>)
      returns (ipsetRemovals: seq<Ip>)
      modifies this`ipcache
      ensures ipcache == old(ipcache) - RetractedAddressFacts(conf, o, o.addresses, r, nodeIPsAdded)
      ensures Elems(ipsetRemovals) == IPSetRetractedFrom(o.addresses, nodeIPsAdded, ipsetEntries)
    {
      var c := conf;
      ghost var c0 := ipcache;
      var cache := ipcache;
      var hasOverride := HasIdentityOverride(c, o);
      ipsetRemovals := [];
      ghost var done: seq<Address> := [];
      var i := 0;
      while i < |o.addresses|
        invariant 0 <= i <= |o.addresses|
        invariant done == o.addresses[..i]
        invariant cache == c0 - RetractedAddressFacts(c, o, done, r, nodeIPsAdded)
        invariant Elems(ipsetRemovals) == IPSetRetractedFrom(done, nodeIPsAdded, ipsetEntries)
        modifies {}
      {
        var a := o.addresses[i];
        SliceStep(o.addresses, i);
        RetractAddressStep(c, o, done, a, r, nodeIPsAdded, ipsetEntries);
        var prefix := HostPrefix(a.ip);
        if prefix !in nodeIPsAdded {
          var pc := AddressPrefixCluster(c, o, a);
          if a.kind == NodeInternalIP && pc.prefix !in ipsetEntries {
            ElemsAppend(ipsetRemovals, a.ip);
            ipsetRemovals := ipsetRemovals + [a.ip];
          }
          ghost var removed := RetractedAddressFacts(c, o, done, r, nodeIPsAdded);
          RemoveStep(c0, removed, Fact(pc, r, NodeLabels));
          cache := cache - {Fact(pc, r, NodeLabels)};
          removed := removed + {Fact(pc, r, NodeLabels)};
          if hasOverride {
            RemoveStep(c0, removed, Fact(pc, r, IdentityOverride));
            cache := cache - {Fact(pc, r, IdentityOverride)};
            removed := removed + {Fact(pc, r, IdentityOverride)};
          }
          assert removed == RetractedAddressFacts(c, o, done + [a], r, nodeIPsAdded);
        }
        done := done + [a];
        i := i + 1;
      }
      ipcache := cache;
      assert o.addresses[..i] == o.addresses;
    }

    /** removeNodeFromIPCache's pod-CIDR loops (remote nodes only). */
    method RemovePodCIDRs(o: Node, r: ResourceID, podCIDRsAdded: set<Prefix>)
      requires !IsLocal(conf, o)
      modifies this`ipcache
      ensures ipcache == old(ipcache) - RetractedPodCIDRFacts(conf, o, o.podCIDRs, r, podCIDRsAdded)
    {
      var c := conf;
      ghost var c0 := ipcache;
      var cache := ipcache;
      ghost var done: seq<Prefix> := [];
      var i := 0;
      while i < |o.podCIDRs|
        invariant 0 <= i <= |o.podCIDRs|
        invariant done == o.podCIDRs[..i]
        invariant cache == c0 - RetractedPodCIDRFacts(c, o, done, r, podCIDRsAdded)
        modifies {}
      {
        var p := o.podCIDRs[i];
        SliceStep(o.podCIDRs, i);
        RetractPodCIDRStep(c, o, done, p, r, podCIDRsAdded);
        if ValidPrefix(p) && p !in podCIDRsAdded {
          var f := Fact(ScopedPrefixCluster(c, o, p), r, PodCIDRFallback);
          RemoveStep(c0, RetractedPodCIDRFacts(c, o, done, r, podCIDRsAdded), f);
          cache := cache - {f};
        }
        done := done + [p];
        i := i + 1;
      }
      ipcache := cache;
      assert o.podCIDRs[..i] == o.podCIDRs;
    }

    /** removeNodeFromIPCache's health and ingress loops. */
    method RemoveEndpoints(o: Node, ips: seq<Option<Ip>>, r: ResourceID, kind: FactKind, added: set<Prefix>)
      modifies this`ipcache
      ensures ipcache == old(ipcache) - RetractedEndpointFacts(conf, o, ips, r, kind, added)
    {
      var c := conf;
      ghost var c0 := ipcache;
      var cache := ipcache;
      ghost var done: seq<Option<Ip>> := [];
      var i := 0;
      while i < |ips|
        invariant 0 <= i <= |ips|
        invariant done == ips[..i]
        invariant cache == c0 - RetractedEndpointFacts(c, o, done, r, kind, added)
        modifies {}
      {
        var x := ips[i];
        SliceStep(ips, i);
        RetractEndpointStep(c, o, done, x, r, kind, added);
        if x.Some? && HostPrefix(x.value) !in added {
          var f := Fact(ScopedPrefixCluster(c, o, HostPrefix(x.value)), r, kind);
          RemoveStep(c0, RetractedEndpointFacts(c, o, done, r, kind, added), f);
          cache := cache - {f};
        }
        done := done + [x];
        i := i + 1;
      }
      ipcache := cache;
      assert ips[..i] == ips;
    }

    /**
     * removeNodeFromIPCache: retract every fact of the old node `o` whose
     * prefix is not among the prefixes the new record just upserted, and
     * remove from the ipset its internal IPs that are not kept.
     */
    method RemoveNodeFromIPCache(o: Node, r: ResourceID, added: Added)
      modifies this`ipcache, this`ipset
      ensures ipcache == old(ipcache) - RetractedFacts(conf, o, r, Elems(added.nodeIPs), Elems(added.healthIPs),
                                                       Elems(added.ingressIPs), Elems(added.podCIDRs))
      ensures ipset == old(ipset) - IPSetRetractedFrom(o.addresses, Elems(added.nodeIPs), Elems(added.ipsetEntries))
    {
      var ipsetEntries, nodeIPsAdded, healthIPsAdded, ingressIPsAdded, podCIDRsAdded :=
        added.ipsetEntries, added.nodeIPs, added.healthIPs, added.ingressIPs, added.podCIDRs;
      ghost var c0 := ipcache;
      ghost var addressFacts := RetractedAddressFacts(conf, o, o.addresses, r, Elems(nodeIPsAdded));
      ghost var podFacts := RetractedPodCIDRFacts(conf, o, o.podCIDRs, r, Elems(podCIDRsAdded));
      ghost var healthFacts := RetractedEndpointFacts(conf, o, HealthIPs(o), r, HealthEndpoint, Elems(healthIPsAdded));
      ghost var ingressFacts := RetractedEndpointFacts(conf, o, IngressIPs(o), r, IngressEndpoint, Elems(ingressIPsAdded));
      var removals := RemoveAddresses(o, r, Elems(ipsetEntries), Elems(nodeIPsAdded));
      ipset := ipset - Elems(removals);
      if !IsLocal(conf, o) {
        RemovePodCIDRs(o, r, Elems(podCIDRsAdded));
      }
      assert ipcache == (c0 - addressFacts) - podFacts;
      RemoveBoth(c0, addressFacts, podFacts);
      RemoveEndpoints(o, HealthIPs(o), r, HealthEndpoint, Elems(healthIPsAdded));
      RemoveBoth(c0, addressFacts + podFacts, healthFacts);
      RemoveEndpoints(o, IngressIPs(o), r, IngressEndpoint, Elems(ingressIPsAdded));
      RemoveBoth(c0, addressFacts + podFacts + healthFacts, ingressFacts);
    }

    /**
     * The part of NodeUpdated before the node table is consulted: upsert
     * every prefix of `n`, add its internal IPs to the ipset and compute
     * dpUpdate and the lists of added prefixes.
     */
    method ProjectNode(n: Node, r: ResourceID, existing: PrefixCluster -> Source)
      returns (dpUpdate: bool, added: Added)
      requires r == NodeResource(n.name)
      modifies this`ipcache, this`ipset
      ensures ipcache == Upsert(old(ipcache), ProjectedFacts(conf, n), n.source)
      ensures ipset == old(ipset) + IPSetProjected(conf, n)
      ensures dpUpdate == DatapathUpdate(conf, n, existing)
      ensures AddedFor(conf, n, added)
    {
      ghost var c0 := ipcache;
      ghost var s0 := ipset;
      var dp, ipsetEntries, nodeIPsAdded := UpsertAddresses(n, r, existing);
      AddToIPSet(ipsetEntries);
      assert ipset == s0 + IPSetProjected(conf, n);
      var podCIDRsAdded: seq<Prefix> := [];
      if !IsLocal(conf, n) {
        podCIDRsAdded := UpsertPodCIDRs(n, r);
      }
      ghost var facts := AddressFacts(conf, n, n.addresses, r);
      UpsertBoth(c0, facts, PodCIDRFacts(conf, n, n.podCIDRs, r), n.source);
      facts := facts + PodCIDRFacts(conf, n, n.podCIDRs, r);
      var healthOK, healthIPsAdded := UpsertEndpoints(n, HealthIPs(n), r, HealthEndpoint, existing);
      UpsertBoth(c0, facts, EndpointFacts(conf, n, HealthIPs(n), r, HealthEndpoint), n.source);
      facts := facts + EndpointFacts(conf, n, HealthIPs(n), r, HealthEndpoint);
      var ingressOK, ingressIPsAdded := UpsertEndpoints(n, IngressIPs(n), r, IngressEndpoint, existing);
      UpsertBoth(c0, facts, EndpointFacts(conf, n, IngressIPs(n), r, IngressEndpoint), n.source);
      facts := facts + EndpointFacts(conf, n, IngressIPs(n), r, IngressEndpoint);
      assert facts == ProjectedFacts(conf, n);
      dpUpdate := dp && healthOK && ingressOK;
      added := Added(ipsetEntries, nodeIPsAdded, healthIPsAdded, ingressIPsAdded, podCIDRsAdded);
    }

    /**
     * The part of NodeUpdated after the projection: consult the node table,
     * and unless the stored record's source outranks n's, store n, notify
     * the handlers and retract what the replaced record no longer announces.
     */
    method CommitUpdate(n: Node, dpUpdate: bool, added: Added)
      requires Valid()
      requires AddedFor(conf, n, added)
      modifies this`ipcache, this`ipset, this`nodes, this`handlerLog, this`checkpointLog
      ensures Valid()
      ensures Replaces(old(nodes), n) ==>
                ipcache == old(ipcache) - UpdateRetraction(conf, old(nodes)[n.Identity()], n)
                && ipset == old(ipset) - UpdateIPSetRetraction(conf, old(nodes)[n.Identity()], n)
      ensures !Replaces(old(nodes), n) ==> ipcache == old(ipcache) && ipset == old(ipset)
      ensures nodes == if UpdateAccepted(old(nodes), n) then old(nodes)[n.Identity() := n] else old(nodes)
      ensures checkpointLog == old(checkpointLog)
                + (if UpdateAccepted(old(nodes), n) && checkpointerActive then [Triggered("NodeUpdate")] else [])
      ensures !(UpdateAccepted(old(nodes), n) && dpUpdate) ==> handlerLog == old(handlerLog)
      ensures UpdateAccepted(old(nodes), n) && dpUpdate ==>
                |handlerLog| >= |old(handlerLog)| && handlerLog[..|old(handlerLog)|] == old(handlerLog)
                && FannedOut(handlerLog[|old(handlerLog)|..], handlers,
                             if n.Identity() in old(nodes) then NodeUpdate(old(nodes)[n.Identity()], n) else NodeAdd(n))
    {
      var id := n.Identity();
      if id in nodes {
        var oldNode := nodes[id];
        if !AllowOverwrite(oldNode.source, n.source) {
          return;
        }
        nodes := nodes[id := n];
        if dpUpdate {
          FanOut(NodeUpdate(oldNode, n));
        }
        AddedRetraction(conf, oldNode, n, added);
        RemoveNodeFromIPCache(oldNode, NodeResource(n.name), added);
      } else {
        nodes := nodes[id := n];
        if dpUpdate {
          FanOut(NodeAdd(n));
        }
      }
      if checkpointerActive {
        checkpointLog := checkpointLog + [Triggered("NodeUpdate")];
      }
    }

    /**
     * NodeUpdated: project `n` into the ipcache and the ipset, then, unless a
     * stored record of a stronger source rejects it, store it, notify the
     * handlers (NodeUpdate or NodeAdd, when dpUpdate holds), retract what the
     * replaced record announced and no longer does, and trigger a checkpoint.
     * `existing` is the ipcache's current source per prefix.
     */
    method NodeUpdated(n: Node, existing: PrefixCluster -> Source)
      requires Valid()
      modifies this`ipcache, this`ipset, this`nodes, this`handlerLog, this`checkpointLog
      ensures Valid()
      ensures Replaces(old(nodes), n) ==>
                ipcache == ReplacedIPCache(conf, old(ipcache), old(nodes)[n.Identity()], n)
                && ipset == ReplacedIPSet(conf, old(ipset), old(nodes)[n.Identity()], n)
      ensures !Replaces(old(nodes), n) ==>
                ipcache == Upsert(old(ipcache), ProjectedFacts(conf, n), n.source)
                && ipset == old(ipset) + IPSetProjected(conf, n)
      ensures nodes == if UpdateAccepted(old(nodes), n) then old(nodes)[n.Identity() := n] else old(nodes)
      ensures checkpointLog == old(checkpointLog)
                + (if UpdateAccepted(old(nodes), n) && checkpointerActive then [Triggered("NodeUpdate")] else [])
      ensures !(UpdateAccepted(old(nodes), n) && DatapathUpdate(conf, n, existing)) ==> handlerLog == old(handlerLog)
      ensures UpdateAccepted(old(nodes), n) && DatapathUpdate(conf, n, existing) ==>
                |handlerLog| >= |old(handlerLog)| && handlerLog[..|old(handlerLog)|] == old(handlerLog)
                && FannedOut(handlerLog[|old(handlerLog)|..], handlers,
                             if n.Identity() in old(nodes) then NodeUpdate(old(nodes)[n.Identity()], n) else NodeAdd(n))
    {
      var dpUpdate, added := ProjectNode(n, NodeResource(n.name), existing);
      CommitUpdate(n, dpUpdate, added);
    }

    /** Stop: write a last checkpoint synchronously and drop the checkpointer. */
    method Stop()
      modifies this`checkpointerActive, this`checkpointLog
      ensures !checkpointerActive
      ensures checkpointLog == old(checkpointLog) + (if old(checkpointerActive) then [Written(nodes)] else [])
    {
      if checkpointerActive {
        checkpointLog := checkpointLog + [Written(nodes)];
        checkpointerActive := false;
      }
    }

    /**
     * NodeDeleted's deletion path: retract what the stored record announced
     * (not for a restored node, whose prefixes the ipcache never got back),
     * forget the identity, trigger a checkpoint and notify the handlers.
     */
    method DeleteNode(n: Node, stored: Node)
      requires Valid()
      requires stored.Identity() == n.Identity()
      modifies this`ipcache, this`ipset, this`nodes, this`handlerLog, this`checkpointLog
      ensures Valid()
      ensures ipcache == if n.source == Restored then old(ipcache) else old(ipcache) - DeleteRetraction(conf, stored)
      ensures ipset == if n.source == Restored then old(ipset) else old(ipset) - IPSetRetractedFrom(stored.addresses, {}, {})
      ensures nodes == old(nodes) - {n.Identity()}
      ensures checkpointLog == old(checkpointLog) + (if checkpointerActive then [Triggered("NodeDeleted")] else [])
      ensures |handlerLog| >= |old(handlerLog)| && handlerLog[..|old(handlerLog)|] == old(handlerLog)
      ensures FannedOut(handlerLog[|old(handlerLog)|..], handlers, NodeDelete(n))
    {
      if n.source != Restored {
        assert Elems<Prefix>([]) == {};
        RemoveNodeFromIPCache(stored, NodeResource(n.name), Added([], [], [], [], []));
      }
      nodes := nodes - {n.Identity()};
      if checkpointerActive {
        checkpointLog := checkpointLog + [Triggered("NodeDeleted")];
      }
      FanOut(NodeDelete(n));
    }

    /**
     * NodeDeleted: forget the node if the deletion comes from the source that
     * owns the stored record (or replays a restored node). A deletion of the
     * local node by Kubernetes while another source owns it stops the manager.
     */
    method NodeDeleted(n: Node)
      requires Valid()
      modifies this`ipcache, this`ipset, this`nodes, this`handlerLog, this`checkpointLog, this`checkpointerActive
      ensures Valid()
      ensures checkpointerActive == (old(checkpointerActive) && !(!DeleteMatches(old(nodes), n) && StopsManager(conf, old(nodes), n)))
      ensures n.source == Restored ==>
                ipcache == old(ipcache) && ipset == old(ipset) && nodes == old(nodes) - {n.Identity()}
      ensures n.source != Restored && DeleteMatches(old(nodes), n) ==>
                ipcache == old(ipcache) - DeleteRetraction(conf, old(nodes)[n.Identity()])
                && ipset == old(ipset) - IPSetRetractedFrom(old(nodes)[n.Identity()].addresses, {}, {})
                && nodes == old(nodes) - {n.Identity()}
      ensures DeleteMatches(old(nodes), n) ==>
                checkpointLog == old(checkpointLog) + (if checkpointerActive then [Triggered("NodeDeleted")] else [])
                && |handlerLog| >= |old(handlerLog)| && handlerLog[..|old(handlerLog)|] == old(handlerLog)
                && FannedOut(handlerLog[|old(handlerLog)|..], handlers, NodeDelete(n))
      ensures !DeleteMatches(old(nodes), n) ==>
                ipcache == old(ipcache) && ipset == old(ipset) && nodes == old(nodes) && handlerLog == old(handlerLog)
                && checkpointLog == old(checkpointLog)
                   + (if StopsManager(conf, old(nodes), n) && old(checkpointerActive) then [Written(nodes)] else [])
    {
      var id := n.Identity();
      var stored := n;
      if n.source != Restored {
        if id !in nodes {
          return;
        }
        stored := nodes[id];
      }
      if n.source != stored.source {
        if IsLocal(conf, n) && n.source == Kubernetes {
          Stop();
        }
        return;
      }
      DeleteNode(n, stored);
    }

    /** restoreNodeCheckpoint: keep the decoded nodes, tagged Restored, until pruning. */
    method RestoreNodeCheckpoint(read: CheckpointRead)
      requires Valid()
      modifies this`restoredNodes
      ensures Valid()
      ensures restoredNodes == if read.Decoded? then RestoreAll(old(restoredNodes), read.nodes) else old(restoredNodes)
    {
      if !read.Decoded? {
        return;
      }
      var ns := read.nodes;
      var m := restoredNodes;
      var i := 0;
      while i < |ns|
        invariant 0 <= i <= |ns|
        invariant m == RestoreAll(restoredNodes, ns[..i])
        modifies {}
      {
        var n := ns[i].(source := Restored);
        assert ns[..i + 1][..i] == ns[..i];
        m := m[n.Identity() := n];
        i := i + 1;
      }
      assert ns[..i] == ns;
      RestoreAllValid(restoredNodes, ns);
      restoredNodes := m;
    }

    /**
     * Start: restore the checkpoint before anything can overwrite it, then
     * create the checkpoint trigger; `triggerCreated` is whether that succeeded.
     */
    method Start(read: CheckpointRead, triggerCreated: bool) returns (ok: bool)
      requires Valid()
      modifies this`restoredNodes, this`checkpointerActive
      ensures Valid()
      ensures restoredNodes == if read.Decoded? then RestoreAll(old(restoredNodes), read.nodes) else old(restoredNodes)
      ensures ok == triggerCreated && checkpointerActive == triggerCreated
    {
      RestoreNodeCheckpoint(read);
      checkpointerActive := triggerCreated;
      ok := triggerCreated;
    }

    /** pruneNodes' first loop: a restored node that is live again is not stale. */
    method ForgetLiveRestored()
      modifies this`restoredNodes
      ensures restoredNodes == old(restoredNodes) - nodes.Keys
    {
      ghost var r0 := restoredNodes;
      var m := restoredNodes;
      var live := nodes.Keys;
      var rest := live;
      while rest != {}
        invariant rest <= live
        invariant m == r0 - (live - rest)
        modifies {}
        decreases |rest|
      {
        var id :| id in rest;
        m := m - {id};
        rest := rest - {id};
      }
      assert live - rest == live;
      restoredNodes := m;
    }

    /** NodeDeleted on a restored node that is not live: only the handlers and the checkpointer hear of it. */
    method ReplayDeletion(n: Node) returns (ghost delta: seq<HandlerCall>)
      requires Valid()
      requires n.source == Restored && n.Identity() !in nodes
      modifies this`ipcache, this`ipset, this`nodes, this`handlerLog, this`checkpointLog, this`checkpointerActive
      ensures Valid()
      ensures ipcache == old(ipcache) && ipset == old(ipset) && nodes == old(nodes)
      ensures checkpointerActive == old(checkpointerActive)
      ensures checkpointLog == old(checkpointLog) + (if checkpointerActive then [Triggered("NodeDeleted")] else [])
      ensures handlerLog == old(handlerLog) + delta
      ensures FannedOut(delta, handlers, NodeDelete(n))
    {
      NodeDeleted(n);
      delta := handlerLog[|old(handlerLog)|..];
      SplitAt(handlerLog, |old(handlerLog)|);
    }

    /**
     * The state of pruneNodes' second loop over `restored`: PruneProgress,
     * with the tables and counters that a replayed deletion leaves alone.
     */
    ghost predicate Replaying(restored: map<NodeIdentity, Node>, includeMeshed: bool, pending: set<NodeIdentity>,
                              remaining: map<NodeIdentity, Node>, delivered: seq<HandlerCall>,
                              triggers: seq<CheckpointEvent>, hs: set<HandlerID>, active: bool,
                              h0: seq<HandlerCall>, l0: seq<CheckpointEvent>,
                              c0: IPCache, s0: set<Ip>, n0: map<NodeIdentity, Node>)
      reads this
    {
      PruneProgress(conf, restored, includeMeshed, pending, remaining, delivered, hs, active, triggers)
      && Valid() && restoredNodes == restored && handlers == hs && checkpointerActive == active
      && (forall k | k in restored :: k !in nodes)
      && ipcache == c0 && ipset == s0 && nodes == n0
      && handlerLog == h0 + delivered && checkpointLog == l0 + triggers
    }

    /** One turn of pruneNodes' second loop: replay the deletion of restored[id] when it is selected. */
    method PruneStep(restored: map<NodeIdentity, Node>, includeMeshed: bool, pending: set<NodeIdentity>,
                     remaining: map<NodeIdentity, Node>, ghost delivered: seq<HandlerCall>,
                     ghost triggers: seq<CheckpointEvent>, hs: set<HandlerID>, active: bool,
                     ghost h0: seq<HandlerCall>, ghost l0: seq<CheckpointEvent>,
                     ghost c0: IPCache, ghost s0: set<Ip>, ghost n0: map<NodeIdentity, Node>, id: NodeIdentity)
      returns (remaining': map<NodeIdentity, Node>, ghost delivered': seq<HandlerCall>, ghost triggers': seq<CheckpointEvent>)
      requires Replaying(restored, includeMeshed, pending, remaining, delivered, triggers, hs, active, h0, l0, c0, s0, n0)
      requires id in pending
      modifies this`ipcache, this`ipset, this`nodes, this`handlerLog, this`checkpointLog, this`checkpointerActive
      ensures Replaying(restored, includeMeshed, pending - {id}, remaining', delivered', triggers', hs, active, h0, l0, c0, s0, n0)
    {
      var n := restored[id];
      var selected := PruneSelects(conf, n, includeMeshed);
      ghost var e: seq<HandlerCall> := [];
      if selected {
        e := ReplayDeletion(n);
        Assoc(h0, delivered, e);
        if active {
          Assoc(l0, triggers, [Triggered("NodeDeleted")]);
        }
      }
      PruneProgressStep(conf, restored, includeMeshed, pending, remaining, delivered, hs, active, triggers, id, e);
      delivered' := if selected then delivered + e else delivered;
      triggers' := if selected && active then triggers + [Triggered("NodeDeleted")] else triggers;
      remaining' := if selected then remaining - {id} else remaining;
    }

    /** pruneNodes' second loop over the restored table `restored`: replay a deletion for every selected node. */
    method ReplayStale(restored: map<NodeIdentity, Node>, includeMeshed: bool)
      returns (remaining: map<NodeIdentity, Node>, ghost delta: seq<HandlerCall>)
      requires Valid() && restoredNodes == restored
      requires forall id | id in restored :: id !in nodes
      modifies this`ipcache, this`ipset, this`nodes, this`handlerLog, this`checkpointLog, this`checkpointerActive
      ensures Valid()
      ensures ipcache == old(ipcache) && ipset == old(ipset) && nodes == old(nodes)
      ensures checkpointerActive == old(checkpointerActive)
      ensures var deleted := StaleSelected(conf, restored, includeMeshed, restored.Keys);
              remaining == restored - deleted.Keys
              && checkpointLog == old(checkpointLog) + (if checkpointerActive then Triggers("NodeDeleted", |deleted|) else [])
              && handlerLog == old(handlerLog) + delta
              && DeletesDelivered(delta, handlers, deleted)
    {
      ghost var h0 := handlerLog;
      ghost var l0 := checkpointLog;
      ghost var triggers: seq<CheckpointEvent> := [];
      delta := [];
      remaining := restored;
      var pending := restored.Keys;
      var hs := handlers;
      var active := checkpointerActive;
      PruneProgressInit(conf, restored, includeMeshed, hs, active);
      while pending != {}
        invariant Replaying(restored, includeMeshed, pending, remaining, delta, triggers, hs, active, h0, l0,
                            old(ipcache), old(ipset), old(nodes))
        decreases |pending|
      {
        var id :| id in pending;
        remaining, delta, triggers := PruneStep(restored, includeMeshed, pending, remaining, delta, triggers,
                                                hs, active, h0, l0, old(ipcache), old(ipset), old(nodes), id);
        pending := pending - {id};
      }
      PruneProgressDone(conf, restored, includeMeshed, remaining, delta, hs, active, triggers);
    }

    /**
     * pruneNodes: once the live listing is complete, replay a deletion for
     * every restored node that did not come back (of the local cluster, or of
     * any cluster when `includeMeshed`), and forget it.
     */
    method PruneNodes(includeMeshed: bool) returns (ghost delta: seq<HandlerCall>)
      requires Valid()
      modifies this`ipcache, this`ipset, this`nodes, this`handlerLog, this`checkpointLog, this`checkpointerActive,
               this`restoredNodes
      ensures Valid()
      ensures ipcache == old(ipcache) && ipset == old(ipset) && nodes == old(nodes)
      ensures checkpointerActive == old(checkpointerActive)
      ensures restoredNodes == PruneSurvivors(conf, old(restoredNodes), old(nodes).Keys, includeMeshed)
      ensures checkpointLog == old(checkpointLog)
                + (if checkpointerActive
                   then Triggers("NodeDeleted", |PrunedNodes(conf, old(restoredNodes), old(nodes).Keys, includeMeshed)|)
                   else [])
      ensures handlerLog == old(handlerLog) + delta
      ensures DeletesDelivered(delta, handlers, PrunedNodes(conf, old(restoredNodes), old(nodes).Keys, includeMeshed))
    {
      if |restoredNodes| == 0 {
        assert restoredNodes == map[];
        assert PrunedNodes(conf, restoredNodes, nodes.Keys, includeMeshed) == map[];
        assert PruneSurvivors(conf, restoredNodes, nodes.Keys, includeMeshed) == map[];
        return [];
      }
      PruneSplit(conf, restoredNodes, nodes.Keys, includeMeshed);
      ghost var pruned := PrunedNodes(conf, restoredNodes, nodes.Keys, includeMeshed);
      ghost var survivors := PruneSurvivors(conf, restoredNodes, nodes.Keys, includeMeshed);
      ForgetLiveRestored();
      var stale := restoredNodes;
      assert StaleSelected(conf, stale, includeMeshed, stale.Keys) == pruned;
      var remaining;
      remaining, delta := ReplayStale(stale, includeMeshed);
      assert remaining == survivors;
      restoredNodes := remaining;
    }

    /**
     * NodeSync: the initial listing is complete; release the ipset
     * initializer and prune stale nodes, the first time only.
     */
    method NodeSync() returns (ghost delta: seq<HandlerCall>)
      requires Valid()
      modifies this`ipcache, this`ipset, this`nodes, this`handlerLog, this`checkpointLog, this`checkpointerActive,
               this`restoredNodes, this`ipsetInitDone, this`pruneDone
      ensures Valid()
      ensures ipsetInitDone && pruneDone
      ensures ipcache == old(ipcache) && ipset == old(ipset) && nodes == old(nodes)
      ensures checkpointerActive == old(checkpointerActive)
      ensures handlerLog == old(handlerLog) + delta
      ensures old(pruneDone) ==>
                restoredNodes == old(restoredNodes) && delta == [] && checkpointLog == old(checkpointLog)
      ensures !old(pruneDone) ==>
                restoredNodes == PruneSurvivors(conf, old(restoredNodes), old(nodes).Keys, false)
                && DeletesDelivered(delta, handlers, PrunedNodes(conf, old(restoredNodes), old(nodes).Keys, false))
                && checkpointLog == old(checkpointLog)
                     + (if checkpointerActive
                        then Triggers("NodeDeleted", |PrunedNodes(conf, old(restoredNodes), old(nodes).Keys, false)|)
                        else [])
    {
      ipsetInitDone := true;
      delta := [];
      if !pruneDone {
        pruneDone := true;
        delta := PruneNodes(false);
      }
    }

    /** MeshNodeSync: the clustermesh listing is complete; prune restored nodes of every cluster. */
    method MeshNodeSync() returns (ghost delta: seq<HandlerCall>)
      requires Valid()
      modifies this`ipcache, this`ipset, this`nodes, this`handlerLog, this`checkpointLog, this`checkpointerActive,
               this`restoredNodes
      ensures Valid()
      ensures ipcache == old(ipcache) && ipset == old(ipset) && nodes == old(nodes)
      ensures checkpointerActive == old(checkpointerActive)
      ensures restoredNodes == PruneSurvivors(conf, old(restoredNodes), old(nodes).Keys, true)
      ensures checkpointLog == old(checkpointLog)
                + (if checkpointerActive
                   then Triggers("NodeDeleted", |PrunedNodes(conf, old(restoredNodes), old(nodes).Keys, true)|)
                   else [])
      ensures handlerLog == old(handlerLog) + delta
      ensures DeletesDelivered(delta, handlers, PrunedNodes(conf, old(restoredNodes), old(nodes).Keys, true))
    {
      delta := PruneNodes(true);
    }

    /** GetNodeIdentities: every stored identity, once. */
    method GetNodeIdentities() returns (ids: seq<NodeIdentity>)
      ensures Elems(ids) == nodes.Keys
      ensures Distinct(ids)
      ensures |ids| == |nodes|
    {
      ids := [];
      var keys := nodes.Keys;
      var rest := keys;
      while rest != {}
        invariant rest <= keys
        invariant Elems(ids) == keys - rest
        invariant Distinct(ids)
        decreases |rest|
      {
        var id :| id in rest;
        ElemsAppend(ids, id);
        DistinctAppend(ids, id);
        ids := ids + [id];
        rest := rest - {id};
      }
      DistinctCard(ids);
    }

    /** GetNodes: a copy of the node table. */
    method GetNodes() returns (m: map<NodeIdentity, Node>)
      ensures m == nodes
    {
      m := map[];
      var rest := nodes.Keys;
      while rest != {}
        invariant rest <= nodes.Keys
        invariant m == map id | id in nodes && id !in rest :: nodes[id]
        decreases |rest|
      {
        var id :| id in rest;
        m := m[id := nodes[id]];
        rest := rest - {id};
      }
    }
  }

  /** Subscribe's loop invariant: `ids` lists, without repeats, the identities replayed so far. */
  ghost predicate ReplayProgress(delta: seq<HandlerCall>, ids: seq<NodeIdentity>, h: HandlerID,
                                 stored: map<NodeIdentity, Node>, rest: set<NodeIdentity>)
  {
    rest <= stored.Keys
    && |ids| == |delta|
    && (forall i | 0 <= i < |ids| :: ids[i] in stored && ids[i] !in rest && delta[i] == HandlerCall(h, NodeAdd(stored[ids[i]])))
    && (forall id | id in stored && id !in rest :: id in ids)
    && (forall i, j | 0 <= i < j < |ids| :: ids[i] != ids[j])
  }

  lemma ReplayStep(delta: seq<HandlerCall>, ids: seq<NodeIdentity>, h: HandlerID,
                   stored: map<NodeIdentity, Node>, rest: set<NodeIdentity>, id: NodeIdentity)
    requires ReplayProgress(delta, ids, h, stored, rest) && id in rest
    ensures ReplayProgress(delta + [HandlerCall(h, NodeAdd(stored[id]))], ids + [id], h, stored, rest - {id})
  {
  }

  /** The replay loop's bookkeeping (one NodeAdd per stored identity) gives Replayed. */
  lemma ReplayedByIds(delta: seq<HandlerCall>, ids: seq<NodeIdentity>, h: HandlerID, stored: map<NodeIdentity, Node>)
    requires IdentityKeyed(stored)
    requires ReplayProgress(delta, ids, h, stored, {})
    ensures Replayed(delta, h, stored)
  {
    forall id | id in stored
      ensures exists i | 0 <= i < |delta| :: delta[i].event == NodeAdd(stored[id])
    {
      var i :| 0 <= i < |ids| && ids[i] == id;
      assert delta[i].event == NodeAdd(stored[id]);
    }
    forall i, j | 0 <= i < j < |delta|
      ensures delta[i] != delta[j]
    {
      assert stored[ids[i]].Identity() != stored[ids[j]].Identity();
    }
  }

  /** How each address-loop summary grows by one address. */
  lemma AddressStep(conf: Config, n: Node, addrs: seq<Address>, a: Address, r: ResourceID, existing: PrefixCluster -> Source)
    ensures AddressFacts(conf, n, addrs + [a], r)
         == AddressFacts(conf, n, addrs, r) + {Fact(AddressPrefixCluster(conf, n, a), r, NodeLabels)}
            + (if HasIdentityOverride(conf, n) then {Fact(AddressPrefixCluster(conf, n, a), r, IdentityOverride)} else {})
    ensures IPSetEntries(conf, n, addrs + [a])
         == IPSetEntries(conf, n, addrs) + (if a.kind == NodeInternalIP && !conf.ipsetFilter(n) then {HostPrefix(a.ip)} else {})
    ensures AddressPrefixes(addrs + [a]) == AddressPrefixes(addrs) + {HostPrefix(a.ip)}
    ensures AddressesAllowDatapath(conf, n, existing, addrs + [a])
        == (AddressesAllowDatapath(conf, n, existing, addrs) && AddressAllowsDatapath(conf, n, existing, a))
  {
    assert forall b :: b in addrs + [a] <==> b in addrs || b == a;
  }

  lemma PodCIDRStep(conf: Config, n: Node, cidrs: seq<Prefix>, p: Prefix, r: ResourceID)
    requires !IsLocal(conf, n)
    ensures PodCIDRFacts(conf, n, cidrs + [p], r)
         == PodCIDRFacts(conf, n, cidrs, r) + (if ValidPrefix(p) then {Fact(ScopedPrefixCluster(conf, n, p), r, PodCIDRFallback)} else {})
    ensures PodCIDRsAdded(conf, n, cidrs + [p]) == PodCIDRsAdded(conf, n, cidrs) + (if ValidPrefix(p) then {p} else {})
  {
    assert forall q :: q in cidrs + [p] <==> q in cidrs || q == p;
  }

  lemma EndpointStep(conf: Config, n: Node, ips: seq<Option<Ip>>, o: Option<Ip>, r: ResourceID, kind: FactKind, existing: PrefixCluster -> Source)
    ensures EndpointFacts(conf, n, ips + [o], r, kind)
         == EndpointFacts(conf, n, ips, r, kind) + (if o.Some? then {Fact(ScopedPrefixCluster(conf, n, HostPrefix(o.value)), r, kind)} else {})
    ensures EndpointPrefixes(ips + [o]) == EndpointPrefixes(ips) + (if o.Some? then {HostPrefix(o.value)} else {})
    ensures EndpointsAllowDatapath(conf, n, existing, ips + [o])
        == (EndpointsAllowDatapath(conf, n, existing, ips)
            && (o.Some? ==> AllowOverwrite(existing(ScopedPrefixCluster(conf, n, HostPrefix(o.value))), n.source)))
  {
    assert forall x :: x in ips + [o] <==> x in ips || x == o;
  }

  lemma RetractAddressStep(conf: Config, o: Node, addrs: seq<Address>, a: Address, r: ResourceID, nodeIPs: set<Prefix>, ipsetEntries: set<Prefix>)
    ensures RetractedAddressFacts(conf, o, addrs + [a], r, nodeIPs)
         == RetractedAddressFacts(conf, o, addrs, r, nodeIPs)
            + (if HostPrefix(a.ip) in nodeIPs then {}
               else {Fact(AddressPrefixCluster(conf, o, a), r, NodeLabels)}
                    + (if HasIdentityOverride(conf, o) then {Fact(AddressPrefixCluster(conf, o, a), r, IdentityOverride)} else {}))
    ensures IPSetRetractedFrom(addrs + [a], nodeIPs, ipsetEntries)
         == IPSetRetractedFrom(addrs, nodeIPs, ipsetEntries)
            + (if HostPrefix(a.ip) !in nodeIPs && a.kind == NodeInternalIP && HostPrefix(a.ip) !in ipsetEntries then {a.ip} else {})
  {
    assert forall b :: b in addrs + [a] <==> b in addrs || b == a;
  }

  lemma RetractPodCIDRStep(conf: Config, o: Node, cidrs: seq<Prefix>, p: Prefix, r: ResourceID, added: set<Prefix>)
    requires !IsLocal(conf, o)
    ensures RetractedPodCIDRFacts(conf, o, cidrs + [p], r, added)
         == RetractedPodCIDRFacts(conf, o, cidrs, r, added)
            + (if ValidPrefix(p) && p !in added then {Fact(ScopedPrefixCluster(conf, o, p), r, PodCIDRFallback)} else {})
  {
    assert forall q :: q in cidrs + [p] <==> q in cidrs || q == p;
  }

  lemma RetractEndpointStep(conf: Config, o: Node, ips: seq<Option<Ip>>, x: Option<Ip>, r: ResourceID, kind: FactKind, added: set<Prefix>)
    ensures RetractedEndpointFacts(conf, o, ips + [x], r, kind, added)
         == RetractedEndpointFacts(conf, o, ips, r, kind, added)
            + (if x.Some? && HostPrefix(x.value) !in added
               then {Fact(ScopedPrefixCluster(conf, o, HostPrefix(x.value)), r, kind)} else {})
  {
    assert forall y :: y in ips + [x] <==> y in ips || y == x;
  }

  lemma AddedRetraction(conf: Config, o: Node, n: Node, added: Added)
    requires AddedFor(conf, n, added)
    ensures RetractedFacts(conf, o, NodeResource(n.name), Elems(added.nodeIPs), Elems(added.healthIPs),
                           Elems(added.ingressIPs), Elems(added.podCIDRs)) == UpdateRetraction(conf, o, n)
    ensures IPSetRetractedFrom(o.addresses, Elems(added.nodeIPs), Elems(added.ipsetEntries)) == UpdateIPSetRetraction(conf, o, n)
  {
  }

  lemma StaleSelectedStep(conf: Config, restored: map<NodeIdentity, Node>, includeMeshed: bool, done: set<NodeIdentity>, id: NodeIdentity)
    requires id in restored && id !in done
    ensures StaleSelected(conf, restored, includeMeshed, done + {id})
         == if PruneSelects(conf, restored[id], includeMeshed)
            then StaleSelected(conf, restored, includeMeshed, done)[id := restored[id]]
            else StaleSelected(conf, restored, includeMeshed, done)
    ensures id !in StaleSelected(conf, restored, includeMeshed, done)
  {
  }

  /** pruneNodes' two loops compute PrunedNodes and PruneSurvivors. */
  lemma PruneSplit(conf: Config, restored: map<NodeIdentity, Node>, live: set<NodeIdentity>, includeMeshed: bool)
    ensures var stale := restored - live;
            StaleSelected(conf, stale, includeMeshed, stale.Keys) == PrunedNodes(conf, restored, live, includeMeshed)
            && stale - StaleSelected(conf, stale, includeMeshed, stale.Keys).Keys == PruneSurvivors(conf, restored, live, includeMeshed)
  {
  }

  /** A log that grew twice: its suffix past `h0` is the first growth followed by the second. */
  lemma LogExtend<T>(h0: seq<T>, before: seq<T>, after: seq<T>)
    requires |h0| <= |before| <= |after|
    requires before[..|h0|] == h0 && after[..|before|] == before
    ensures after[..|h0|] == h0
    ensures after[|h0|..] == before[|h0|..] + after[|before|..]
  {
    assert after[..|h0|] == after[..|before|][..|h0|];
  }

  /**
   * DeleteStale's loop invariant over the restored table it walks: the
   * selected nodes already walked are deleted, delivered and triggered.
   */
  ghost predicate PruneProgress(conf: Config, restored: map<NodeIdentity, Node>, includeMeshed: bool,
                                pending: set<NodeIdentity>, remaining: map<NodeIdentity, Node>,
                                delivered: seq<HandlerCall>, hs: set<HandlerID>, active: bool,
                                triggers: seq<CheckpointEvent>)
  {
    var deleted := StaleSelected(conf, restored, includeMeshed, restored.Keys - pending);
    pending <= restored.Keys
    && remaining == restored - deleted.Keys
    && DeletesDelivered(delivered, hs, deleted)
    && triggers == (if active then Triggers("NodeDeleted", |deleted|) else [])
  }

  lemma PruneProgressInit(conf: Config, restored: map<NodeIdentity, Node>, includeMeshed: bool, hs: set<HandlerID>, active: bool)
    ensures PruneProgress(conf, restored, includeMeshed, restored.Keys, restored, [], hs, active, [])
  {
    assert restored.Keys - restored.Keys == {};
    assert StaleSelected(conf, restored, includeMeshed, {}) == map[];
  }

  lemma PruneProgressDone(conf: Config, restored: map<NodeIdentity, Node>, includeMeshed: bool,
                          remaining: map<NodeIdentity, Node>, delivered: seq<HandlerCall>,
                          hs: set<HandlerID>, active: bool, triggers: seq<CheckpointEvent>)
    requires PruneProgress(conf, restored, includeMeshed, {}, remaining, delivered, hs, active, triggers)
    ensures var deleted := StaleSelected(conf, restored, includeMeshed, restored.Keys);
            remaining == restored - deleted.Keys
            && DeletesDelivered(delivered, hs, deleted)
            && triggers == if active then Triggers("NodeDeleted", |deleted|) else []
  {
    assert restored.Keys - {} == restored.Keys;
  }

  lemma PruneProgressStep(conf: Config, restored: map<NodeIdentity, Node>, includeMeshed: bool,
                          pending: set<NodeIdentity>, remaining: map<NodeIdentity, Node>,
                          delivered: seq<HandlerCall>, hs: set<HandlerID>, active: bool,
                          triggers: seq<CheckpointEvent>, id: NodeIdentity, e: seq<HandlerCall>)
    requires PruneProgress(conf, restored, includeMeshed, pending, remaining, delivered, hs, active, triggers)
    requires id in pending
    requires PruneSelects(conf, restored[id], includeMeshed) ==> FannedOut(e, hs, NodeDelete(restored[id]))
    requires forall k | k in restored :: restored[k].Identity() == k
    ensures var sel := PruneSelects(conf, restored[id], includeMeshed);
            PruneProgress(conf, restored, includeMeshed, pending - {id},
                          if sel then remaining - {id} else remaining,
                          if sel then delivered + e else delivered, hs, active,
                          if sel && active then triggers + [Triggered("NodeDeleted")] else triggers)
  {
    var deleted := StaleSelected(conf, restored, includeMeshed, restored.Keys - pending);
    StaleSelectedStep(conf, restored, includeMeshed, restored.Keys - pending, id);
    assert restored.Keys - (pending - {id}) == (restored.Keys - pending) + {id};
    if PruneSelects(conf, restored[id], includeMeshed) {
      var n := restored[id];
      DeliveredStep(delivered, e, hs, deleted, n);
      assert |deleted[id := n]| == |deleted| + 1;
      MapRemoveStep(restored, deleted, id, n);
    }
  }

  lemma Assoc<T>(a: seq<T>, b: seq<T>, c: seq<T>)
    ensures (a + b) + c == a + (b + c)
  {
  }

  lemma Suffix<T>(a: seq<T>, b: seq<T>)
    ensures (a + b)[..|a|] == a && (a + b)[|a|..] == b
  {
  }

  lemma SplitAt<T>(s: seq<T>, k: nat)
    requires k <= |s|
    ensures s == s[..k] + s[k..]
  {
  }

  lemma TriggersExtend(l0: seq<CheckpointEvent>, reason: string, k: nat)
    ensures (l0 + Triggers(reason, k)) + [Triggered(reason)] == l0 + Triggers(reason, k + 1)
  {
  }

  lemma MapRemoveStep(restored: map<NodeIdentity, Node>, deleted: map<NodeIdentity, Node>, id: NodeIdentity, n: Node)
    ensures (restored - deleted.Keys) - {id} == restored - deleted[id := n].Keys
  {
    assert deleted[id := n].Keys == deleted.Keys + {id};
  }

  /** One more pruned node, delivered to every handler, extends DeletesDelivered. */
  lemma DeliveredStep(d: seq<HandlerCall>, e: seq<HandlerCall>, hs: set<HandlerID>, deleted: map<NodeIdentity, Node>, n: Node)
    requires DeletesDelivered(d, hs, deleted)
    requires FannedOut(e, hs, NodeDelete(n))
    requires n.Identity() !in deleted
    ensures DeletesDelivered(d + e, hs, deleted[n.Identity() := n])
  {
    DeliveredStepCalls(d, e, hs, deleted, n);
    DeliveredStepCovers(d, e, hs, deleted, n);
    DeliveredStepDistinct(d, e, hs, deleted, n);
  }

  lemma DeliveredStepCalls(d: seq<HandlerCall>, e: seq<HandlerCall>, hs: set<HandlerID>, deleted: map<NodeIdentity, Node>, n: Node)
    requires DeletesDelivered(d, hs, deleted)
    requires FannedOut(e, hs, NodeDelete(n))
    requires n.Identity() !in deleted
    ensures var m := deleted[n.Identity() := n];
            forall i | 0 <= i < |d + e| ::
              (d + e)[i].handler in hs && (d + e)[i].event.NodeDelete?
              && (d + e)[i].event.node.Identity() in m && m[(d + e)[i].event.node.Identity()] == (d + e)[i].event.node
  {
    var m := deleted[n.Identity() := n];
    var de := d + e;
    forall i | 0 <= i < |de|
      ensures de[i].handler in hs && de[i].event.NodeDelete?
              && de[i].event.node.Identity() in m && m[de[i].event.node.Identity()] == de[i].event.node
    {
      if i < |d| {
        var c := d[i];
        assert de[i] == c;
        var id := c.event.node.Identity();
        assert id in deleted && deleted[id] == c.event.node;
        assert id != n.Identity();
      } else {
        var c := e[i - |d|];
        assert de[i] == c;
        assert c.event == NodeDelete(n);
      }
    }
  }

  lemma DeliveredStepCovers(d: seq<HandlerCall>, e: seq<HandlerCall>, hs: set<HandlerID>, deleted: map<NodeIdentity, Node>, n: Node)
    requires DeletesDelivered(d, hs, deleted)
    requires FannedOut(e, hs, NodeDelete(n))
    ensures var m := deleted[n.Identity() := n];
            forall id, h | id in m && h in hs :: exists i | 0 <= i < |d + e| :: (d + e)[i] == HandlerCall(h, NodeDelete(m[id]))
  {
    var m := deleted[n.Identity() := n];
    var de := d + e;
    forall id, h | id in m && h in hs
      ensures exists i | 0 <= i < |de| :: de[i] == HandlerCall(h, NodeDelete(m[id]))
    {
      if id == n.Identity() {
        var k :| 0 <= k < |e| && e[k].handler == h;
        assert de[|d| + k] == HandlerCall(h, NodeDelete(m[id]));
      } else {
        var k :| 0 <= k < |d| && d[k] == HandlerCall(h, NodeDelete(deleted[id]));
        assert de[k] == HandlerCall(h, NodeDelete(m[id]));
      }
    }
  }

  lemma DeliveredStepDistinct(d: seq<HandlerCall>, e: seq<HandlerCall>, hs: set<HandlerID>, deleted: map<NodeIdentity, Node>, n: Node)
    requires DeletesDelivered(d, hs, deleted)
    requires FannedOut(e, hs, NodeDelete(n))
    requires n.Identity() !in deleted
    ensures forall i, j | 0 <= i < j < |d + e| :: (d + e)[i] != (d + e)[j]
  {
    var de := d + e;
    forall i, j | 0 <= i < j < |de|
      ensures de[i] != de[j]
    {
      if j >= |d| && i < |d| {
        assert de[i].event.node.Identity() in deleted;
      }
    }
  }

  lemma {:induction false} DistinctCard<T>(s: seq<T>)
    requires Distinct(s)
    ensures |Elems(s)| == |s|
  {
    if s != [] {
      var t := s[..|s| - 1];
      DistinctCard(t);
      assert s == t + [s[|s| - 1]];
      ElemsAppend(t, s[|s| - 1]);
    }
  }

  /** RestoreAll keeps the restored table identity-keyed and all of it tagged Restored. */
  lemma {:induction false} RestoreAllValid(m: map<NodeIdentity, Node>, ns: seq<Node>)
    requires IdentityKeyed(m) && forall id | id in m :: m[id].source == Restored
    ensures IdentityKeyed(RestoreAll(m, ns))
    ensures forall id | id in RestoreAll(m, ns) :: RestoreAll(m, ns)[id].source == Restored
    decreases |ns|
  {
    if ns != [] {
      RestoreAllValid(m, ns[..|ns| - 1]);
    }
  }

  /** restoreNodeCheckpoint adds exactly the identities of the decoded nodes. */
  lemma {:induction false} RestoreAllKeys(m: map<NodeIdentity, Node>, ns: seq<Node>)
    ensures RestoreAll(m, ns).Keys == m.Keys + set n | n in ns :: n.Identity()
    decreases |ns|
  {
    if ns != [] {
      var t := ns[..|ns| - 1];
      var x := ns[|ns| - 1];
      RestoreAllKeys(m, t);
      assert ns == t + [x];
      assert forall y :: y in ns <==> y in t || y == x;
      assert x.(source := Restored).Identity() == x.Identity();
      assert (set n | n in ns :: n.Identity()) == (set n | n in t :: n.Identity()) + {x.Identity()};
    }
  }

  /** Of several checkpointed records with one identity, the last one is kept. */
  lemma {:induction false} RestoreAllLastWins(m: map<NodeIdentity, Node>, ns: seq<Node>, i: nat)
    requires i < |ns|
    requires forall j | i < j < |ns| :: ns[j].Identity() != ns[i].Identity()
    ensures ns[i].Identity() in RestoreAll(m, ns)
    ensures RestoreAll(m, ns)[ns[i].Identity()] == ns[i].(source := Restored)
    decreases |ns|
  {
    if i < |ns| - 1 {
      var t := ns[..|ns| - 1];
      RestoreAllLastWins(m, t, i);
    }
  }

  lemma UpsertBoth(c: IPCache, a: set<Fact>, b: set<Fact>, src: Source)
    ensures Upsert(Upsert(c, a, src), b, src) == Upsert(c, a + b, src)
  {
  }

  lemma RemoveBoth(c: IPCache, a: set<Fact>, b: set<Fact>)
    ensures (c - a) - b == c - (a + b)
  {
  }

  lemma RemoveStep(c: IPCache, facts: set<Fact>, f: Fact)
    ensures (c - facts) - {f} == c - (facts + {f})
  {
  }

  lemma UpsertStep(c: IPCache, facts: set<Fact>, f: Fact, src: Source)
    ensures Upsert(c, facts, src)[f := src] == Upsert(c, facts + {f}, src)
  {
  }
}
