/**
 * Properties of what the node manager writes into the ipcache and the node
 * ipset for a node, and of what removeNodeFromIPCache takes back out: an
 * update never retracts what it has just written, it touches no other
 * resource's metadata, it drops what the new record no longer announces, and
 * a deletion takes back exactly what an insertion wrote.
 */
module NodeProjection {
  import opened Wrappers
  import opened Sources
  import opened NodeTypes
  import opened NodeManager

  /** Every projected fact belongs to n's resource, under a prefix of the matching "added" list. */
  lemma ProjectedPrefixes(conf: Config, n: Node, f: Fact)
    requires f in ProjectedFacts(conf, n)
    ensures f.resource == NodeResource(n.name)
    ensures (f.kind == NodeLabels || f.kind == IdentityOverride) ==> f.prefix.prefix in AddressPrefixes(n.addresses)
    ensures f.kind == PodCIDRFallback ==> f.prefix.prefix in PodCIDRsAdded(conf, n, n.podCIDRs)
    ensures f.kind == HealthEndpoint ==> f.prefix.prefix in EndpointPrefixes(HealthIPs(n))
    ensures f.kind == IngressEndpoint ==> f.prefix.prefix in EndpointPrefixes(IngressIPs(n))
  {
    var r := NodeResource(n.name);
    if f in AddressFacts(conf, n, n.addresses, r) {
      var a :| a in n.addresses && f.prefix == AddressPrefixCluster(conf, n, a);
      assert f.prefix.prefix == HostPrefix(a.ip);
    } else if f in PodCIDRFacts(conf, n, n.podCIDRs, r) {
    } else if f in EndpointFacts(conf, n, HealthIPs(n), r, HealthEndpoint) {
      var o :| o in HealthIPs(n) && o.Some? && f.prefix.prefix == HostPrefix(o.value);
    } else {
      var o :| o in IngressIPs(n) && o.Some? && f.prefix.prefix == HostPrefix(o.value);
    }
  }

  /** Every retracted fact belongs to `r`, under a prefix missing from the matching "added" list. */
  lemma RetractedPrefixes(conf: Config, o: Node, r: ResourceID, nodeIPs: set<Prefix>, healthIPs: set<Prefix>,
                          ingressIPs: set<Prefix>, podCIDRs: set<Prefix>, f: Fact)
    requires f in RetractedFacts(conf, o, r, nodeIPs, healthIPs, ingressIPs, podCIDRs)
    ensures f.resource == r
    ensures (f.kind == NodeLabels || f.kind == IdentityOverride) ==> f.prefix.prefix !in nodeIPs
    ensures f.kind == PodCIDRFallback ==> f.prefix.prefix !in podCIDRs
    ensures f.kind == HealthEndpoint ==> f.prefix.prefix !in healthIPs
    ensures f.kind == IngressEndpoint ==> f.prefix.prefix !in ingressIPs
  {
    if f in RetractedAddressFacts(conf, o, o.addresses, r, nodeIPs) {
      var a :| a in o.addresses && HostPrefix(a.ip) !in nodeIPs && f.prefix == AddressPrefixCluster(conf, o, a);
      assert f.prefix.prefix == HostPrefix(a.ip);
    } else if f in RetractedPodCIDRFacts(conf, o, o.podCIDRs, r, podCIDRs) {
    } else if f in RetractedEndpointFacts(conf, o, HealthIPs(o), r, HealthEndpoint, healthIPs) {
      var x :| x in HealthIPs(o) && x.Some? && HostPrefix(x.value) !in healthIPs
               && f.prefix.prefix == HostPrefix(x.value);
    } else {
      var x :| x in IngressIPs(o) && x.Some? && HostPrefix(x.value) !in ingressIPs
               && f.prefix.prefix == HostPrefix(x.value);
    }
  }

  /** removeNodeFromIPCache mirrors NodeUpdated: an update retracts nothing it has just written. */
  lemma UpdateRetractionDisjoint(conf: Config, o: Node, n: Node)
    ensures ProjectedFacts(conf, n) !! UpdateRetraction(conf, o, n)
  {
    forall f | f in ProjectedFacts(conf, n) && f in UpdateRetraction(conf, o, n)
      ensures false
    {
      ProjectedPrefixes(conf, n, f);
      RetractedPrefixes(conf, o, NodeResource(n.name), AddressPrefixes(n.addresses), EndpointPrefixes(HealthIPs(n)),
                        EndpointPrefixes(IngressIPs(n)), PodCIDRsAdded(conf, n, n.podCIDRs), f);
    }
  }

  /** After an accepted update of `o` to `n`, all of n's facts are present and owned by n's source. */
  lemma ReplacementWritesNewFacts(conf: Config, c: IPCache, o: Node, n: Node)
    ensures forall f | f in ProjectedFacts(conf, n) ::
              f in ReplacedIPCache(conf, c, o, n) && ReplacedIPCache(conf, c, o, n)[f] == n.source
  {
    UpdateRetractionDisjoint(conf, o, n);
    UpsertContents(c, ProjectedFacts(conf, n), n.source);
  }

  /** An update leaves the metadata of every other resource as it was. */
  lemma ReplacementLeavesOtherResources(conf: Config, c: IPCache, o: Node, n: Node, f: Fact)
    requires f.resource != NodeResource(n.name)
    ensures f in ReplacedIPCache(conf, c, o, n) <==> f in c
    ensures f in c ==> ReplacedIPCache(conf, c, o, n)[f] == c[f]
  {
    if f in ProjectedFacts(conf, n) {
      ProjectedPrefixes(conf, n, f);
    }
    if f in UpdateRetraction(conf, o, n) {
      RetractedPrefixes(conf, o, NodeResource(n.name), AddressPrefixes(n.addresses), EndpointPrefixes(HealthIPs(n)),
                        EndpointPrefixes(IngressIPs(n)), PodCIDRsAdded(conf, n, n.podCIDRs), f);
    }
    UpsertContents(c, ProjectedFacts(conf, n), n.source);
  }

  /** An address of `o` whose prefix `n` no longer announces loses the labels o's record gave it. */
  lemma ReplacementRetractsStaleAddress(conf: Config, c: IPCache, o: Node, n: Node, a: Address)
    requires a in o.addresses && HostPrefix(a.ip) !in AddressPrefixes(n.addresses)
    ensures Fact(AddressPrefixCluster(conf, o, a), NodeResource(n.name), NodeLabels) !in ReplacedIPCache(conf, c, o, n)
    ensures HasIdentityOverride(conf, o) ==>
              Fact(AddressPrefixCluster(conf, o, a), NodeResource(n.name), IdentityOverride) !in ReplacedIPCache(conf, c, o, n)
  {
    var r := NodeResource(n.name);
    assert Fact(AddressPrefixCluster(conf, o, a), r, NodeLabels)
      in RetractedAddressFacts(conf, o, o.addresses, r, AddressPrefixes(n.addresses));
    if HasIdentityOverride(conf, o) {
      assert Fact(AddressPrefixCluster(conf, o, a), r, IdentityOverride)
        in RetractedAddressFacts(conf, o, o.addresses, r, AddressPrefixes(n.addresses));
    }
  }

  /**
   * The prefix-cluster mutator is consulted with the old record for the
   * retraction and with the new record for the upsert: if the cluster ID it
   * yields changed, the old scoped entry of a kept CiliumInternalIP stays.
   */
  lemma RescopedInternalIPKeepsOldFact(conf: Config, c: IPCache, o: Node, n: Node, a: Address)
    requires a in o.addresses && a in n.addresses && a.kind == NodeCiliumInternalIP
    requires conf.clusterScope(o) != conf.clusterScope(n)
    requires Fact(AddressPrefixCluster(conf, o, a), NodeResource(n.name), NodeLabels) in c
    ensures Fact(AddressPrefixCluster(conf, o, a), NodeResource(n.name), NodeLabels) in ReplacedIPCache(conf, c, o, n)
  {
    var f := Fact(AddressPrefixCluster(conf, o, a), NodeResource(n.name), NodeLabels);
    if f in UpdateRetraction(conf, o, n) {
      RetractedPrefixes(conf, o, NodeResource(n.name), AddressPrefixes(n.addresses), EndpointPrefixes(HealthIPs(n)),
                        EndpointPrefixes(IngressIPs(n)), PodCIDRsAdded(conf, n, n.podCIDRs), f);
    }
  }

  /** A deletion retracts exactly the facts NodeUpdated wrote for the stored record. */
  lemma DeleteRetractsProjection(conf: Config, o: Node)
    ensures DeleteRetraction(conf, o) == ProjectedFacts(conf, o)
  {
    var r := NodeResource(o.name);
    assert RetractedAddressFacts(conf, o, o.addresses, r, {}) == AddressFacts(conf, o, o.addresses, r);
    assert RetractedPodCIDRFacts(conf, o, o.podCIDRs, r, {}) == PodCIDRFacts(conf, o, o.podCIDRs, r);
    assert RetractedEndpointFacts(conf, o, HealthIPs(o), r, HealthEndpoint, {})
      == EndpointFacts(conf, o, HealthIPs(o), r, HealthEndpoint);
    assert RetractedEndpointFacts(conf, o, IngressIPs(o), r, IngressEndpoint, {})
      == EndpointFacts(conf, o, IngressIPs(o), r, IngressEndpoint);
  }

  /** Deleting a node that was inserted over an ipcache holding none of its facts restores that ipcache. */
  lemma DeleteUndoesInsert(conf: Config, c: IPCache, n: Node, src: Source)
    requires c.Keys !! ProjectedFacts(conf, n)
    ensures Upsert(c, ProjectedFacts(conf, n), src) - DeleteRetraction(conf, n) == c
  {
    DeleteRetractsProjection(conf, n);
    UpsertContents(c, ProjectedFacts(conf, n), src);
  }

  /** A deletion removes from the ipset every address an insertion put there. */
  lemma DeleteCoversIPSet(conf: Config, o: Node)
    ensures IPSetProjected(conf, o) <= IPSetRetractedFrom(o.addresses, {}, {})
    ensures !conf.ipsetFilter(o) ==> IPSetProjected(conf, o) == IPSetRetractedFrom(o.addresses, {}, {})
  {
    forall ip | ip in IPSetProjected(conf, o)
      ensures ip in IPSetRetractedFrom(o.addresses, {}, {})
    {
      var p :| p in IPSetEntries(conf, o, o.addresses) && ip == p.addr;
      var a :| a in o.addresses && a.kind == NodeInternalIP && p == HostPrefix(a.ip);
    }
    if !conf.ipsetFilter(o) {
      forall ip | ip in IPSetRetractedFrom(o.addresses, {}, {})
        ensures ip in IPSetProjected(conf, o)
      {
        var a :| a in o.addresses && a.kind == NodeInternalIP && ip == a.ip;
        assert HostPrefix(a.ip) in IPSetEntries(conf, o, o.addresses);
      }
    }
  }

  /**
   * The ipsetEntries guard in removeNodeFromIPCache never decides anything:
   * every prefix NodeUpdated put in ipsetEntries is also in nodeIPsAdded,
   * whose check comes first.
   */
  lemma IPSetEntriesCheckSubsumed(conf: Config, o: Node, n: Node)
    ensures UpdateIPSetRetraction(conf, o, n) == IPSetRetractedFrom(o.addresses, AddressPrefixes(n.addresses), {})
  {
    assert IPSetEntries(conf, n, n.addresses) <= AddressPrefixes(n.addresses);
  }

  /** An update keeps every address it has just added to the ipset. */
  lemma ReplacementKeepsIPSetEntries(conf: Config, s: set<Ip>, o: Node, n: Node)
    ensures IPSetProjected(conf, n) <= ReplacedIPSet(conf, s, o, n)
  {
    forall ip | ip in IPSetProjected(conf, n)
      ensures ip !in UpdateIPSetRetraction(conf, o, n)
    {
      var p :| p in IPSetEntries(conf, n, n.addresses) && ip == p.addr;
      var b :| b in n.addresses && b.kind == NodeInternalIP && p == HostPrefix(b.ip);
      assert HostPrefix(ip) in AddressPrefixes(n.addresses);
    }
  }

  /**
   * An internal IP of `o` that `n` still lists, under any address type,
   * stays in the ipset (even when `n` would not have added it).
   */
  lemma RetypedInternalIPStays(conf: Config, s: set<Ip>, o: Node, n: Node, a: Address)
    requires a in o.addresses && a.kind == NodeInternalIP && a.ip in s
    requires HostPrefix(a.ip) in AddressPrefixes(n.addresses)
    ensures a.ip in ReplacedIPSet(conf, s, o, n)
  {
  }

  /** An internal IP of `o` that `n` does not list any more leaves the ipset. */
  lemma DroppedInternalIPLeaves(conf: Config, s: set<Ip>, o: Node, n: Node, a: Address)
    requires a in o.addresses && a.kind == NodeInternalIP
    requires HostPrefix(a.ip) !in AddressPrefixes(n.addresses)
    ensures a.ip !in ReplacedIPSet(conf, s, o, n)
  {
    assert IPSetEntries(conf, n, n.addresses) <= AddressPrefixes(n.addresses);
    assert a.ip in UpdateIPSetRetraction(conf, o, n);
  }

  /** Addresses {A, B} replaced by {B, C}: only A's labels and ipset entry are retracted. */
  lemma ReplaceAddressesExample(conf: Config, o: Node, n: Node, a: Ip, b: Ip, c: Ip)
    requires a != b && a != c
    requires o.addresses == [Address(NodeInternalIP, a), Address(NodeInternalIP, b)]
    requires n.addresses == [Address(NodeInternalIP, b), Address(NodeInternalIP, c)]
    ensures UpdateIPSetRetraction(conf, o, n) == {a}
    ensures RetractedAddressFacts(conf, o, o.addresses, NodeResource(n.name), AddressPrefixes(n.addresses))
            == {Fact(PrefixCluster(HostPrefix(a), 0), NodeResource(n.name), NodeLabels)}
               + (if HasIdentityOverride(conf, o)
                  then {Fact(PrefixCluster(HostPrefix(a), 0), NodeResource(n.name), IdentityOverride)} else {})
  {
    var added := AddressPrefixes(n.addresses);
    assert added == {HostPrefix(b), HostPrefix(c)} by {
      assert n.addresses[0] in n.addresses && n.addresses[1] in n.addresses;
    }
    assert o.addresses[0] in o.addresses;
    assert HostPrefix(a) !in added;
    assert HostPrefix(b) in added;
  }
}
