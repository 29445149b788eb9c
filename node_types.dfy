/**
 * The node record and the address types it carries, as far as the node
 * manager, the cluster-nodes REST handler and the ipcache projection read them.
 */
module NodeTypes {
  import opened Wrappers
  import opened Sources

  /** An IP address: its family and its numeric value. */
  datatype Ip = Ip(v6: bool, value: nat)

  /** An IP prefix (address and mask length). */
  datatype Prefix = Prefix(addr: Ip, len: nat)

  function AddressBits(ip: Ip): nat
  {
    if ip.v6 then 128 else 32
  }

  /** ip.IPToNetPrefix: the single-address prefix of an IP (/32 or /128). */
  function HostPrefix(ip: Ip): (p: Prefix)
    ensures p.addr == ip && p.len == AddressBits(ip)
  {
    Prefix(ip, AddressBits(ip))
  }

  /** netip.Prefix.IsValid: the mask length fits the address family. */
  predicate ValidPrefix(p: Prefix)
  {
    p.len <= AddressBits(p.addr)
  }

  /** addressing.AddressType. */
  datatype AddressType =
    | NodeHostName
    | NodeExternalIP
    | NodeInternalIP
    | NodeExternalDNS
    | NodeInternalDNS
    | NodeCiliumInternalIP

  datatype Address = Address(kind: AddressType, ip: Ip)

  /** nodeTypes.Identity: cluster name and node name. */
  datatype NodeIdentity = NodeIdentity(cluster: string, name: string)

  /**
   * nodeTypes.Node. The IPv4 and IPv6 allocation CIDRs are kept in one list,
   * IPv4 entries first; missing health and ingress IPs are `None`.
   */
  datatype Node = Node(
    name: string,
    cluster: string,
    source: Source,
    addresses: seq<Address>,
    ipv4HealthIP: Option<Ip>,
    ipv6HealthIP: Option<Ip>,
    ipv4IngressIP: Option<Ip>,
    ipv6IngressIP: Option<Ip>,
    podCIDRs: seq<Prefix>,
    encryptionKey: nat,
    nodeIdentity: nat,
    clusterID: nat)
  {
    function Identity(): (id: NodeIdentity)
      ensures id.cluster == cluster && id.name == name
    {
      NodeIdentity(cluster, name)
    }
  }

  /** Changing only the source of a node keeps its identity. */
  lemma RetaggedKeepsIdentity(n: Node, s: Source)
    ensures n.(source := s).Identity() == n.Identity()
  {
  }

  /** The cluster name that Node.Fullname leaves implicit. */
  const DefaultClusterName: string := "default"

  /** Node.Fullname: `cluster/name`, or just `name` in the default cluster. */
  function Fullname(n: Node): string
  {
    if n.cluster != DefaultClusterName then n.cluster + "/" + n.name else n.name
  }

  /** models.NodeElement, the REST view of a node (Node.GetModel). */
  datatype NodeElement = NodeElement(name: string, addresses: seq<Address>)

  function GetModel(n: Node): (e: NodeElement)
    ensures e.name == Fullname(n)
  {
    NodeElement(Fullname(n), n.addresses)
  }
}
