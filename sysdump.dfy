/**
 * The list and string helpers of the sysdump collector (cilium-cli/sysdump):
 * choosing the nodes and agent pods to collect from, filtering pod lists with
 * an optional limit, gathering the not-ready agents without repeating a pod,
 * skipping slow tasks in quick mode, and picking apart paths and command
 * output.
 */
module Sysdump {
  import opened Wrappers
  import opened GoStrings

  type int32 = x: int | -0x8000_0000 <= x < 0x8000_0000

  // ---------------------------------------------------------------------------
  // The Kubernetes objects the helpers look at
  // ---------------------------------------------------------------------------

  datatype PodPhase = Pending | Running | Succeeded | Failed | Unknown

  datatype ContainerPort = ContainerPort(name: string, containerPort: int32)

  datatype Container = Container(name: string, ports: seq<ContainerPort>)

  /** A container's status: the reason it is waiting, if it is, and its restart count. */
  datatype ContainerStatus = ContainerStatus(waitingReason: Option<string>, restartCount: int)

  /**
   * A pod: name, the node it is scheduled on, phase, containers and their
   * statuses. `ready` stands for podutils.IsPodReady, whose code is not part
   * of this model.
   */
  datatype Pod = Pod(
    name: string,
    nodeName: string,
    phase: PodPhase,
    containers: seq<Container>,
    initContainerStatuses: seq<ContainerStatus>,
    containerStatuses: seq<ContainerStatus>,
    ready: bool)

  /** A node: its name and the addresses in its status. */
  datatype Node = Node(name: string, addresses: seq<string>)

  /** A collection task: only whether it is part of a quick sysdump. */
  datatype Task = Task(quick: bool)

  // ---------------------------------------------------------------------------
  // Filtering with a limit
  // ---------------------------------------------------------------------------

  /** The elements that satisfy `keep`, in their order. */
  function Select<T(!new)>(s: seq<T>, keep: T -> bool): (r: seq<T>)
    ensures |r| <= |s|
  {
    if |s| == 0 then []
    else Select(s[..|s| - 1], keep) + (if keep(s[|s| - 1]) then [s[|s| - 1]] else [])
  }

  /** An element is selected exactly when it is in the list and satisfies `keep`. */
  lemma {:induction false} SelectMembers<T(!new)>(s: seq<T>, keep: T -> bool)
    ensures forall x :: x in Select(s, keep) <==> x in s && keep(x)
  {
    if |s| > 0 {
      SelectMembers(s[..|s| - 1], keep);
      assert s == s[..|s| - 1] + [s[|s| - 1]];
    }
  }

  lemma SelectAppend<T(!new)>(s: seq<T>, x: T, keep: T -> bool)
    ensures Select(s + [x], keep) == Select(s, keep) + (if keep(x) then [x] else [])
  {
    assert (s + [x])[..|s|] == s;
  }

  /** Filtering a concatenation filters each part. */
  lemma {:induction false} SelectConcat<T(!new)>(a: seq<T>, b: seq<T>, keep: T -> bool)
    ensures Select(a + b, keep) == Select(a, keep) + Select(b, keep)
    decreases |b|
  {
    if |b| > 0 {
      var init := b[..|b| - 1];
      var last := b[|b| - 1];
      assert a + b == (a + init) + [last];
      assert b == init + [last];
      SelectAppend(a + init, last, keep);
      SelectAppend(init, last, keep);
      SelectConcat(a, init, keep);
    } else {
      assert a + b == a;
    }
  }

  /** Keeping everything keeps the list as it is. */
  lemma {:induction false} SelectAll<T(!new)>(s: seq<T>, keep: T -> bool)
    requires forall x :: keep(x)
    ensures Select(s, keep) == s
  {
    if |s| > 0 {
      SelectAll(s[..|s| - 1], keep);
      assert s == s[..|s| - 1] + [s[|s| - 1]];
    }
  }

  /** The first `limit` elements when `limit` is positive; all of them otherwise. */
  function Take<T>(s: seq<T>, limit: int): (r: seq<T>)
    ensures limit > 0 ==> |r| <= limit
    ensures limit > 0 && |s| > limit ==> |r| == limit
    ensures r <= s
    ensures limit <= 0 || |s| <= limit ==> r == s
  {
    if limit > 0 && |s| > limit then s[..limit] else s
  }

  /**
   * filterPods: the pods that satisfy the filter, in list order, cut off once
   * `limit` of them are found when `limit` is positive.
   */
  method FilterPodsBy(pods: seq<Pod>, filter: Pod -> bool, limit: int) returns (r: seq<Pod>)
    ensures r == Take(Select(pods, filter), limit)
  {
    r := [];
    var i := 0;
    while i < |pods|
      invariant 0 <= i <= |pods|
      invariant r == Select(pods[..i], filter)
      invariant limit > 0 ==> |r| < limit
    {
      var p := pods[i];
      assert pods[..i + 1] == pods[..i] + [p];
      SelectAppend(pods[..i], p, filter);
      if filter(p) {
        r := r + [p];
        if limit > 0 && |r| >= limit {
          LimitReached(pods, i + 1, filter, limit);
          return;
        }
      }
      i := i + 1;
    }
    assert pods[..i] == pods;
  }

  /** Once a prefix of the list holds `limit` selected pods, the rest of the list does not matter. */
  lemma LimitReached(pods: seq<Pod>, i: nat, filter: Pod -> bool, limit: int)
    requires i <= |pods| && limit > 0 && |Select(pods[..i], filter)| == limit
    ensures Take(Select(pods, filter), limit) == Select(pods[..i], filter)
  {
    assert pods == pods[..i] + pods[i..];
    SelectConcat(pods[..i], pods[i..], filter);
  }

  /** The pods of a listing selected by filterPods, as the properties the callers rely on. */
  lemma FilterPodsProperties(pods: seq<Pod>, filter: Pod -> bool, limit: int)
    ensures limit > 0 ==> |Take(Select(pods, filter), limit)| <= limit
    ensures forall p | p in Take(Select(pods, filter), limit) :: p in pods && filter(p)
    ensures limit <= 0 ==> forall p :: p in Take(Select(pods, filter), limit) <==> p in pods && filter(p)
  {
    var s := Select(pods, filter);
    SelectMembers(pods, filter);
    assert forall p | p in Take(s, limit) :: p in s;
  }

  /** AllPods: every pod of the listing. */
  method AllPods(pods: seq<Pod>) returns (r: seq<Pod>)
    ensures r == pods
  {
    var all := (p: Pod) => true;
    r := FilterPodsBy(pods, all, 0);
    SelectAll(pods, all);
  }

  /** FilterPods: the pods scheduled on one of the given nodes, in list order. */
  method FilterPods(pods: seq<Pod>, nodeNames: seq<string>) returns (r: seq<Pod>)
    ensures r == Select(pods, (p: Pod) => p.nodeName in nodeNames)
    ensures forall p :: p in r <==> p in pods && p.nodeName in nodeNames
  {
    r := FilterPodsBy(pods, (p: Pod) => p.nodeName in nodeNames, 0);
    SelectMembers(pods, (p: Pod) => p.nodeName in nodeNames);
  }

  /** A container status waiting in CrashLoopBackOff. */
  predicate CrashLooping(cs: seq<ContainerStatus>)
  {
    exists k | 0 <= k < |cs| :: cs[k].waitingReason == Some("CrashLoopBackOff")
  }

  predicate Restarted(cs: seq<ContainerStatus>)
  {
    exists k | 0 <= k < |cs| :: cs[k].restartCount > 0
  }

  /** The filter of filterCrashedPods. */
  predicate IsCrashed(p: Pod)
  {
    CrashLooping(p.initContainerStatuses) || CrashLooping(p.containerStatuses)
  }

  /** The filter of filterRunningNotReadyPods. */
  predicate IsRunningNotReady(p: Pod)
  {
    p.phase == Running && !p.ready
  }

  /** The filter of filterRestartedContainersPods. */
  predicate HasRestarted(p: Pod)
  {
    Restarted(p.initContainerStatuses) || Restarted(p.containerStatuses)
  }

  /**
   * filterCrashedPods: the pods with an init or regular container waiting in
   * CrashLoopBackOff, the first `limit` of them when `limit` is positive.
   */
  method FilterCrashedPods(pods: seq<Pod>, limit: int) returns (r: seq<Pod>)
    ensures r == Take(Select(pods, IsCrashed), limit)
    ensures forall p | p in r :: p in pods && IsCrashed(p)
    ensures limit <= 0 ==> forall p :: p in r <==> p in pods && IsCrashed(p)
  {
    r := FilterPodsBy(pods, IsCrashed, limit);
    FilterPodsProperties(pods, IsCrashed, limit);
  }

  /**
   * filterRunningNotReadyPods: the Running pods that are not ready, the first
   * `limit` of them when `limit` is positive.
   */
  method FilterRunningNotReadyPods(pods: seq<Pod>, limit: int) returns (r: seq<Pod>)
    ensures r == Take(Select(pods, IsRunningNotReady), limit)
    ensures forall p | p in r :: p in pods && p.phase == Running && !p.ready
    ensures limit <= 0 ==> forall p :: p in r <==> p in pods && p.phase == Running && !p.ready
  {
    r := FilterPodsBy(pods, IsRunningNotReady, limit);
    FilterPodsProperties(pods, IsRunningNotReady, limit);
  }

  /**
   * filterRestartedContainersPods: the pods with an init or regular container
   * restarted at least once, the first `limit` of them when `limit` is positive.
   */
  method FilterRestartedContainersPods(pods: seq<Pod>, limit: int) returns (r: seq<Pod>)
    ensures r == Take(Select(pods, HasRestarted), limit)
    ensures forall p | p in r :: p in pods && HasRestarted(p)
    ensures limit <= 0 ==> forall p :: p in r <==> p in pods && HasRestarted(p)
  {
    r := FilterPodsBy(pods, HasRestarted, limit);
    FilterPodsProperties(pods, HasRestarted, limit);
  }

  // ---------------------------------------------------------------------------
  // The node whitelist
  // ---------------------------------------------------------------------------

  /** Whether the whitelist holds the node's name or one of its addresses. */
  predicate Whitelisted(node: Node, w: seq<string>)
  {
    exists k | 0 <= k < |w| :: node.name == w[k] || w[k] in node.addresses
  }

  /** isNodeInWhitelist: search the whitelist for the node's name, then for its addresses. */
  function IsNodeInWhitelist(node: Node, w: seq<string>): (r: bool)
    ensures r <==> Whitelisted(node, w)
  {
    if |w| == 0 then false
    else if node.name == w[0] || AddressIn(node.addresses, w[0]) then
      true
    else
      var rest := IsNodeInWhitelist(node, w[1..]);
      assert forall k | 1 <= k < |w| :: w[k] == w[1..][k - 1];
      assert forall k | 0 <= k < |w| - 1 :: w[1..][k] == w[k + 1];
      rest
  }

  /** The search over the node's status addresses. */
  function AddressIn(addresses: seq<string>, n: string): (r: bool)
    ensures r <==> n in addresses
  {
    if |addresses| == 0 then false
    else addresses[0] == n || AddressIn(addresses[1..], n)
  }

  function Names(nodes: seq<Node>): (r: seq<string>)
    ensures |r| == |nodes| && forall k | 0 <= k < |nodes| :: r[k] == nodes[k].name
  {
    if |nodes| == 0 then [] else Names(nodes[..|nodes| - 1]) + [nodes[|nodes| - 1].name]
  }

  lemma NamesAppend(nodes: seq<Node>, node: Node)
    ensures Names(nodes + [node]) == Names(nodes) + [node.name]
  {
    assert (nodes + [node])[..|nodes|] == nodes;
  }

  /** The whitelist: the trimmed filter split on ','. */
  function Whitelist(filter: string): seq<string>
  {
    Split(TrimSpace(filter), ',')
  }

  /** The nodes a whitelist keeps: all of them when its first entry is empty. */
  function KeptBy(w: seq<string>): Node -> bool
  {
    if |w| == 0 || w[0] == "" then (n: Node) => true else (n: Node) => Whitelisted(n, w)
  }

  /**
   * The names buildNodeNameList returns: every node's name when the
   * whitelist's first entry is empty (no filter, or one starting with ','),
   * otherwise the names of the whitelisted nodes, in node order.
   */
  function NodeNameList(nodes: seq<Node>, filter: string): seq<string>
  {
    Names(Select(nodes, KeptBy(Whitelist(filter))))
  }

  /** buildNodeNameList: the names of the nodes the collection is restricted to. */
  method BuildNodeNameList(nodes: seq<Node>, filter: string) returns (r: seq<string>)
    ensures r == NodeNameList(nodes, filter)
  {
    var w := Whitelist(filter);
    r := KeptNodeNames(nodes, w);
  }

  /** buildNodeNameList's loop over the nodes, given the split whitelist. */
  method KeptNodeNames(nodes: seq<Node>, w: seq<string>) returns (r: seq<string>)
    ensures r == Names(Select(nodes, KeptBy(w)))
  {
    r := [];
    ghost var kept: seq<Node> := [];
    var i := 0;
    while i < |nodes|
      invariant 0 <= i <= |nodes|
      invariant kept == Select(nodes[..i], KeptBy(w))
      invariant r == Names(kept)
    {
      var node := nodes[i];
      assert nodes[..i + 1] == nodes[..i] + [node];
      SelectAppend(nodes[..i], node, KeptBy(w));
      assert KeptBy(w)(node) <==> |w| == 0 || w[0] == "" || IsNodeInWhitelist(node, w);
      if |w| == 0 || w[0] == "" {
        NamesAppend(kept, node);
        r, kept := r + [node.name], kept + [node];
      } else if IsNodeInWhitelist(node, w) {
        NamesAppend(kept, node);
        r, kept := r + [node.name], kept + [node];
      }
      i := i + 1;
    }
    assert nodes[..i] == nodes;
  }



  /** With no filter (or only white space) every node is selected. */
  lemma EmptyFilterSelectsAll(nodes: seq<Node>, filter: string)
    requires forall k | 0 <= k < |filter| :: IsSpace(filter[k])
    ensures NodeNameList(nodes, filter) == Names(nodes)
  {
    assert TrimSpace(filter) == "";
    assert Split("", ',') == [""];
    SelectAll(nodes, KeptBy(Whitelist(filter)));
  }

  /**
   * A filter whose first non-blank character is ',' has an empty first
   * whitelist entry, so it selects every node, like no filter at all.
   */
  lemma LeadingCommaSelectsAll(nodes: seq<Node>, f: string)
    ensures NodeNameList(nodes, "," + f) == Names(nodes)
  {
    var w := Whitelist("," + f);
    LeadingCommaEmptyEntry(f);
    assert forall x :: KeptBy(w)(x);
    SelectAll(nodes, KeptBy(w));
  }

  lemma LeadingCommaEmptyEntry(f: string)
    ensures Whitelist("," + f)[0] == ""
  {
    var s := "," + f;
    CommaIsNotSpace();
    assert s[0] == ',';
    assert TrimLeft(s) == s;
    var t := TrimRight(s);
    assert t == TrimSpace(s);
    assert |t| > 0 && t[0] == ',';
    assert IndexOfChar(t, ',') == 0;
  }

  lemma CommaIsNotSpace()
    ensures !IsSpace(',')
  {
  }

  /**
   * With a filter, a name is selected exactly when some node of that name is
   * whitelisted by its name or by one of its addresses.
   */
  lemma FilterSelectsWhitelisted(nodes: seq<Node>, filter: string, name: string)
    requires Whitelist(filter)[0] != ""
    ensures name in NodeNameList(nodes, filter) <==>
      exists k | 0 <= k < |nodes| :: nodes[k].name == name && Whitelisted(nodes[k], Whitelist(filter))
  {
    var w := Whitelist(filter);
    var sel := Select(nodes, KeptBy(w));
    SelectMembers(nodes, KeptBy(w));
    if name in Names(sel) {
      var j :| 0 <= j < |sel| && Names(sel)[j] == name;
      assert sel[j] in nodes;
      var k :| 0 <= k < |nodes| && nodes[k] == sel[j];
    }
    if exists k | 0 <= k < |nodes| :: nodes[k].name == name && Whitelisted(nodes[k], w) {
      var k :| 0 <= k < |nodes| && nodes[k].name == name && Whitelisted(nodes[k], w);
      assert nodes[k] in sel;
      var j :| 0 <= j < |sel| && sel[j] == nodes[k];
      assert Names(sel)[j] == name;
    }
  }

  // ---------------------------------------------------------------------------
  // The collector's choice of agent pods
  // ---------------------------------------------------------------------------

  /** Whether some pod of the list has the given name (slices.ContainsFunc on the name). */
  predicate HasPodNamed(pods: seq<Pod>, name: string)
  {
    exists k | 0 <= k < |pods| :: pods[k].name == name
  }

  /** Pod names are pairwise different. */
  ghost predicate DistinctNames(pods: seq<Pod>)
  {
    forall i, j | 0 <= i < j < |pods| :: pods[i].name != pods[j].name
  }

  /** The list after adding each pod whose name is not yet present, in order. */
  function AddNewByName(existing: seq<Pod>, pods: seq<Pod>): seq<Pod>
  {
    if |pods| == 0 then existing
    else
      var before := AddNewByName(existing, pods[..|pods| - 1]);
      var p := pods[|pods| - 1];
      if HasPodNamed(before, p.name) then before else before + [p]
  }

  /**
   * Adding pods by name keeps the existing list as a prefix, adds only pods
   * of the input, keeps names distinct and leaves no input pod's name out.
   */
  lemma {:induction false} AddNewByNameProperties(existing: seq<Pod>, pods: seq<Pod>)
    requires DistinctNames(existing)
    ensures existing <= AddNewByName(existing, pods)
    ensures DistinctNames(AddNewByName(existing, pods))
    ensures forall p | p in pods :: HasPodNamed(AddNewByName(existing, pods), p.name)
    ensures forall p | p in AddNewByName(existing, pods) :: p in existing || p in pods
  {
    if |pods| > 0 {
      var init := pods[..|pods| - 1];
      var p := pods[|pods| - 1];
      AddNewByNameProperties(existing, init);
      var before := AddNewByName(existing, init);
      assert pods == init + [p];
      if !HasPodNamed(before, p.name) {
        var after := before + [p];
        assert forall q | q in init :: HasPodNamed(after, q.name) by {
          forall q | q in init
            ensures HasPodNamed(after, q.name)
          {
            var k :| 0 <= k < |before| && before[k].name == q.name;
            assert after[k] == before[k];
          }
        }
        assert after[|before|].name == p.name;
      }
    }
  }

  datatype Options = Options(quick: bool, nodeList: string, collectLogsFromNotReadyAgents: bool)

  class Collector {
    const options: Options
    var nodeList: seq<string>
    var ciliumPods: seq<Pod>
    var ciliumNotReadyPods: seq<Pod>

    constructor (options: Options)
      ensures this.options == options
      ensures nodeList == [] && ciliumPods == [] && ciliumNotReadyPods == []
    {
      this.options := options;
      nodeList := [];
      ciliumPods := [];
      ciliumNotReadyPods := [];
    }

    /**
     * The part of NewCollector that picks the agent pods: restrict to the
     * chosen nodes, then (when asked to) add the crashed, running-but-not-ready
     * and restarted agents, at most five of each kind, skipping any pod whose
     * name is already listed.
     */
    method SelectAgentPods(allNodes: seq<Node>, agentPods: seq<Pod>)
      modifies this`nodeList, this`ciliumPods, this`ciliumNotReadyPods
      ensures nodeList == NodeNameList(allNodes, options.nodeList)
      ensures var names := nodeList; ciliumPods == Select(agentPods, (p: Pod) => p.nodeName in names)
      ensures options.collectLogsFromNotReadyAgents ==>
        ciliumNotReadyPods == AddNewByName(old(ciliumNotReadyPods), NotReadyCandidates(agentPods))
      ensures !options.collectLogsFromNotReadyAgents ==> ciliumNotReadyPods == old(ciliumNotReadyPods)
    {
      nodeList := BuildNodeNameList(allNodes, options.nodeList);
      ciliumPods := FilterPods(agentPods, nodeList);
      if options.collectLogsFromNotReadyAgents {
        var crashedPods := FilterCrashedPods(agentPods, 5);
        var notReady := FilterRunningNotReadyPods(agentPods, 5);
        var restartedPods := FilterRestartedContainersPods(agentPods, 5);
        AddNotReadyPods(crashedPods + notReady + restartedPods);
      }
    }

    /** The de-duplicating loop: append each pod whose name is not listed yet. */
    method AddNotReadyPods(allPods: seq<Pod>)
      modifies this`ciliumNotReadyPods
      ensures ciliumNotReadyPods == AddNewByName(old(ciliumNotReadyPods), allPods)
    {
      var i := 0;
      while i < |allPods|
        invariant 0 <= i <= |allPods|
        invariant ciliumNotReadyPods == AddNewByName(old(ciliumNotReadyPods), allPods[..i])
      {
        var pod := allPods[i];
        assert allPods[..i + 1][..i] == allPods[..i];
        if !HasPodNamed(ciliumNotReadyPods, pod.name) {
          ciliumNotReadyPods := ciliumNotReadyPods + [pod];
        }
        i := i + 1;
      }
      assert allPods[..i] == allPods;
    }
  }

  /** The crashed, the running-but-not-ready and the restarted agents, five of each at most. */
  function NotReadyCandidates(pods: seq<Pod>): seq<Pod>
  {
    Take(Select(pods, IsCrashed), 5) + Take(Select(pods, IsRunningNotReady), 5) + Take(Select(pods, HasRestarted), 5)
  }

  /**
   * The not-ready list of a new collector never names a pod twice, and lists
   * every candidate's name.
   */
  lemma NotReadyListHasDistinctNames(pods: seq<Pod>)
    ensures DistinctNames(AddNewByName([], NotReadyCandidates(pods)))
    ensures forall p | p in NotReadyCandidates(pods) :: HasPodNamed(AddNewByName([], NotReadyCandidates(pods)), p.name)
    ensures |AddNewByName([], NotReadyCandidates(pods))| <= 15
  {
    AddNewByNameProperties([], NotReadyCandidates(pods));
    AddNewByNameLength([], NotReadyCandidates(pods));
  }

  lemma {:induction false} AddNewByNameLength(existing: seq<Pod>, pods: seq<Pod>)
    ensures |AddNewByName(existing, pods)| <= |existing| + |pods|
  {
    if |pods| > 0 {
      AddNewByNameLength(existing, pods[..|pods| - 1]);
    }
  }

  // ---------------------------------------------------------------------------
  // Small helpers
  // ---------------------------------------------------------------------------

  /** shouldSkipTask: in quick mode, every task not marked quick is skipped. */
  function ShouldSkipTask(options: Options, t: Task): (skip: bool)
    ensures !options.quick ==> !skip
    ensures options.quick ==> (skip <==> !t.quick)
  {
    options.quick && !t.quick
  }

  /** Whether some container has the given name (slices.ContainsFunc on the name). */
  function HasContainer(containers: seq<Container>, name: string): (r: bool)
    ensures r <==> exists k | 0 <= k < |containers| :: containers[k].name == name
  {
    if |containers| == 0 then false
    else if containers[0].name == name then true
    else
      var rest := HasContainer(containers[1..], name);
      assert forall k | 1 <= k < |containers| :: containers[k] == containers[1..][k - 1];
      rest
  }

  /** podIsRunningAndHasContainer. */
  function PodIsRunningAndHasContainer(pod: Pod, container: string): (r: bool)
    ensures r <==> pod.phase == Running && exists k | 0 <= k < |pod.containers| :: pod.containers[k].name == container
  {
    if pod.phase == Running then HasContainer(pod.containers, container) else false
  }

  /** The position of the first element that satisfies `p`, or -1 (a search loop with an early return). */
  function FirstIndex<T>(s: seq<T>, p: T -> bool): (r: int)
    ensures -1 <= r < |s|
    ensures r >= 0 ==> p(s[r]) && forall j | 0 <= j < r :: !p(s[j])
    ensures r == -1 <==> forall j | 0 <= j < |s| :: !p(s[j])
  {
    if |s| == 0 then -1
    else if p(s[0]) then 0
    else
      var k := FirstIndex(s[1..], p);
      assert forall j | 1 <= j < |s| :: s[j] == s[1..][j - 1];
      if k < 0 then -1 else k + 1
  }

  /** Whether a container has the given name and a port of the given name. */
  predicate HasNamedPort(c: Container, containerName: string, portName: string)
  {
    c.name == containerName && exists j | 0 <= j < |c.ports| :: c.ports[j].name == portName
  }

  /**
   * getPodMetricsPort: the number of the first port of the given name in the
   * first container of the given name that has one, or an error when no
   * container of that name has such a port.
   */
  function GetPodMetricsPort(pod: Pod, containerName: string, portName: string): (r: Result<int32>)
    ensures r.Err? <==> forall k | 0 <= k < |pod.containers| :: !HasNamedPort(pod.containers[k], containerName, portName)
    ensures r.Ok? ==> exists k | 0 <= k < |pod.containers| ::
      HasNamedPort(pod.containers[k], containerName, portName)
      && (forall i | 0 <= i < k :: !HasNamedPort(pod.containers[i], containerName, portName))
      && exists j | 0 <= j < |pod.containers[k].ports| ::
        pod.containers[k].ports[j].name == portName && pod.containers[k].ports[j].containerPort == r.value
        && forall i | 0 <= i < j :: pod.containers[k].ports[i].name != portName
  {
    var k := FirstIndex(pod.containers, (c: Container) => HasNamedPort(c, containerName, portName));
    if k < 0 then Err("failed to find port " + portName + " in container " + containerName + " in pod " + pod.name)
    else
      var ports := pod.containers[k].ports;
      var j := FirstIndex(ports, (port: ContainerPort) => port.name == portName);
      assert ports[j].name == portName && forall i | 0 <= i < j :: ports[i].name != portName;
      assert forall i | 0 <= i < k :: !HasNamedPort(pod.containers[i], containerName, portName);
      Ok(ports[j].containerPort)
  }

  // ---------------------------------------------------------------------------
  // Paths and command output
  // ---------------------------------------------------------------------------

  /**
   * removeTopDirectory: the path after its first '/', or an error when the
   * path has none.
   */
  function RemoveTopDirectory(path: string): (r: Result<string>)
    ensures r.Err? <==> '/' !in path
    ensures r.Ok? ==> exists i | 0 <= i < |path| ::
      path[i] == '/' && '/' !in path[..i] && r.value == path[i + 1..]
  {
    var index := IndexOfChar(path, '/');
    if index < 0 then Err("invalid path \"" + path + "\"") else Ok(path[index + 1..])
  }

  /** Putting a top directory in front of a path and removing it again gives the path back. */
  lemma RemoveTopDirectoryInverse(top: string, rest: string)
    requires '/' !in top
    ensures RemoveTopDirectory(top + "/" + rest) == Ok(rest)
  {
    var path := top + "/" + rest;
    var i := IndexOfChar(path, '/');
    assert path[|top|] == '/';
    assert forall k | 0 <= k < i :: path[k] == path[..i][k];
    assert forall k | 0 <= k < |top| :: path[k] == top[k];
    assert path[|top| + 1..] == rest;
  }

  const SavedToPrefix: string := "saved to: "

  /**
   * strings.Split(str, sep)[1] for a line that contains `sep`: the text
   * between the first occurrence of `sep` and the next one (or the end).
   */
  function SecondField(str: string, sep: string): (r: string)
    requires IndexOf(str, sep) >= 0 && |sep| > 0
  {
    var i := IndexOf(str, sep);
    var after := str[i + |sep|..];
    var j := IndexOf(after, sep);
    if j < 0 then after else after[..j]
  }

  /**
   * extractGopsProfileData: the trimmed file name after "saved to: " on the
   * first output line that has it, or an error naming the output.
   */
  function ExtractGopsProfileData(output: string): (r: Result<string>)
    ensures var lines := Split(output, '\n');
      && (r.Err? <==> forall k | 0 <= k < |lines| :: !Contains(lines[k], SavedToPrefix))
      && (r.Ok? ==> exists k | 0 <= k < |lines| ::
        Contains(lines[k], SavedToPrefix)
        && (forall j | 0 <= j < k :: !Contains(lines[j], SavedToPrefix))
        && r.value == TrimSpace(SecondField(lines[k], SavedToPrefix)))
  {
    var lines := Split(output, '\n');
    var k := FirstIndex(lines, (line: string) => Contains(line, SavedToPrefix));
    if k < 0 then Err("Unable to find output file: " + output)
    else Ok(TrimSpace(SecondField(lines[k], SavedToPrefix)))
  }

  /** Single-line output naming the saved file yields the file name, trimmed. */
  lemma ExtractGopsProfileDataLine(before: string, file: string)
    requires '\n' !in before + SavedToPrefix + file
    requires IndexOf(file, SavedToPrefix) < 0
    requires IndexOf(before + SavedToPrefix + file, SavedToPrefix) == |before|
    ensures ExtractGopsProfileData(before + SavedToPrefix + file) == Ok(TrimSpace(file))
  {
    var line := before + SavedToPrefix + file;
    assert line[|before| + |SavedToPrefix|..] == file;
    assert Split(line, '\n') == [line];
  }
}
