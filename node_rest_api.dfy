/**
 * The GET /cluster/nodes handler of the node manager (rest_api.go). A client
 * that presents no client ID gets the full node list. A known client gets the
 * nodes added and removed since its last poll, and then its lists are reset.
 * An unknown client gets a fresh random ID and a subscription to the node
 * manager, whose node events update its lists. Clients that have not polled
 * for the GC timeout are unsubscribed and dropped.
 *
 * The node manager, the clock and the random generator are outside this
 * module. The wall-clock time (nanoseconds), the generated ID, the agent's
 * node name and the manager's node listing are parameters of Handle.
 */
module NodeRestApi {
  import opened Wrappers
  import opened NodeTypes

  /** clientGCTimeout: 15 minutes, in nanoseconds. */
  const ClientGCTimeout: int := 15 * 60 * 1000000000

  /** Go's int64. */
  newtype Int64 = x: int | -0x8000_0000_0000_0000 <= x < 0x8000_0000_0000_0000

  /** models.ClusterNodeStatus. */
  datatype ClusterNodeStatus = ClusterNodeStatus(
    clientID: Int64,
    self: string,
    nodesAdded: seq<NodeElement>,
    nodesRemoved: seq<NodeElement>)

  /** The REST view of every node of a listing, in order. */
  function Models(ns: seq<Node>): (r: seq<NodeElement>)
    ensures |r| == |ns|
    ensures forall i | 0 <= i < |ns| :: r[i] == GetModel(ns[i])
  {
    if ns == [] then [] else Models(ns[..|ns| - 1]) + [GetModel(ns[|ns| - 1])]
  }

  /** getNodeStatus: this node's name and every node the manager holds. */
  function FullStatus(self: string, listing: seq<Node>): ClusterNodeStatus
  {
    ClusterNodeStatus(0, self, Models(listing), [])
  }

  /** slices.IndexFunc by element name: the first position holding `name`, or -1. */
  function IndexOfName(s: seq<NodeElement>, name: string): (r: int)
    ensures -1 <= r < |s|
    ensures r == -1 <==> forall i | 0 <= i < |s| :: s[i].name != name
    ensures r >= 0 ==> s[r].name == name && forall i | 0 <= i < r :: s[i].name != name
  {
    if s == [] then -1
    else if s[0].name == name then 0
    else
      var k := IndexOfName(s[1..], name);
      if k == -1 then -1 else k + 1
  }

  /** slices.Delete(s, i, i+1). */
  function SpliceOut<T>(s: seq<T>, i: nat): seq<T>
    requires i < |s|
  {
    s[..i] + s[i + 1..]
  }

  /** A client stale at `now`: its last poll is before now - clientGCTimeout. */
  predicate IsStale(lastSync: int, now: int)
  {
    lastSync < now - ClientGCTimeout
  }

  /** A subscriber of the node manager that accumulates the node events for one REST client. */
  class ClusterNodesClient {
    var lastSync: int
    var clientID: Int64
    var self: string
    var nodesAdded: seq<NodeElement>
    var nodesRemoved: seq<NodeElement>

    constructor (clientID: Int64, self: string, now: int)
      ensures this.clientID == clientID && this.self == self && lastSync == now
      ensures nodesAdded == [] && nodesRemoved == []
    {
      this.clientID := clientID;
      this.self := self;
      lastSync := now;
      nodesAdded := [];
      nodesRemoved := [];
    }

    /** The pending ClusterNodeStatus of this client. */
    function Status(): ClusterNodeStatus
      reads this
    {
      ClusterNodeStatus(clientID, self, nodesAdded, nodesRemoved)
    }

    /** NodeAdd: the node's model is appended to the added list. */
    method NodeAdd(n: Node) returns (err: Option<string>)
      modifies this`nodesAdded
      ensures nodesAdded == old(nodesAdded) + [GetModel(n)]
      ensures err == None
    {
      nodesAdded := nodesAdded + [GetModel(n)];
      err := None;
    }

    /**
     * NodeUpdate: a node already on the added list is replaced there in place;
     * otherwise the new node counts as added and the old one as removed.
     */
    method NodeUpdate(o: Node, n: Node) returns (err: Option<string>)
      modifies this`nodesAdded, this`nodesRemoved
      ensures err == None
      ensures var i := IndexOfName(old(nodesAdded), Fullname(n));
              if i >= 0 then nodesAdded == old(nodesAdded)[i := GetModel(n)] && nodesRemoved == old(nodesRemoved)
              else nodesAdded == old(nodesAdded) + [GetModel(n)] && nodesRemoved == old(nodesRemoved) + [GetModel(o)]
    {
      var added := nodesAdded;
      var name := Fullname(n);
      var i := 0;
      while i < |added| && added[i].name != name
        invariant 0 <= i <= |added|
        invariant forall j | 0 <= j < i :: added[j].name != name
        modifies {}
      {
        i := i + 1;
      }
      if i < |added| {
        nodesAdded := added[i := GetModel(n)];
      } else {
        nodesAdded := added + [GetModel(n)];
        nodesRemoved := nodesRemoved + [GetModel(o)];
      }
      err := None;
    }

    /**
     * NodeDelete: a node on the added list is taken off it and never reported
     * as removed; any other node is appended to the removed list.
     */
    method NodeDelete(n: Node) returns (err: Option<string>)
      modifies this`nodesAdded, this`nodesRemoved
      ensures err == None
      ensures var i := IndexOfName(old(nodesAdded), Fullname(n));
              if i >= 0 then nodesAdded == SpliceOut(old(nodesAdded), i) && nodesRemoved == old(nodesRemoved)
              else nodesAdded == old(nodesAdded) && nodesRemoved == old(nodesRemoved) + [GetModel(n)]
    {
      var found := IndexOfName(nodesAdded, Fullname(n));
      if found != -1 {
        nodesAdded := SpliceOut(nodesAdded, found);
      } else {
        nodesRemoved := nodesRemoved + [GetModel(n)];
      }
      err := None;
    }

    /** Handle's reply to a subscribed client: the pending status, which is then reset to empty lists. */
    method Poll(clientID: Int64, self: string, now: int) returns (cns: ClusterNodeStatus)
      modifies this
      ensures cns == old(Status())
      ensures Status() == ClusterNodeStatus(clientID, self, [], []) && lastSync == now
    {
      cns := Status();
      this.clientID := clientID;
      this.self := self;
      nodesAdded := [];
      nodesRemoved := [];
      lastSync := now;
    }

    /** NodeValidateImplementation: nothing to validate. */
    method NodeValidateImplementation(n: Node) returns (err: Option<string>)
      ensures err == None
    {
      err := None;
    }
  }

  /** getClusterNodesRestApiHandler: the clients by ID. */
  class GetClusterNodesHandler {
    var clients: map<Int64, ClusterNodesClient>
    /** The clients this handler has subscribed to the node manager and not unsubscribed. */
    ghost var subscribed: set<ClusterNodesClient>

    /** Each client is stored under the ID its status carries (so no client sits under two IDs). */
    ghost predicate Valid()
      reads this, clients.Values
    {
      forall k | k in clients :: clients[k].clientID == k
    }

    constructor ()
      ensures Valid() && clients == map[] && subscribed == {}
    {
      clients := map[];
      subscribed := {};
    }

    /** The clients that cleanupClients drops at `now`. */
    ghost function StaleClients(now: int): set<ClusterNodesClient>
      reads this, clients.Values
    {
      set k | k in clients && IsStale(clients[k].lastSync, now) :: clients[k]
    }

    /** The client table after cleanupClients at `now`. */
    ghost function LiveClients(now: int): map<Int64, ClusterNodesClient>
      reads this, clients.Values
    {
      map k | k in clients && !IsStale(clients[k].lastSync, now) :: clients[k]
    }

    /** cleanupClients: unsubscribe and forget every client that has not polled for clientGCTimeout. */
    method CleanupClients(now: int)
      requires Valid()
      modifies this`clients, this`subscribed
      ensures Valid()
      ensures clients == old(LiveClients(now))
      ensures subscribed == old(subscribed) - old(StaleClients(now))
    {
      var m := clients;
      var keys := clients.Keys;
      ghost var sub := subscribed;
      while keys != {}
        invariant keys <= clients.Keys
        invariant m == map j | j in clients && (j in keys || !IsStale(clients[j].lastSync, now)) :: clients[j]
        invariant sub == subscribed - set j | j in clients && j !in keys && IsStale(clients[j].lastSync, now) :: clients[j]
        modifies {}
        decreases |keys|
      {
        var k :| k in keys;
        var v := clients[k];
        if v.lastSync < now - ClientGCTimeout {
          sub := sub - {v};
          m := m - {k};
        }
        keys := keys - {k};
      }
      clients := m;
      subscribed := sub;
    }

    /** The node manager's Subscribe: register `c` and replay every stored node to it as a NodeAdd. */
    method SubscribeClient(c: ClusterNodesClient, listing: seq<Node>)
      modifies this`subscribed, c`nodesAdded
      ensures subscribed == old(subscribed) + {c}
      ensures c.nodesAdded == old(c.nodesAdded) + Models(listing)
    {
      subscribed := subscribed + {c};
      var i := 0;
      while i < |listing|
        invariant 0 <= i <= |listing|
        invariant subscribed == old(subscribed) + {c}
        invariant c.nodesAdded == old(c.nodesAdded) + Models(listing[..i])
      {
        assert listing[..i + 1][..i] == listing[..i];
        var _ := c.NodeAdd(listing[i]);
        i := i + 1;
      }
      assert listing[..i] == listing;
    }

    /**
     * Handle: serve one GET /cluster/nodes. `param` is the request's client
     * ID, `randomID` what the random generator yields, `self` the agent's node
     * name and `listing` the node manager's nodes.
     */
    method Handle(param: Option<Int64>, randomID: Int64, now: int, self: string, listing: seq<Node>)
      returns (cns: ClusterNodeStatus)
      requires Valid()
      modifies this`clients, this`subscribed, clients.Values
      ensures Valid()
      ensures param.None? ==>
                cns == FullStatus(self, listing) && clients == old(clients) && subscribed == old(subscribed)
      ensures param.Some? && param.value in old(clients) ==>
                var c := old(clients)[param.value];
                cns == old(c.Status()) && clients == old(clients) && subscribed == old(subscribed)
                && c.Status() == ClusterNodeStatus(param.value, self, [], []) && c.lastSync == now
      ensures param.Some? && param.value !in old(clients) && (randomID in old(clients) || randomID == 0) ==>
                cns == FullStatus(self, listing) && clients == old(clients) && subscribed == old(subscribed)
      ensures param.Some? && param.value !in old(clients) && randomID !in old(clients) && randomID != 0 ==>
                randomID in clients && fresh(clients[randomID])
                && clients == old(LiveClients(now))[randomID := clients[randomID]]
                && subscribed == (old(subscribed) - old(StaleClients(now))) + {clients[randomID]}
                && cns == ClusterNodeStatus(randomID, self, Models(listing), [])
                && clients[randomID].Status() == ClusterNodeStatus(randomID, self, [], [])
                && clients[randomID].lastSync == now
      ensures forall k | k in old(clients) && (param.None? || k != param.value) :: unchanged(old(clients)[k])
    {
      if param.None? {
        return FullStatus(self, listing);
      }
      if param.value in clients {
        cns := clients[param.value].Poll(param.value, self, now);
        return;
      }
      var clientID := randomID;
      if clientID in clients || clientID == 0 {
        return FullStatus(self, listing);
      }
      cns := Admit(clientID, now, self, listing);
    }

    /** Handle's new-client branch: subscribe a fresh client, clean up the others, store and poll it. */
    method Admit(clientID: Int64, now: int, self: string, listing: seq<Node>) returns (cns: ClusterNodeStatus)
      requires Valid() && clientID !in clients
      modifies this`clients, this`subscribed
      ensures Valid()
      ensures clientID in clients && fresh(clients[clientID])
      ensures clients == old(LiveClients(now))[clientID := clients[clientID]]
      ensures subscribed == (old(subscribed) - old(StaleClients(now))) + {clients[clientID]}
      ensures cns == ClusterNodeStatus(clientID, self, Models(listing), [])
      ensures clients[clientID].Status() == ClusterNodeStatus(clientID, self, [], [])
      ensures clients[clientID].lastSync == now
    {
      var c := new ClusterNodesClient(clientID, self, now);
      SubscribeClient(c, listing);
      CleanupClients(now);
      clients := clients[clientID := c];
      cns := c.Poll(clientID, self, now);
    }
  }

  // ---------------------------------------------------------------------
  // Properties of the per-client bookkeeping.
  // ---------------------------------------------------------------------

  /** slices.Delete drops exactly the element at i and keeps the others in order. */
  lemma SpliceOutContents<T>(s: seq<T>, i: nat)
    requires i < |s|
    ensures |SpliceOut(s, i)| == |s| - 1
    ensures forall j | 0 <= j < i :: SpliceOut(s, i)[j] == s[j]
    ensures forall j | i <= j < |s| - 1 :: SpliceOut(s, i)[j] == s[j + 1]
    ensures multiset(SpliceOut(s, i)) + multiset{s[i]} == multiset(s)
  {
    assert s == s[..i] + [s[i]] + s[i + 1..];
  }

  /** Finding a name is unaffected by appending an element with another name. */
  lemma IndexOfNameAppend(s: seq<NodeElement>, e: NodeElement, name: string)
    ensures IndexOfName(s + [e], name)
            == if IndexOfName(s, name) >= 0 then IndexOfName(s, name) else if e.name == name then |s| else -1
  {
    var t := s + [e];
    var i := IndexOfName(t, name);
    if IndexOfName(s, name) >= 0 {
      assert t[IndexOfName(s, name)] == s[IndexOfName(s, name)];
    } else if e.name == name {
      assert t[|s|].name == name;
    } else {
      assert forall j | 0 <= j < |t| :: t[j].name != name by {
        forall j | 0 <= j < |t|
          ensures t[j].name != name
        {
          if j < |s| {
            assert t[j] == s[j];
          }
        }
      }
    }
  }

  /**
   * A node added and deleted between two polls leaves no trace: the added
   * list is as before and nothing is reported removed.
   */
  lemma AddThenDeleteCancels(added: seq<NodeElement>, n: Node)
    requires IndexOfName(added, Fullname(n)) == -1
    ensures var a := added + [GetModel(n)];
            IndexOfName(a, Fullname(n)) == |added| && SpliceOut(a, |added|) == added
  {
    SpliceOutLast(added, GetModel(n));
    IndexOfNameAppend(added, GetModel(n), Fullname(n));
  }

  lemma SpliceOutLast<T>(s: seq<T>, x: T)
    ensures SpliceOut(s + [x], |s|) == s
  {
    assert (s + [x])[..|s|] == s;
  }

  /** An update of a node added since the last poll only rewrites its entry. */
  lemma AddThenUpdateRewrites(added: seq<NodeElement>, o: Node, n: Node)
    requires IndexOfName(added, Fullname(o)) == -1 && Fullname(o) == Fullname(n)
    ensures var a := added + [GetModel(o)];
            IndexOfName(a, Fullname(n)) == |added| && a[|added| := GetModel(n)] == added + [GetModel(n)]
  {
    IndexOfNameAppend(added, GetModel(o), Fullname(n));
  }
}
