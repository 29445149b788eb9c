# A verified model of Cilium's node manager and some of its neighbours

This project models, in Dafny, the node manager of the Cilium agent
(`pkg/node/manager/manager.go`). It also models six smaller pieces of the repository:

- the cluster-nodes REST handler (`rest_api.go`);
- the monitor's name and number tables (`pkg/monitor/api/types.go`);
- the keys of the service source-range LPM maps (`pkg/maps/lbmap/source_range.go`);
- the pure helpers of the `cilium-cli` sysdump collector (`cilium-cli/sysdump/sysdump.go`);
- the kvstore watch store manager (`pkg/kvstore/store/watchstoremgr.go`);
- the readiness computation of a clustermesh operator's remote cluster (`pkg/clustermesh/operator/remote_cluster.go`).

## What the node manager does

The node manager keeps one record per node identity, meaning the cluster name plus the node name. Records come from several sources: local discovery, Kubernetes, the kvstore, clustermesh, and the on-disk checkpoint. For each record it does the following:

- It projects the addresses, pod CIDRs, health IPs and ingress IPs of the node into the ipcache metadata layer, owned by the node's resource.
- It queues the node's internal IPs into the node ipset.
- It informs every subscribed datapath node handler.

When a record replaces an older one, the stored node's source must allow the overwrite (`source.AllowOverwrite`). The manager then retracts what the old record announced and the new one does not.

A deletion is honoured only when it comes from the source that owns the stored record. The one exception is Kubernetes deleting the local node while another source owns it: that stops the manager.

At start the manager restores the nodes of its checkpoint, tagged `Restored`. Once the first listing is complete (`NodeSync`), it replays a deletion for every restored node that did not come back. That pruning runs at most once.

## How the model is built

The model keeps the source's own form.

**Node manager.** It is a `class Manager` whose fields are the manager's state:

- `nodes` and `restoredNodes`;
- the handler set;
- the ipcache, modelled as a map from facts to the source that wrote them;
- the ipset;
- whether the checkpointer exists;
- the `nodePruneOnce` and `InitDone` flags.

Each loop of `NodeUpdated`, `removeNodeFromIPCache`, `Subscribe`, `Iter` and `pruneNodes` is a `while` loop with its invariants. The ipcache and the ipset are foreign interfaces. What the manager asks of them is recorded as the set of facts upserted or retracted. Calls to the node handlers and requests to the checkpoint writer go into ghost logs. Every method is specified against pure functions:

- `ProjectedFacts` and `RetractedFacts`;
- `UpdateRetraction` and `DeleteRetraction`;
- `RestoreAll`;
- `PrunedNodes` and `PruneSurvivors`.

The lemmas in `node_projection.dfy` state what these mean. For example, an update never retracts a fact it has just written, and a deletion undoes an insertion.

**REST client objects.** `clusterNodesClient` and the handler are classes. The added and removed lists are sequence fields that are edited in place.

**Message-type filter.** `MessageTypeFilter` is a class over `seq<int>`. `AllMessageTypeNames` is a method with a loop over its keys followed by a sort by type.

**Sysdump.** `filterPods` and `buildNodeNameList` are loops over pure selection functions. The not-ready pod list is edited in place in a `Collector` class.

**Watch store manager.** It is a class. Its map of functions and its running flag are fields, and a ghost log records the functions started.

**The rest.** The lookup tables, the source-range keys and the remote cluster status are pure functions over datatypes.

`Sources.Priority` orders the node sources. `pkg/source` is not part of this model. Its order is modelled as a strict priority rank, lowest to highest: `Unspec`, `Restored`, `Generated`, `LocalAPI`, `Directory`, `ClusterMesh`, `Kubernetes`, `CustomResource`, `KVStore`, `Local`, `KubeAPIServer`. `AllowOverwrite(existing, incoming)` holds when `incoming` ranks at least as high.

`pkg/node/types` is not part of this model. Only `Identity`, `Fullname` and `GetModel` of the node type are modelled.

## Model

| member | source | states |
|---|---|---|
| NodeManager.Manager.constructor | pkg/node/manager/manager.go:262-300 | A new manager has no nodes, no restored nodes, no handlers, an empty ipcache and ipset, no checkpointer, and pruning and ipset initialisation not yet done |
| NodeManager.Manager.SetPrefixClusterMutator | pkg/node/manager/manager.go:1245-1247 | Only the cluster-scope mutator of the configuration changes |
| NodeManager.Manager.Subscribe | pkg/node/manager/manager.go:181-200 | The handler joins the set, and the handler log grows by exactly one NodeAdd to that handler per stored node (Replayed) |
| NodeManager.Manager.Unsubscribe | pkg/node/manager/manager.go:203-207 | The handler leaves the set |
| NodeManager.Manager.FanOut | pkg/node/manager/manager.go:210-217 | The handler log grows by one call of the event per subscribed handler, each exactly once (FannedOut) |
| NodeManager.Manager.UpsertAddresses | pkg/node/manager/manager.go:686-747 | The ipcache gets each address's labels fact, plus an identity override when one applies, all tagged with the node's source. The ipset entries are exactly the internal IPs unless the filter excludes the node. The node IPs added are the host prefixes of all addresses. dpUpdate is the conjunction of the per-address overwrite checks |
| NodeManager.Manager.AddToIPSet | pkg/node/manager/manager.go:748-758 | The ipset gains exactly the addresses of the queued prefixes |
| NodeManager.Manager.UpsertPodCIDRs | pkg/node/manager/manager.go:763-777 | For a remote node, each valid pod CIDR becomes a fallback fact, and the list of added pod CIDRs is exactly those CIDRs |
| NodeManager.Manager.UpsertEndpoints | pkg/node/manager/manager.go:779-815 | Each set health or ingress IP becomes an endpoint fact. The added list holds exactly their host prefixes. dpUpdate conjoins the overwrite check of each one |
| NodeManager.Manager.ProjectNode | pkg/node/manager/manager.go:668-815 | The ipcache is upserted with ProjectedFacts(n), the ipset gains IPSetProjected(n), dpUpdate is DatapathUpdate(n), and the added lists are exactly what was upserted (AddedFor) |
| NodeManager.Manager.RemoveAddresses | pkg/node/manager/manager.go:951-1000 | Every labels or override fact of an old address whose prefix is not among the new node IPs is retracted. The ipset removals are exactly the old internal IPs whose prefix is in neither the new node IPs nor the new ipset entries |
| NodeManager.Manager.RemovePodCIDRs | pkg/node/manager/manager.go:1002-1021 | The fallback facts of old pod CIDRs missing from the new list are retracted |
| NodeManager.Manager.RemoveEndpoints | pkg/node/manager/manager.go:1023-1052 | The facts of old health or ingress IPs missing from the new list are retracted |
| NodeManager.Manager.RemoveNodeFromIPCache | pkg/node/manager/manager.go:939-1052 | The ipcache loses exactly RetractedFacts(old node, lists added), and the ipset loses exactly IPSetRetractedFrom |
| NodeManager.Manager.CommitUpdate | pkg/node/manager/manager.go:817-895 | A rejected update (the stored source may not be overwritten) changes nothing and triggers no checkpoint. Otherwise the record is stored and a NodeUpdate (replacement) or NodeAdd (new identity) reaches every handler when dpUpdate holds. A replacement retracts UpdateRetraction. A checkpoint is triggered |
| NodeManager.Manager.NodeUpdated | pkg/node/manager/manager.go:654-895 | The whole update. A replacement leaves ReplacedIPCache and ReplacedIPSet. Any other update leaves the upserted projection. The node table, the handler calls and the checkpoint triggers are as in CommitUpdate |
| NodeManager.Manager.Stop | pkg/node/manager/manager.go:315-332 | With a checkpointer, one last write of the live nodes is made and the checkpointer is dropped. Without one, nothing happens |
| NodeManager.Manager.DeleteNode | pkg/node/manager/manager.go:1114-1144 | The stored node's projection and ipset addresses are retracted, unless the event is Restored. The identity is dropped, a checkpoint is triggered, and every handler receives NodeDelete |
| NodeManager.Manager.NodeDeleted | pkg/node/manager/manager.go:1058-1152 | The four outcomes. An unknown identity with a live source is a no-op. A source other than the owner is ignored, except a local node deleted by Kubernetes, which stops the manager. The owner's deletion removes the entry, retracts its facts and notifies all handlers. A Restored deletion skips the ipcache |
| NodeManager.Manager.RestoreNodeCheckpoint | pkg/node/manager/manager.go:455-496 | A decoded checkpoint adds its nodes, tagged Restored and keyed by identity, with the last record winning. A missing or undecodable file changes nothing |
| NodeManager.Manager.Start | pkg/node/manager/manager.go:302-312 | The checkpoint is restored first, and the checkpointer exists exactly when its trigger could be created |
| NodeManager.Manager.ForgetLiveRestored | pkg/node/manager/manager.go:1178-1181 | The restored table loses every live identity |
| NodeManager.Manager.ReplayDeletion | pkg/node/manager/manager.go:1081-1144 | A deletion of a restored node that is not live touches neither the ipcache, the ipset nor the node table. It triggers a checkpoint and delivers one NodeDelete to every handler |
| NodeManager.Manager.PruneStep | pkg/node/manager/manager.go:1205-1210 | One turn of the prune loop keeps the loop's invariant (Replaying): the deleted nodes so far are exactly the selected ones visited |
| NodeManager.Manager.ReplayStale | pkg/node/manager/manager.go:1203-1210 | Every restored node of the local cluster (of any cluster when meshed) gets exactly one NodeDelete per handler and one checkpoint trigger, and is forgotten. The others stay |
| NodeManager.Manager.PruneNodes | pkg/node/manager/manager.go:1172-1211 | The restored table becomes PruneSurvivors. Every handler receives exactly one NodeDelete per node in PrunedNodes. The ipcache, the ipset and the live nodes are unchanged |
| NodeManager.Manager.NodeSync | pkg/node/manager/manager.go:1157-1166 | The ipset initialiser is released, and pruning (local cluster only) runs the first time only: the survivors, the NodeDelete deliveries and one "NodeDeleted" checkpoint trigger per pruned node when a checkpointer exists. A later NodeSync delivers and triggers nothing |
| NodeManager.Manager.MeshNodeSync | pkg/node/manager/manager.go:1168-1170 | Restored nodes of every cluster are pruned, each time it is called: the survivors, the NodeDelete deliveries and one "NodeDeleted" checkpoint trigger per pruned node when a checkpointer exists; the checkpointer stays as it was |
| NodeManager.Manager.GetNodeIdentities | pkg/node/manager/manager.go:1215-1225 | Every stored identity is listed exactly once |
| NodeManager.Manager.GetNodes | pkg/node/manager/manager.go:1228-1240 | A copy equal to the node table |
| NodeManager.AddressPrefixCluster | pkg/node/manager/manager.go:687-693 | An address is announced under its host prefix |
| NodeManager.UpsertContents | pkg/node/manager/manager.go:738-745 | Upserting adds exactly the given facts, with the given source, and leaves every other fact as it was |
| NodeManager.ReplayedByIds | pkg/node/manager/manager.go:187-198 | The replay loop's bookkeeping yields one NodeAdd per stored node and no duplicates |
| NodeManager.AddedRetraction | pkg/node/manager/manager.go:857 | The lists NodeUpdated hands to removeNodeFromIPCache make it retract exactly UpdateRetraction and UpdateIPSetRetraction |
| NodeManager.PruneSplit | pkg/node/manager/manager.go:1179-1210 | The two prune loops partition the non-live restored nodes into PrunedNodes and PruneSurvivors |
| NodeManager.DeliveredStep | pkg/node/manager/manager.go:1207 | A fan-out of one more pruned node's deletion extends DeletesDelivered |
| NodeManager.RestoreAllValid | pkg/node/manager/manager.go:492-495 | Restoring keeps the table keyed by identity, and every entry is tagged Restored |
| NodeManager.RestoreAllKeys | pkg/node/manager/manager.go:492-495 | Restoring adds exactly the identities of the decoded nodes |
| NodeManager.RestoreAllLastWins | pkg/node/manager/manager.go:492-495 | Of several checkpointed records with one identity, the last one is kept |
| NodeManager.UpsertBoth | pkg/node/manager/manager.go:654-815 | Upserting two batches with one source equals upserting their union |
| NodeManager.RemoveBoth | pkg/node/manager/manager.go:939-1052 | Retracting two batches in turn equals retracting their union |
| NodeProjection.ProjectedPrefixes | pkg/node/manager/manager.go:684-815 | Every projected fact belongs to n's resource, under a prefix in the matching added list |
| NodeProjection.RetractedPrefixes | pkg/node/manager/manager.go:951-1052 | Every retracted fact belongs to the resource, under a prefix missing from the matching added list |
| NodeProjection.UpdateRetractionDisjoint | pkg/node/manager/manager.go:953-1041 | An update retracts nothing it has just written |
| NodeProjection.ReplacementWritesNewFacts | pkg/node/manager/manager.go:654-857 | After an accepted replacement, every fact of the new node is present and owned by its source |
| NodeProjection.ReplacementLeavesOtherResources | pkg/node/manager/manager.go:939-1052 | A replacement leaves the metadata of every other resource as it was |
| NodeProjection.ReplacementRetractsStaleAddress | pkg/node/manager/manager.go:951-998 | An old address whose prefix the new node no longer announces loses its labels and its identity override |
| NodeProjection.RescopedInternalIPKeepsOldFact | pkg/node/manager/manager.go:951-962 | A cilium-internal IP kept under a new cluster scope keeps its fact under the old prefix-cluster, because the check compares bare prefixes |
| NodeProjection.DeleteRetractsProjection | pkg/node/manager/manager.go:1115-1118 | A deletion, which passes empty added lists, retracts exactly the facts NodeUpdated wrote for the stored record |
| NodeProjection.DeleteUndoesInsert | pkg/node/manager/manager.go:1115-1118 | Deleting a node inserted over an ipcache holding none of its facts gives that ipcache back |
| NodeProjection.DeleteCoversIPSet | pkg/node/manager/manager.go:958-975 | A deletion removes from the ipset every address an insertion put there, and exactly those when the ipset filter does not exclude the node |
| NodeProjection.IPSetEntriesCheckSubsumed | pkg/node/manager/manager.go:953-975 | For an update, the ipset-entries check at line 964 never changes the outcome: the retraction depends on the new node IPs alone |
| NodeProjection.ReplacementKeepsIPSetEntries | pkg/node/manager/manager.go:964 | An update keeps in the ipset every address it has just added |
| NodeProjection.RetypedInternalIPStays | pkg/node/manager/manager.go:953-956 | An old internal IP the new node still lists, under any type, stays in the ipset |
| NodeProjection.DroppedInternalIPLeaves | pkg/node/manager/manager.go:964-975 | An internal IP the new node no longer lists leaves the ipset |
| NodeProjection.ReplaceAddressesExample | pkg/node/manager/manager.go:951-1000 | Addresses {A, B} replaced by {B, C}: only A's labels and A's ipset entry are retracted |
| NodeTypes.HostPrefix | pkg/node/manager/manager.go:687 | The single-address prefix of an IP: the IP with a full-width mask |
| NodeTypes.RetaggedKeepsIdentity | pkg/node/manager/manager.go:492-494 | Tagging a node Restored keeps its identity |
| NodeTypes.GetModel | pkg/node/manager/rest_api.go:134 | The REST view of a node carries its full name |
| Sources.AllowOverwrite | pkg/node/manager/manager.go:822 | Under the assumed rank: a source may overwrite itself, anything may overwrite Unspec, KubeAPIServer may overwrite anything, and only KubeAPIServer overwrites KubeAPIServer |
| Sources.OverwriteReflexive | pkg/node/manager/manager.go:822 | A source may always refresh its own record |
| Sources.OverwriteTotalAntisymmetric | pkg/node/manager/manager.go:822 | Of two different sources exactly one may overwrite the other |
| Sources.OverwriteTransitive | pkg/node/manager/manager.go:822 | Overwrite permission is transitive |
| Sources.RestoredNeverOverwritesLive | pkg/node/manager/manager.go:822-829 | A restored record never replaces a live one, and any live source replaces a restored one |
| NodeRestApi.Models | pkg/node/manager/rest_api.go:107-115 | The node list of the status is the model of each node, in listing order |
| NodeRestApi.IndexOfName | pkg/node/manager/rest_api.go:161-163 | slices.IndexFunc by name: the first index holding the name, or -1 exactly when none does |
| NodeRestApi.ClusterNodesClient.constructor | pkg/node/manager/rest_api.go:79-85 | A new client has the client ID, the node's own name, empty lists and lastSync now |
| NodeRestApi.ClusterNodesClient.NodeAdd | pkg/node/manager/rest_api.go:132-137 | Appends the node's model to the added list, changes nothing else, returns nil |
| NodeRestApi.ClusterNodesClient.NodeUpdate | pkg/node/manager/rest_api.go:139-155 | A node on the added list is replaced in place there, and the removed list is unchanged. Otherwise the new node is appended to the added list and the old one to the removed list |
| NodeRestApi.ClusterNodesClient.NodeDelete | pkg/node/manager/rest_api.go:157-172 | A node on the added list is spliced out of it and not reported removed. Any other node is appended to the removed list |
| NodeRestApi.ClusterNodesClient.Poll | pkg/node/manager/rest_api.go:92-102 | The reply is the pending status; the status is reset to empty lists with the same client ID, and lastSync is now |
| NodeRestApi.ClusterNodesClient.NodeValidateImplementation | pkg/node/manager/rest_api.go:177-180 | A no-op that returns nil |
| NodeRestApi.GetClusterNodesHandler.constructor | pkg/node/manager/rest_api.go:36-41 | No clients and no subscriptions |
| NodeRestApi.GetClusterNodesHandler.CleanupClients | pkg/node/manager/rest_api.go:182-190 | Exactly the clients whose lastSync is older than the 15-minute GC timeout are unsubscribed and deleted |
| NodeRestApi.GetClusterNodesHandler.SubscribeClient | pkg/node/manager/rest_api.go:86 | The client joins the manager's handlers and receives one NodeAdd per listed node |
| NodeRestApi.GetClusterNodesHandler.Admit | pkg/node/manager/rest_api.go:79-102 | A fresh client is subscribed, the stale clients are cleaned up and the client is stored. The reply holds the full listing as added nodes, and the client's status is reset |
| NodeRestApi.GetClusterNodesHandler.Handle | pkg/node/manager/rest_api.go:43-105 | The client-ID branching. Without an ID the reply is the full status. A known ID gets its pending status and a reset. A random ID that collides or is 0 gets client ID 0 with the full list and no subscription. Otherwise a new client is admitted. No other client changes |
| NodeRestApi.SpliceOutContents | pkg/node/manager/rest_api.go:165 | slices.Delete of one element keeps the others in order and removes exactly that element |
| NodeRestApi.AddThenDeleteCancels | pkg/node/manager/rest_api.go:132-172 | A node added and then deleted between two polls leaves no trace in either list |
| NodeRestApi.AddThenUpdateRewrites | pkg/node/manager/rest_api.go:132-155 | An update of a node added since the last poll only rewrites its entry |
| MonitorTypes.MessageTypeEntries | pkg/monitor/api/types.go:77-87 | The registered names and the type each one maps to |
| MonitorTypes.MessageTypeNamesInverse | pkg/monitor/api/types.go:77-87 | The values of the name table are pairwise distinct, so the table has an inverse |
| MonitorTypes.NamesStartWithLetter | pkg/monitor/api/types.go:77-87 | No registered name can be mistaken for a decimal rendering |
| MonitorTypes.MessageTypeName | pkg/monitor/api/types.go:107-115 | A registered value gives the name registered for it. Any other value gives its decimal string |
| MonitorTypes.MessageTypeNameRoundTrip | pkg/monitor/api/types.go:77-115 | MessageTypeName(MessageTypeNames[n]) == n for every registered name |
| MonitorTypes.MessageTypeNameRegistered | pkg/monitor/api/types.go:107-115 | The result is a registered name if and only if the value is registered |
| MonitorTypes.MessageTypeNameInjective | pkg/monitor/api/types.go:107-115 | Different values never get the same name |
| MonitorTypes.SortByType | pkg/monitor/api/types.go:97-100 | A permutation (same length, same elements) of the names, strictly ordered by message type |
| MonitorTypes.AllMessageTypeNames | pkg/monitor/api/types.go:91-103 | Every registered name exactly once, ordered by underlying message type |
| MonitorTypes.IndexOfType | pkg/monitor/api/types.go:141-143 | The first index of the type, or -1 exactly when the filter lacks it |
| MonitorTypes.FilterPieces | pkg/monitor/api/types.go:118-121 | One piece per filter entry, each the entry's MessageTypeName |
| MonitorTypes.MessageTypeFilter.constructor | pkg/monitor/api/types.go:73 | An empty filter |
| MonitorTypes.MessageTypeFilter.Set | pkg/monitor/api/types.go:126-135 | A known name appends exactly its type and returns no error. An unknown name returns the "Unknown type" error and leaves the filter unchanged |
| MonitorTypes.MessageTypeFilter.String | pkg/monitor/api/types.go:117-124 | The empty filter renders as ""; otherwise splitting the text on ',' gives back one name per type, in filter order |
| MonitorTypes.MessageTypeFilter.Contains | pkg/monitor/api/types.go:141-143 | True exactly when the type occurs in the filter |
| MonitorTypes.NameHasNoComma | pkg/monitor/api/types.go:107-115 | No message-type name contains the separator of String |
| MonitorTypes.SplitJoin | pkg/monitor/api/types.go:123 | Splitting a comma-joined list of comma-free pieces gives the pieces back |
| MonitorTypes.FilterTextRoundTrip | pkg/monitor/api/types.go:117-135 | The String of a non-empty filter splits back into its names, and each registered entry maps back to its type through the name table that Set uses |
| MonitorTypes.TraceObservationPoint | pkg/monitor/api/types.go:182-187 | The mapped name of the point, or its decimal rendering for an unmapped point |
| MonitorTypes.TracePointsNamed | pkg/monitor/api/types.go:164-179 | Exactly the points 0 to 13 are named |
| MonitorTypes.TraceObservationPointCases | pkg/monitor/api/types.go:164-187 | A point below 14 gets a name, and any other point a number. Unnamed points never share a rendering |
| MonitorTypes.ResolveAgentType | pkg/monitor/api/types.go:248-254 | The mapped notification name, or the decimal rendering of the type |
| MonitorTypes.ResolveAgentTypeCases | pkg/monitor/api/types.go:219-254 | Types 0 to 10 get a name, and any other type a number. Unnamed types never share a rendering |
| MonitorTypes.PolicyMatchTypeString | pkg/monitor/api/types.go:464-482 | Exactly the seven known match types 0 to 6 get a name other than "unknown" |
| MonitorTypes.PolicyMatchTypeNames | pkg/monitor/api/types.go:441-482 | The known match types get pairwise different names, and every other value gets "unknown" |
| SourceRange.Swap16 | pkg/maps/lbmap/source_range.go:62 | The two bytes of the value are exchanged |
| SourceRange.Swap16Involution | pkg/maps/lbmap/source_range.go:59-72 | Swapping twice gives the value back |
| SourceRange.ByteOrderRoundTrip | pkg/maps/lbmap/source_range.go:59-72 | Network-to-host undoes host-to-network on either host byte order, and the other way round |
| SourceRange.CopyInto | pkg/maps/lbmap/source_range.go:183-186 | copy into a zeroed fixed array: the first bytes of the source, padded with zeros |
| SourceRange.CidrMask | pkg/maps/lbmap/source_range.go:79 | net.CIDRMask: a mask of that length exactly when it lies within 0..bits, otherwise nil |
| SourceRange.ToNetwork | pkg/maps/lbmap/source_range.go:59-65 | A copy differing only in RevNATID, which is converted to network order (both families) |
| SourceRange.ToHost | pkg/maps/lbmap/source_range.go:68-72 | A copy differing only in RevNATID, which is converted to host order (both families) |
| SourceRange.ToHostToNetwork | pkg/maps/lbmap/source_range.go:102-115 | ToHost(ToNetwork(k)) == k and ToNetwork(ToHost(k)) == k for both key families |
| SourceRange.GetCidr | pkg/maps/lbmap/source_range.go:74-83 | The key's address with a mask of PrefixLen - 32 ones over 32 bits (v4) or 128 bits (v6), or nil when that is out of range |
| SourceRange.SrcRangeKey | pkg/maps/lbmap/source_range.go:177-189 | The ipv6 flag selects the v6 variant. PrefixLen is the mask length plus 32. The padding is 0, the address has the family's size, and RevNATID is in network order |
| SourceRange.SrcRangeKeyRevNATID | pkg/maps/lbmap/source_range.go:84-86 | ToHost(srcRangeKey(...)).GetRevNATID() is the service's RevNATID |
| SourceRange.SrcRangeKeyGetCidr | pkg/maps/lbmap/source_range.go:117-126 | GetCIDR of a freshly built key recovers the range's address and mask length, over the family's width |
| SourceRange.V4RangeInV6Key | pkg/maps/lbmap/source_range.go:181-183 | An IPv4 range in a v6 key is stored IPv4-mapped |
| SourceRange.NonV4RangeInV4Key | pkg/maps/lbmap/source_range.go:185-186 | An address with no IPv4 form leaves a v4 key's address all zero |
| Sysdump.Select | cilium-cli/sysdump/sysdump.go:3076-3088 | The unlimited selection is no longer than its input |
| Sysdump.SelectMembers | cilium-cli/sysdump/sysdump.go:3076-3088 | An element is selected exactly when it is in the input and satisfies the filter |
| Sysdump.SelectConcat | cilium-cli/sysdump/sysdump.go:3078-3086 | Selection distributes over concatenation, so input order is kept |
| Sysdump.SelectAll | cilium-cli/sysdump/sysdump.go:3026-3028 | An always-true filter selects every element |
| Sysdump.Take | cilium-cli/sysdump/sysdump.go:3082 | A prefix of exactly `limit` elements when limit > 0 and the input is longer, and everything otherwise |
| Sysdump.FilterPodsBy | cilium-cli/sysdump/sysdump.go:3076-3088 | The first `limit` pods (all of them when limit <= 0) that satisfy the filter, in input order |
| Sysdump.FilterCrashedPods | cilium-cli/sysdump/sysdump.go:3035-3049 | The first `limit` pods with an init or regular container waiting in CrashLoopBackOff; only such pods, and all of them when unlimited |
| Sysdump.FilterRunningNotReadyPods | cilium-cli/sysdump/sysdump.go:3051-3058 | The first `limit` Running pods that are not ready; only such pods, and all of them when unlimited |
| Sysdump.FilterRestartedContainersPods | cilium-cli/sysdump/sysdump.go:3060-3074 | The first `limit` pods with an init or regular container restarted at least once; only such pods, and all of them when unlimited |
| Sysdump.FilterPodsProperties | cilium-cli/sysdump/sysdump.go:3076-3088 | At most `limit` pods when limit > 0. Only pods of the input that satisfy the filter, and all of them when limit <= 0 |
| Sysdump.AllPods | cilium-cli/sysdump/sysdump.go:3026-3028 | Every pod, in order |
| Sysdump.FilterPods | cilium-cli/sysdump/sysdump.go:3031-3033 | Exactly the pods whose node name is listed, in order |
| Sysdump.IsNodeInWhitelist | cilium-cli/sysdump/sysdump.go:3090-3102 | True exactly when the node's name or one of its status addresses is in the whitelist |
| Sysdump.AddressIn | cilium-cli/sysdump/sysdump.go:3095-3099 | True exactly when the entry is among the addresses |
| Sysdump.Names | cilium-cli/sysdump/sysdump.go:3012-3021 | The node names, in order |
| Sysdump.BuildNodeNameList | cilium-cli/sysdump/sysdump.go:3009-3023 | The names of the nodes kept by the whitelist parsed from the trimmed filter (all of them when its first entry is empty) |
| Sysdump.KeptNodeNames | cilium-cli/sysdump/sysdump.go:3012-3021 | The loop over the nodes lists, in node order, the name of every node the split whitelist keeps: all of them when its first entry is empty, otherwise the whitelisted ones |
| GoStrings.TrimSpaceIsSlice | cilium-cli/sysdump/sysdump.go:3010 | The trimmed filter is a contiguous part of the filter with only white space cut from its two ends |
| Sysdump.EmptyFilterSelectsAll | cilium-cli/sysdump/sysdump.go:3010-3015 | An empty or all-space filter lists every node name |
| Sysdump.LeadingCommaSelectsAll | cilium-cli/sysdump/sysdump.go:3010-3015 | A filter starting with ',' has an empty first whitelist entry and lists every node name |
| Sysdump.FilterSelectsWhitelisted | cilium-cli/sysdump/sysdump.go:3009-3023 | With a filter, a name is listed exactly when some node of that name has its name or an address in the whitelist |
| Sysdump.AddNewByNameProperties | cilium-cli/sysdump/sysdump.go:308-314 | Adding by name extends the list, keeps names distinct, covers every candidate's name and adds only candidates |
| Sysdump.Collector.constructor | cilium-cli/sysdump/sysdump.go:186-197 | The options are kept and the node and pod lists start empty |
| Sysdump.Collector.SelectAgentPods | cilium-cli/sysdump/sysdump.go:290-315 | The node list is built from the whitelist, and the agent pods are those on listed nodes. When logs from not-ready agents are wanted, the crashed, running-not-ready and restarted pods (5 of each) are added by name |
| Sysdump.Collector.AddNotReadyPods | cilium-cli/sysdump/sysdump.go:307-314 | Each pod whose name is not yet on the not-ready list is appended |
| Sysdump.NotReadyListHasDistinctNames | cilium-cli/sysdump/sysdump.go:302-314 | The not-ready list never holds two pods with the same name, covers every candidate's name and holds at most 15 pods |
| Sysdump.AddNewByNameLength | cilium-cli/sysdump/sysdump.go:307-314 | Adding by name grows the list by at most the number of candidates |
| Sysdump.ShouldSkipTask | cilium-cli/sysdump/sysdump.go:2202-2204 | True exactly when quick mode is on and the Task is not marked quick |
| Sysdump.HasContainer | cilium-cli/sysdump/sysdump.go:3002-3004 | True exactly when some container has the name |
| Sysdump.PodIsRunningAndHasContainer | cilium-cli/sysdump/sysdump.go:3000-3007 | True exactly when the phase is Running and some container has the name |
| Sysdump.GetPodMetricsPort | cilium-cli/sysdump/sysdump.go:2983-2996 | The first port with that name, in the first container of that name that has such a port, and an error exactly when no container of that name has one |
| Sysdump.RemoveTopDirectory | cilium-cli/sysdump/sysdump.go:2263-2270 | An error exactly when there is no '/'. Otherwise exactly the suffix after the first '/' |
| Sysdump.RemoveTopDirectoryInverse | cilium-cli/sysdump/sysdump.go:2263-2270 | Removing the top directory of top/rest gives rest |
| Sysdump.ExtractGopsProfileData | cilium-cli/sysdump/sysdump.go:2511-2522 | The trimmed text after "saved to: " on the first line containing it, and an error exactly when no line contains it |
| Sysdump.ExtractGopsProfileDataLine | cilium-cli/sysdump/sysdump.go:2511-2522 | A one-line "... saved to: <file>" output yields the trimmed file name |
| WatchStoreManager.AfterReady | pkg/kvstore/store/watchstoremgr.go:59-73 | A registered prefix is removed from the map. For an unregistered one, or one mapped to nil, the map is unchanged |
| WatchStoreManager.StartedBy | pkg/kvstore/store/watchstoremgr.go:60-72 | One start for a registered prefix, none otherwise |
| WatchStoreManager.ReadyTwiceStartsNothing | pkg/kvstore/store/watchstoremgr.go:59-73 | A second ready for the same prefix starts nothing and changes nothing |
| WatchStoreManager.ReadyTakesPending | pkg/kvstore/store/watchstoremgr.go:59-73 | ready takes exactly its own start out of the pending ones and keeps the nil entries |
| WatchStoreManager.Manager.constructor | pkg/kvstore/store/watchstoremgr.go:42-47 | An empty map, not running, nothing started |
| WatchStoreManager.Manager.Register | pkg/kvstore/store/watchstoremgr.go:51-57 | Panics, changing nothing, while running. Otherwise maps the prefix to the function, replacing any earlier one |
| WatchStoreManager.Manager.Ready | pkg/kvstore/store/watchstoremgr.go:59-73 | The map becomes AfterReady, and the log of starts grows by StartedBy |
| WatchStoreManager.Manager.StartRunning | pkg/kvstore/store/watchstoremgr.go:75-80 | The running flag is set, and a second call panics |
| WatchStoreManager.Manager.RunImmediate | pkg/kvstore/store/watchstoremgr.go:138-144 | Every registered function is started exactly once and only nil entries remain. A second Run panics before starting anything |
| RemoteCluster.ClusterStatus | pkg/clustermesh/operator/remote_cluster.go:131-156 | The Services flag is true when endpoint sync is off and otherwise the store's state. Nodes, Endpoints and Identities are always true. ServiceExports is set exactly when it is watched, to that store's state. Ready is the common Ready conjoined with every flag, a nil ServiceExports counting as true |
| RemoteCluster.ReadyIff | pkg/clustermesh/operator/remote_cluster.go:150-153 | Ready holds exactly when the connection is ready, services are synced unless endpoint sync is off, and service exports are synced whenever watched |
| RemoteCluster.NotReadyWithoutConnection | pkg/clustermesh/operator/remote_cluster.go:150-153 | A cluster whose connection is not ready is never ready |
| RemoteCluster.PlanRun | pkg/clustermesh/operator/remote_cluster.go:64-79 | Services are registered exactly when endpoint sync is on. Service exports are registered exactly when the MCS API is on and the remote cluster advertises them; otherwise they are drained and marked synced |
| RemoteCluster.PlanMatchesStatus | pkg/clustermesh/operator/remote_cluster.go:70-79 | Service exports are drained exactly when the status reports no ServiceExports flag for them |

## Left out

- The ipcache's current source per prefix (`GetMetadataSourceByPrefix`) is a parameter `existing` of NodeUpdated, a snapshot taken before the update. The ipcache itself is a foreign interface.
- Tunnel IPs, encryption keys and the label sets of the metadata written at `manager.go` lines 699-746 are not modelled. Only the prefix, the resource, the kind of fact and the owning source are kept. `nodeIdentityLabels` depends on label and option packages that are not part of this model; it is reduced to whether an identity override applies.
- `NumericIdentity.IsReservedIdentity` lives in `pkg/identity`, which is not part of this model. The reserved-identity table it consults is a parameter of the configuration (`Config.reservedIdentities`); the model does not fix which numbers it holds.
- Node IPs are assumed convertible by `netipx.FromStdIP` (4 or 16 bytes): `Ip` has no malformed value. The path at `manager.go` lines 965-971, where an unconvertible old InternalIP address is skipped with `continue` (so its ipset removal and its `RemoveMetadata` and `RemoveIdentityOverride` calls at lines 985-993 do not happen), is not modelled. `RemoveAddresses` and `RemoveNodeFromIPCache` always retract such an address.
- The split of the ipset into v4 and v6 sets is not modelled: one set holds the addresses of both families.
- Locks, goroutines, the job group and the background sync loop (`backgroundSync`, `singleBackgroundLoop`, `ClusterSizeDependantInterval`) are left out. Every operation is a sequential call.
- Metrics, logging and health reporting are left out. A handler's error only affects health reporting, so handler calls are recorded and their errors are not.
- Checkpoint file I/O and JSON encoding (`checkpoint`, `initNodeCheckpointer`, opening and decoding the file) are left out. A checkpoint read is a datatype (decoded nodes, or a failure). Checkpoint writes and triggers are recorded in a ghost log. Whether the trigger could be created is a parameter of Start.
- The order of `pkg/source` is an assumption of the model (see above): `Sources.Priority` is a strict rank.
- Subscribe's replay and the REST handler's full status are computed from the node table and the node listing. Go's map iteration order is not modelled: every loop over a map visits its keys in an unspecified order and is proved for all orders.
- Handler names and `AllNodeValidateImplementation`, which return constants or do nothing, are not modelled. Neither is `MessageTypeFilter.Type`.
- The random client ID and the clock of the REST handler are parameters of Handle. The REST response wrappers are not modelled.
- `AgentNotifyMessage.ToJSON`, `getJSON` and the notification message constructors of `types.go` are left out: they are JSON encoding.
- `SourceRangeKey4/6.String`, `New`, `SourceRangeValue` and `initSourceRange` are left out: they are text rendering and BPF map creation.
- SourceRange.GetCidr: `net.IPMask.Size` of a non-canonical mask is not modelled: masks are kept as their number of leading ones.
- The host byte order is a parameter (`Endianness`) of the source-range conversions.
- Sysdump.RemoveTopDirectory: the error text quotes the path with plain double quotes. Go's `%q` escaping is not modelled.
- `podutils.IsPodReady` is a field of the pod. The Kubernetes API calls of the collector (listing pods, nodes and config maps) and the rest of `NewCollector` and `Run` are left out. The helpers take the lists directly.
- `wait()`, the goroutines that run started functions, and `wsmSync.Run`'s watch of the sync canaries are left out. A sync event for a prefix is the Ready method. A ghost log records the starts.
- remoteCluster.Run is modelled as the plan of which stores it registers (`PlanRun`). The store watches, the cluster-add hooks, the prefix adapter and the kvstore prefixes are left out. So are `Stop`, `Remove` and the synced wait channels.
- WatchStoreManager.Manager.RunImmediate: a prefix registered with a nil function stays in the map after Run, as the code does (ready only deletes non-nil entries). So "the map is empty afterwards" holds only when no nil function was registered.

## Observations

These facts are implied by the code as written. Each is stated as a lemma:

- The ipset-entries check at `manager.go:964` never changes the outcome of an update: `NodeProjection.IPSetEntriesCheckSubsumed`.
- A cilium-internal IP whose cluster scope changes keeps its old fact: the diff at line 953 compares bare prefixes. See `NodeProjection.RescopedInternalIPKeepsOldFact`.
- A node filter starting with ',' selects every node, because the first whitelist entry is then empty (`sysdump.go` lines 3010-3015). See `Sysdump.LeadingCommaSelectsAll`.
- A `Restored` deletion removes a live record with the same identity from the node table, while skipping the ipcache. See `NodeManager.Manager.NodeDeleted`.
