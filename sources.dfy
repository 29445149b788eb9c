/**
 * Provenance tags of node records and ipcache facts, and the arbitration rule
 * `AllowOverwrite(existing, new)` that decides whether information from `new`
 * may replace information from `existing`.
 *
 * The sources form a priority order, strongest first: kube-apiserver, local,
 * kvstore, custom-resource, k8s, clustermesh, directory, api, generated,
 * restored, unspec. A source may overwrite every source of equal or lower
 * priority.
 */
module Sources {

  datatype Source =
    | Unspec
    | Restored
    | Generated
    | LocalAPI
    | Directory
    | ClusterMesh
    | Kubernetes
    | CustomResource
    | KVStore
    | Local
    | KubeAPIServer

  /** Position of a source in the priority order (higher wins). */
  function Priority(s: Source): nat
  {
    match s
    case Unspec => 0
    case Restored => 1
    case Generated => 2
    case LocalAPI => 3
    case Directory => 4
    case ClusterMesh => 5
    case Kubernetes => 6
    case CustomResource => 7
    case KVStore => 8
    case Local => 9
    case KubeAPIServer => 10
  }

  /** source.AllowOverwrite: `incoming` may replace data owned by `existing`. */
  predicate AllowOverwrite(existing: Source, incoming: Source): (r: bool)
    ensures incoming == existing ==> r
    ensures existing == Unspec ==> r
    ensures incoming == KubeAPIServer ==> r
    ensures existing == KubeAPIServer ==> (r <==> incoming == KubeAPIServer)
  {
    Priority(incoming) >= Priority(existing)
  }

  /** Priority identifies the source: no two sources share a rank. */
  lemma PriorityInjective(a: Source, b: Source)
    requires Priority(a) == Priority(b)
    ensures a == b
  {
  }

  /** A source may always refresh its own data. */
  lemma OverwriteReflexive(s: Source)
    ensures AllowOverwrite(s, s)
  {
  }

  /** Of two different sources exactly one may overwrite the other. */
  lemma OverwriteTotalAntisymmetric(a: Source, b: Source)
    ensures AllowOverwrite(a, b) || AllowOverwrite(b, a)
    ensures AllowOverwrite(a, b) && AllowOverwrite(b, a) ==> a == b
  {
    if AllowOverwrite(a, b) && AllowOverwrite(b, a) {
      PriorityInjective(a, b);
    }
  }

  lemma OverwriteTransitive(a: Source, b: Source, c: Source)
    requires AllowOverwrite(a, b) && AllowOverwrite(b, c)
    ensures AllowOverwrite(a, c)
  {
  }

  /** A restored record never outranks a record from a live source. */
  lemma RestoredNeverOverwritesLive(live: Source)
    requires live != Unspec && live != Restored
    ensures !AllowOverwrite(live, Restored)
    ensures AllowOverwrite(Restored, live)
  {
  }
}
