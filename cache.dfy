/** The transposition cache the exhaustive search consults: position keys
    mapped to per-remaining-depth metric snapshots and a readiness flag.
    Only the three calls the search makes are modelled; how finished
    subtrees attach their snapshots is a policy the cache is built with. */
module Cache {
  import opened Position
  import opened Metrics

  /** A cache entry: whether its subtree is fully explored, the snapshots
      per remaining depth, and the target depth, node depth and stack size
      recorded when it was added. */
  datatype Entry = Entry(
    ready: bool,
    metrics: seq<DepthMetric>,
    targetDepth: nat,
    depth: nat,
    stackSize: nat)

  /** How addMetrics folds a node's metric into the entries of the subtrees
      it belongs to, given the target depth, the node's depth and the stack
      size at the time. */
  type AttachPolicy = (map<Key, Entry>, nat, nat, nat, DepthMetric) -> map<Key, Entry>

  class TranspositionCache {
    var entries: map<Key, Entry>
    const attach: AttachPolicy

    constructor (attach: AttachPolicy)
      ensures entries == map[] && this.attach == attach
    {
      entries := map[];
      this.attach := attach;
    }

    /** match: absent, present but not ready, or present and ready with the
        entry's snapshots. The depth argument does not take part. */
    method Match(key: Key, depth: nat) returns (ms: seq<DepthMetric>, ready: bool, ok: bool)
      ensures ok <==> key in entries
      ensures ok ==> ms == entries[key].metrics && ready == entries[key].ready
      ensures !ok ==> ms == [] && !ready
    {
      if key in entries {
        var e := entries[key];
        return e.metrics, e.ready, true;
      }
      return [], false, false;
    }

    /** add: reserve an entry for a key seen for the first time, not ready
        and without snapshots, so later visits see it in progress. */
    method Add(key: Key, targetDepth: nat, depth: nat, stackSize: nat)
      modifies this
      ensures entries == old(entries)[key := Entry(false, [], targetDepth, depth, stackSize)]
    {
      entries := entries[key := Entry(false, [], targetDepth, depth, stackSize)];
    }

    /** addMetrics: hand a freshly computed node metric to the entries. */
    method AddMetrics(targetDepth: nat, depth: nat, stackSize: nat, metric: DepthMetric)
      modifies this
      ensures entries == attach(old(entries), targetDepth, depth, stackSize, metric)
    {
      entries := attach(entries, targetDepth, depth, stackSize, metric);
    }
  }
}
