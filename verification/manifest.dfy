/** Graph snapshots and the change detector that compares two of them. */
module Manifest {

  /** dbt's content hash of a node: the hash algorithm and its digest. */
  datatype FileHash = FileHash(name: string, checksum: string)

  /** One node of a snapshot. `dependsOn` may name ids that are not in the
      snapshot (sources, macros, nodes of other projects). */
  datatype Node = Node(
    packageName: string,
    resourceType: string,
    tags: set<string>,
    checksum: FileHash,
    rawCode: string,
    dependsOn: set<string>)

  /** A loaded manifest: node id to node. */
  type Snapshot = map<string, Node>

  /** The two snapshots a comparison is made between. */
  datatype Comparator = Comparator(baseline: Snapshot, current: Snapshot)

  /** A node counts as edited when its checksum or its raw code changed. */
  predicate IsNodeModified(before: Node, after: Node)
  {
    before.checksum != after.checksum || before.rawCode != after.rawCode
  }

  /** Only the checksum and the raw code are compared: a change of package,
      resource type, tags or dependencies alone is no edit, and a change of
      either compared field alone is one. */
  lemma EditedOnlyByContent(n: Node, packageName: string, resourceType: string, tags: set<string>,
                            dependsOn: set<string>, checksum: FileHash, rawCode: string)
    ensures !IsNodeModified(n, n.(packageName := packageName, resourceType := resourceType,
                                  tags := tags, dependsOn := dependsOn))
    ensures IsNodeModified(n, n.(checksum := checksum)) <==> checksum != n.checksum
    ensures IsNodeModified(n, n.(rawCode := rawCode)) <==> rawCode != n.rawCode
  {
  }

  /** Ids of `current` that are new or whose content changed since `baseline`. */
  function ModifiedNodes(baseline: Snapshot, current: Snapshot): (r: set<string>)
    ensures r <= current.Keys
    ensures forall id :: id in current && id !in baseline ==> id in r
    ensures forall id :: id in baseline && id in current ==>
      (id in r <==> IsNodeModified(baseline[id], current[id]))
  {
    set id | id in current && (id !in baseline || IsNodeModified(baseline[id], current[id]))
  }

  /** Ids present only in `current`. */
  function AddedNodes(baseline: Snapshot, current: Snapshot): (r: set<string>)
    ensures forall id :: id in r <==> id in current && id !in baseline
  {
    current.Keys - baseline.Keys
  }

  /** Ids present only in `baseline`. */
  function RemovedNodes(baseline: Snapshot, current: Snapshot): (r: set<string>)
    ensures forall id :: id in r <==> id in baseline && id !in current
  {
    baseline.Keys - current.Keys
  }

  /** Every added node is also reported as modified. */
  lemma AddedAreModified(baseline: Snapshot, current: Snapshot)
    ensures AddedNodes(baseline, current) <= ModifiedNodes(baseline, current)
  {
  }

  /** `modified` splits into the added ids and the shared ids whose content changed. */
  lemma ModifiedIsAddedOrEdited(baseline: Snapshot, current: Snapshot)
    ensures ModifiedNodes(baseline, current)
         == AddedNodes(baseline, current)
          + (set id | id in baseline && id in current && IsNodeModified(baseline[id], current[id]))
  {
  }

  /** No id is both added and removed. */
  lemma AddedRemovedDisjoint(baseline: Snapshot, current: Snapshot)
    ensures AddedNodes(baseline, current) !! RemovedNodes(baseline, current)
  {
  }

  /** Added and removed depend on the key sets alone, never on node content. */
  lemma AddedRemovedOnlyKeys(b1: Snapshot, c1: Snapshot, b2: Snapshot, c2: Snapshot)
    requires b1.Keys == b2.Keys && c1.Keys == c2.Keys
    ensures AddedNodes(b1, c1) == AddedNodes(b2, c2)
    ensures RemovedNodes(b1, c1) == RemovedNodes(b2, c2)
  {
  }

  /** A snapshot compared with itself shows no change of any kind. */
  lemma SelfComparisonIsEmpty(g: Snapshot)
    ensures ModifiedNodes(g, g) == {}
    ensures AddedNodes(g, g) == {}
    ensures RemovedNodes(g, g) == {}
  {
  }

  /** A removed id is never reported as modified: `modified` only holds ids of
      the current snapshot. */
  lemma ModifiedRemovedDisjoint(baseline: Snapshot, current: Snapshot)
    ensures ModifiedNodes(baseline, current) !! RemovedNodes(baseline, current)
  {
  }
}
