# dbtlist core in Dafny

A model of the two pure components of `dbtlist`, a tool that lists the nodes
of a dbt project selected by a `--select` / `--exclude` / `--packages`
request, optionally relative to the changes between two manifests.

- **Change detector** (`ManifestComparator`, module `Manifest`): compares a
  baseline snapshot with a current one and reports modified, added and
  removed node ids.
- **Selector engine** (`DbtSelector`, modules `Selection` and `Closure`):
  evaluates a select expression (`state:modified[+]`, `resource_type:<v>`,
  `tag:<v>`, `<expr>+`, or a plain name), removes what the exclude
  expression selects, and keeps only nodes of the listed packages.

A snapshot (a loaded manifest) is a `map<string, Node>` from unique id to a
node record with `packageName`, `resourceType`, `tags`, `checksum` (dbt's
`FileHash`: algorithm name and digest), `rawCode` and `dependsOn`.

The downstream closure is defined as reachability: an id is downstream of a
seed set when a dependency chain of one or more steps leads from a seed to it
(`Closure.Reaches`). The program computes it by rescanning every node and
recursing on what it found, stopping when a scan finds nothing. When a cycle
is reachable from the seeds every scan finds something, so the recursion only
ends when Python's recursion limit raises an error
(`Closure.RescanDivergesWhenCycleReachable`).

The model computes the closure with a worklist over a visited set
(`Closure.Explore`, measure: the number of keys not yet visited) and proves
the result equal to the reachability definition. The program's own rescan is
modelled as well (`Closure.RescanDownstream`, with a fuel bound standing for
its unbounded recursion): whenever it returns, it returns the closure, and on
an acyclic graph it always returns within as many rounds as there are nodes.

Files: `wrappers.dfy` (Option, Result), `strings.dfy` (Python's `in`,
`split(".")[-1]`, `replace("+", "")`), `manifest.dfy`, `closure.dfy`,
`selector.dfy`, `scenarios.dfy` (concrete snapshots from the tests and a
three-node chain).

Behaviour of the program worth knowing:

- Excluding the same expression as the one selected does not always leave
  nothing. The exclude expression never gets state handling, so
  `--select state:modified --exclude state:modified` treats the exclude part
  as a name match. It keeps the modified nodes whose last id segment does
  not contain `state:modified` (`Selection.ExcludeStateIsNameFilter`); on
  the three-node chain that is all of them
  (`Scenarios.ChainExcludeStateKeepsModified`). For every non-state
  expression the result is empty (`Selection.ExcludeSameSelectsNothing`).
- The program computes the closure by recursive rescans. The model also
  computes it with a worklist (`Closure.Explore`), and the two are proved to
  agree whenever the rescan returns. The selector in the model
  (`Selection.ApplySelector`, `Selection.BaseSelection`) uses the worklist
  closure `Closure.Downstream`.
- For `state:modified` the selector uses the comparator's own current
  snapshot, not its own graph. Results are within the selector's snapshot
  when the comparator's current snapshot is that snapshot, or when a package
  filter is given.
- An expression starting with `state:` that contains `+` but not
  `state:modified` (say `state:new+`) is not expanded: it is a name match.

## Model

| member | source | states |
|---|---|---|
| Strings.Contains | dbtlist/selector.py:91 | `selector in node_name` holds exactly when the expression occurs as a contiguous block of the name |
| Strings.LastSegment | dbtlist/selector.py:90 | the segment is a dot-free suffix of the id that is either the whole id or preceded by a dot |
| Strings.LastSegmentUnique | dbtlist/selector.py:90 | only one string has those three properties, so the contract pins down `split(".")[-1]` |
| Strings.NoDotIsOwnSegment | dbtlist/selector.py:90 | an id without a dot is its own last segment |
| Strings.RemoveAll | dbtlist/selector.py:82 | no `+` is left, every other character keeps its count, and the string gets shorter when it had a `+` |
| Manifest.ModifiedNodes | dbtlist/manifest.py:50-73 | modified ids are ids of the current snapshot; every id new to it is modified; a shared id is modified iff the node-level change test holds for its two versions |
| Manifest.EditedOnlyByContent | dbtlist/manifest.py:65-73 | the node-level change test ignores package, resource type, tags and dependencies, and a node differing in checksum alone, or in raw code alone, counts as changed exactly when that field differs |
| Manifest.AddedNodes | dbtlist/manifest.py:75-79 | an id is added iff it is in the current snapshot and not in the baseline |
| Manifest.RemovedNodes | dbtlist/manifest.py:81-85 | an id is removed iff it is in the baseline and not in the current snapshot |
| Manifest.AddedAreModified | dbtlist/manifest.py:57-59 | every added id is also reported as modified |
| Manifest.ModifiedIsAddedOrEdited | dbtlist/manifest.py:57-73 | modified is exactly the added ids plus the shared ids whose checksum or raw code changed |
| Manifest.AddedRemovedDisjoint | dbtlist/manifest.py:75-85 | no id is both added and removed |
| Manifest.AddedRemovedOnlyKeys | dbtlist/manifest.py:75-85 | added and removed depend only on the two key sets, not on node content |
| Manifest.ModifiedRemovedDisjoint | dbtlist/manifest.py:57-63 | a removed id is never modified |
| Manifest.SelfComparisonIsEmpty | dbtlist/manifest.py:50-85 | a snapshot compared with itself has nothing modified, added or removed |
| Closure.DirectIsOneStep | dbtlist/selector.py:98-112 | one scan finds exactly the ids that are the second element of a one-step dependency chain starting at a seed |
| Closure.Explore | dbtlist/selector.py:96-119 | the worklist, started from a sound and partly closed visited set, returns exactly the ids reachable from the seeds, and it terminates on cyclic graphs too |
| Closure.Downstream | dbtlist/selector.py:96-119 | the closure holds only snapshot ids, and exactly those with a dependency chain of one or more steps from a seed; a seed is in it only if reachable itself |
| Closure.DownstreamMonotone | dbtlist/selector.py:96-119 | more seeds never give a smaller closure |
| Closure.DownstreamClosed | dbtlist/selector.py:100-108 | every node depending on a node of the closure is in the closure |
| Closure.DownstreamIdempotent | dbtlist/selector.py:96-119 | closing the closure together with the seeds gives the same closure |
| Closure.DownstreamUnfold | dbtlist/selector.py:114-117 | the closure is the direct dependents plus the closure of the direct dependents, the step the program recurses on |
| Closure.NoDirectNoDownstream | dbtlist/selector.py:115 | when no node depends directly on a seed, nothing is downstream |
| Closure.RescanDownstream | dbtlist/selector.py:96-119 | the program's rescan-and-recurse algorithm, whenever it returns, returns exactly the closure |
| Closure.RescanTerminatesWhenAcyclic | dbtlist/selector.py:114-117 | on an acyclic graph the rescan returns within as many rounds as there are nodes, with the closure |
| Closure.RescanDivergesWhenCycleReachable | dbtlist/selector.py:114-117 | when some node reachable from the seeds lies on a cycle, every scan finds something and the rescan runs out of any fuel |
| Closure.LayersNonEmpty | dbtlist/selector.py:114-115 | with a cycle reachable from the seeds, the k-th nested scan is non-empty for every k of at least one |
| Closure.ChainInLayer | dbtlist/selector.py:98-117 | the end of a dependency chain of k steps from the seeds is found by the k-th nested scan |
| Closure.RescanDivergesOnCycle | dbtlist/selector.py:114-117 | when a non-empty set is exactly its own direct dependents, every scan finds something and the rescan never returns, whatever the fuel |
| Selection.ApplySelector | dbtlist/selector.py:64-94 | an expression only ever selects ids of the snapshot |
| Selection.BaseSelection | dbtlist/selector.py:26-46 | the base selection fails exactly for a state selector without a comparison; a non-empty select without `state:modified` is the expression's own selection; otherwise it stays within the snapshot when the comparison is over it |
| Selection.Exclude | dbtlist/selector.py:48-51 | a given exclude removes exactly what it selects and nothing else; an absent or empty one changes nothing |
| Selection.FilterPackages | dbtlist/selector.py:53-60 | the filter only removes ids; with a non-empty list every kept id is a snapshot node of a listed package |
| Selection.SelectNodes | dbtlist/selector.py:18-62 | the request fails exactly for a state selector without a comparison; otherwise an id is in the result iff it is in the base selection, the exclude expression (when given) does not select it, and, with a non-empty package list, it is a snapshot node of a listed package |
| Selection.NoSelectorSelectsAll | dbtlist/selector.py:44-46 | with no or an empty select expression the selection is every id of the snapshot |
| Selection.StateSelectorNeedsComparison | dbtlist/selector.py:27-29 | a select containing `state:modified` without a comparison is an error, whatever the exclude and packages |
| Selection.StateModifiedSelectsModified | dbtlist/selector.py:37-39 | a select containing `state:modified` but not `state:modified+` selects exactly the modified ids |
| Selection.StateModifiedPlusSelectsDownstream | dbtlist/selector.py:33-36 | a select containing `state:modified+` selects the modified ids and exactly the ids reachable from them |
| Selection.FiltersMonotone | dbtlist/selector.py:48-60 | exclusion and package filtering preserve the subset order of selections |
| Selection.StatePlusIncludesState | dbtlist/selector.py:33-39 | with equal exclude and packages, `state:modified+` selects at least what `state:modified` selects |
| Selection.ResourceTypeSelectsExactly | dbtlist/selector.py:68-72 | `resource_type:v` selects exactly the nodes whose resource type is `v` |
| Selection.TagSelectsExactly | dbtlist/selector.py:74-78 | `tag:v` selects exactly the nodes tagged `v`, also when `v` contains `+` |
| Selection.PlainSelectorNotExpanded | dbtlist/selector.py:68-92 | an expression without `+` is a type, tag or name match, never an expansion, so the `+` recursion stops after one step |
| Selection.PlusSelectsDownstream | dbtlist/selector.py:80-85 | an untyped non-state expression with `+` selects the base (the expression with every `+` removed) and exactly the ids reachable from it |
| Selection.NameMatchExactly | dbtlist/selector.py:87-92 | in the name-match case an id is selected iff the expression occurs in its last dot-separated segment |
| Selection.ExcludedStateIsNameMatch | dbtlist/selector.py:80-92 | an expression starting with `state:` evaluated outside the select position is a name match |
| Selection.PackageFilterExactly | dbtlist/selector.py:53-60 | a non-empty package list keeps exactly the selected snapshot nodes of listed packages; an absent or empty list is a no-op |
| Selection.UnknownPackageSelectsNothing | dbtlist/selector.py:53-60 | filtering on a package no node belongs to selects nothing |
| Selection.ExcludeSameSelectsNothing | dbtlist/selector.py:41-51 | excluding the same non-state expression that was selected leaves nothing |
| Selection.ExcludeStateIsNameFilter | dbtlist/selector.py:26-51 | selecting and excluding `state:modified` succeeds and keeps exactly the modified ids that are not snapshot nodes whose last segment contains `state:modified` |
| Selection.ResourceTypeRequestSelectsType | dbtlist/selector.py:41-43 | a request selecting `resource_type:v`, with no exclude or packages, returns exactly the nodes of type `v` |
| Scenarios.ComparatorTestExample | tests/test_manifest.py:160-164 | in the comparator test the edited model is modified and the new model is added |
| Scenarios.ChainModified | dbtlist/manifest.py:57-63 | in the chain a -> b -> c with only a's checksum edited, only a is modified |
| Scenarios.ChainDownstream | dbtlist/selector.py:96-119 | downstream of a in that chain are exactly b and c |
| Scenarios.ChainStateModified | dbtlist/selector.py:37-39 | `state:modified` on the chain selects a alone |
| Scenarios.ChainStateModifiedPlus | dbtlist/selector.py:33-36 | `state:modified+` on the chain selects a, b and c |
| Scenarios.ChainNoStateName | dbtlist/selector.py:87-92 | `state:modified` as a name match selects no node of the chain |
| Scenarios.ChainExcludeStateKeepsModified | dbtlist/selector.py:48-51 | selecting and excluding `state:modified` on the chain still selects a |
| Scenarios.ModelsSelectsOnlyModels | tests/test_integration.py:51-57 | on any snapshot, a `resource_type:model` request returns every model and nothing but models |

## Left out

- `ManifestReader.load` and `ManifestReader.manifest` (dbtlist/manifest.py:19-32): reading JSON and dbt's `Manifest.from_dict` are file I/O and a foreign library; a snapshot is handed in as a map.
- `ManifestReader.get_node_names` (dbtlist/manifest.py:38-40): it is the snapshot's key set, written `g.Keys` where it is used.
- dbtlist/cli.py: option parsing, splitting of the `--packages` text, the output-name heuristics and printing are presentation around the core.
- The `hasattr` / `getattr` / `except AttributeError` guards of dbtlist/selector.py:77 and 101-112: node fields are always present here, and `dependsOn` may be empty.
- Tags and dependency lists are sets: the program only ever tests membership in them.
- The package filter's `if node` test on a found node: dbt node objects are always truthy, so it is modelled as the id being in the snapshot.
- The program's failure on cycles: the rescan gets a fuel bound and reports `None` when it runs out, standing for the `RecursionError` Python raises after about 1000 nested calls. The limit itself is not modelled, so a very deep acyclic chain, on which the program also fails, returns the closure in the model. The selector itself (`Selection.ApplySelector`, `Selection.BaseSelection`, `Selection.SelectNodes`) uses the worklist `Closure.Downstream`, so where a cycle is reachable from the seeds of a `+` expansion the model returns `Success` of the closure while the program raises `RecursionError`, which dbtlist/cli.py turns into an abort.
- Strings.RemoveAll: the contract gives the character counts of the result, not that the remaining characters keep their order.
