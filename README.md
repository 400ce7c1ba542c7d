# RPHAST matrix orchestration, modelled in Dafny

openrouteservice computes many-to-many travel matrices (duration, distance,
weight) with RPHAST, a range-restricted search over a contraction hierarchy.
`RPHASTMatrixAlgorithm.compute` is the step around that search. It does four
things:

- It allocates one `float[]` table of `|sources| * |destinations|` cells for
  each metric whose bit is set in the `metrics` mask.
- If either side has no valid nodes, it skips the search and asks the metric
  extractor to fill every source row with empty values.
- Otherwise it removes the unmapped locations (node id `-1`) from both id
  lists (`getValidNodeIds`) and runs the search on the valid ids. It then
  puts the per-destination result trees back into the original destination
  positions, with `null` at unmapped positions, and hands them to the
  extractor.
- It publishes exactly the requested tables on the result.

The model has three modules:

- `NodeIds` (`node_ids.dfy`) holds the specification functions on
  sequences: `ValidIds`, the sentinel filter; `Compact`, the general masked
  filter it instantiates; `Expand`, the re-expansion; and `Rank`, the number
  of mapped positions before an index. It also holds the lemmas relating
  them: order preservation, exact contents and length, and both directions
  of the compaction/expansion round trip.
- `Metrics` (`metrics.dfy`) holds the metric bitmask.
- `RphastMatrix` (`rphast_matrix.dfy`) holds the imperative class
  `RphastMatrixAlgorithm`. Its methods keep the loops and branches of the
  Java `compute` and `getValidNodeIds`:
  - `GetValidNodeIds` appends to a list, then copies the list into a new
    array. It is proved against `NodeIds.ValidIds`.
  - `ExpandDestTrees` walks the destinations with the separate counter `j`.
    It is proved against `NodeIds.Expand`, by way of `NodeIds.Rank`.
  - `AllocateTables` and `PublishTables` are proved against
    `Metrics.IsSet` and `Metrics.RequestedMetrics`.
  - `FillEmptyRows` is proved against `EmptyRows`. `SearchAndExtract` is
    proved against `NodeIds.ValidIds` and `NodeIds.Expand`.
  - `Compute` splits into `AllocateAndExtract` (allocation, then the branch
    on valid nodes) and `PublishTables`. Its contract states the published
    tables in terms of `Metrics.RequestedMetrics`. It states the extractor
    calls as `ExtractorCalls` applied to the published tables.
    `ExtractorCalls` is the ghost function that lists the calls of the
    branch taken (lines 64-91). Without valid nodes on either side, these
    are the empty-row calls for sources 0..size-1. Otherwise there is one
    `calcValues` call on the search result over the valid ids, re-expanded
    to every destination.

Collaborators whose code is not part of this model are stand-ins:

- The RPHAST search (`prepare`, then `calcPaths`) is the pure function field
  `search`. Its one promise is `Valid()`: it returns one entry per
  destination id.
- The metric extractor records each call it receives with all of its
  arguments: `EmptyValuesCall(srcIndex, dstData, times, distances, weights)`
  and `CalcValuesCall(trees, srcData, dstData, times, distances, weights)`.
  A table argument is `null` when its metric was not requested. The
  extractor may modify the tables it is given.
- The matrix result stores a map from metric to table.
- The location lists are node-id arrays with a `hasValidNodes` flag.

Java `null` is `None` of `Option` where the Java code stores a nullable
reference.

Two points of the Java code are easy to miss:

- Only the destination side is re-expanded in `compute`. `calcValues`
  receives `srcData` whole (line 90).
- An empty metric mask is not rejected. In that case no table is allocated
  (lines 57-62) and none is published (lines 93-98).

## Model

| member | source | states |
|---|---|---|
| NodeIds.Compact | openrouteservice/src/main/java/org/heigit/ors/matrix/algorithms/rphast/RPHASTMatrixAlgorithm.java:104-113 | The masked filter keeps exactly one entry per mapped position: its length is the number of non-sentinel ids |
| NodeIds.RankMonotone | openrouteservice/src/main/java/org/heigit/ors/matrix/algorithms/rphast/RPHASTMatrixAlgorithm.java:80-84 | The count of mapped positions before an index never decreases, and a mapped position strictly raises it for every later index |
| NodeIds.MappedCountSentinels | openrouteservice/src/main/java/org/heigit/ors/matrix/algorithms/rphast/RPHASTMatrixAlgorithm.java:104-111 | The number of valid ids equals the input length minus the number of `-1` entries |
| NodeIds.CompactAt | openrouteservice/src/main/java/org/heigit/ors/matrix/algorithms/rphast/RPHASTMatrixAlgorithm.java:105-113 | The entry at a mapped position i lands at index Rank(i) of the compacted sequence |
| NodeIds.CompactFrom | openrouteservice/src/main/java/org/heigit/ors/matrix/algorithms/rphast/RPHASTMatrixAlgorithm.java:105-113 | Every index of the compacted sequence is the rank of some mapped position, so nothing else enters it |
| NodeIds.ValidIdsNoSentinel | openrouteservice/src/main/java/org/heigit/ors/matrix/algorithms/rphast/RPHASTMatrixAlgorithm.java:104-113 | The valid node ids contain no `-1` |
| NodeIds.ValidIdsMultiset | openrouteservice/src/main/java/org/heigit/ors/matrix/algorithms/rphast/RPHASTMatrixAlgorithm.java:103-116 | The valid node ids are exactly the non-`-1` input ids, each as often as it occurs |
| NodeIds.ValidIdsInOrder | openrouteservice/src/main/java/org/heigit/ors/matrix/algorithms/rphast/RPHASTMatrixAlgorithm.java:103-116 | The valid ids are the non-`-1` ids as a subsequence in their original order: their length is the input length minus the sentinels; the map from mapped positions to ranks is strictly increasing; each mapped id sits at its rank; every output index comes from a mapped position |
| NodeIds.Expand | openrouteservice/src/main/java/org/heigit/ors/matrix/algorithms/rphast/RPHASTMatrixAlgorithm.java:78 | The re-expanded array has one entry per destination location |
| NodeIds.ExpandAt | openrouteservice/src/main/java/org/heigit/ors/matrix/algorithms/rphast/RPHASTMatrixAlgorithm.java:80-87 | At a `-1` position the re-expansion holds null; at a mapped position i it holds destTrees[j], where j is the number of mapped positions before i and j is in bounds |
| NodeIds.ExpandUnique | openrouteservice/src/main/java/org/heigit/ors/matrix/algorithms/rphast/RPHASTMatrixAlgorithm.java:78-88 | Any array that holds null at every `-1` position and destTrees[Rank(i)] at every mapped position i is the re-expansion Expand(ids, destTrees) |
| NodeIds.RankStep | openrouteservice/src/main/java/org/heigit/ors/matrix/algorithms/rphast/RPHASTMatrixAlgorithm.java:80-84 | One step of the loop: the counter j rises by one exactly at a mapped position and never passes the number of valid destinations |
| NodeIds.CompactExpand | openrouteservice/src/main/java/org/heigit/ors/matrix/algorithms/rphast/RPHASTMatrixAlgorithm.java:80-88 | Compacting the re-expanded array by the same mask gives back every entry of destTrees, in order |
| NodeIds.ExpandCompact | openrouteservice/src/main/java/org/heigit/ors/matrix/algorithms/rphast/RPHASTMatrixAlgorithm.java:72-88 | `getValidNodeIds` followed by re-expansion puts each entry back at its original mapped position and null at every `-1` position |
| Metrics.RequestedMetrics | openrouteservice/src/main/java/org/heigit/ors/matrix/algorithms/rphast/RPHASTMatrixAlgorithm.java:57-62 | A metric is requested exactly when its bit is set in the mask |
| RphastMatrix.EmptyRows | openrouteservice/src/main/java/org/heigit/ors/matrix/algorithms/rphast/RPHASTMatrixAlgorithm.java:64-66 | The empty-row calls for n sources: n calls, the i-th filling row i of the same dstData and tables. Built one row at a time, as the loop is |
| RphastMatrix.RphastMatrixAlgorithm.GetValidNodeIds | openrouteservice/src/main/java/org/heigit/ors/matrix/algorithms/rphast/RPHASTMatrixAlgorithm.java:103-116 | The returned array is new and holds exactly ValidIds of the input, i.e. the non-`-1` ids in order (the list-append loop and the copy loop) |
| RphastMatrix.RphastMatrixAlgorithm.ExpandDestTrees | openrouteservice/src/main/java/org/heigit/ors/matrix/algorithms/rphast/RPHASTMatrixAlgorithm.java:78-88 | Given one result per valid destination, the loop with counter j fills the array with Expand of the ids and results, and never reads destTrees out of bounds |
| RphastMatrix.RphastMatrixAlgorithm.AllocateTables | openrouteservice/src/main/java/org/heigit/ors/matrix/algorithms/rphast/RPHASTMatrixAlgorithm.java:52-62 | A requested metric gets a new table of exactly tableSize cells, and an unrequested one stays null. The non-null tables are pairwise distinct |
| RphastMatrix.RphastMatrixAlgorithm.FillEmptyRows | openrouteservice/src/main/java/org/heigit/ors/matrix/algorithms/rphast/RPHASTMatrixAlgorithm.java:64-66 | setEmptyValues is called once for each source index 0..size-1, in increasing order, each time with dstData and the given tables. Nothing else is called |
| RphastMatrix.RphastMatrixAlgorithm.SearchAndExtract | openrouteservice/src/main/java/org/heigit/ors/matrix/algorithms/rphast/RPHASTMatrixAlgorithm.java:67-91 | The extractor gets exactly one calcValues call. It carries the search result over the valid source and destination ids, re-expanded to every destination position, plus srcData, dstData and the given tables |
| RphastMatrix.RphastMatrixAlgorithm.AllocateAndExtract | openrouteservice/src/main/java/org/heigit/ors/matrix/algorithms/rphast/RPHASTMatrixAlgorithm.java:52-91 | The allocation facts of AllocateTables, and then the extractor receives exactly ExtractorCalls on the allocated tables |
| RphastMatrix.RphastMatrixAlgorithm.PublishTables | openrouteservice/src/main/java/org/heigit/ors/matrix/algorithms/rphast/RPHASTMatrixAlgorithm.java:93-98 | setTable is called for a metric exactly when its bit is set, with that metric's own table; no other table is published |
| RphastMatrix.RphastMatrixAlgorithm.Compute | openrouteservice/src/main/java/org/heigit/ors/matrix/algorithms/rphast/RPHASTMatrixAlgorithm.java:49-101 | The result is new and publishes exactly the requested metrics, each in its own new, distinct table of srcSize*dstSize cells. The extractor receives exactly ExtractorCalls on the published tables, which is null for each unrequested metric: empty rows 0..srcSize-1 in order when either side has no valid nodes, otherwise the single calcValues call on the re-expanded search result |

## Left out

- `init` (lines 40-46) is left out. It looks up the hierarchy preparation and
  builds the metric extractor from the request, both foreign library objects.
  The model's constructor takes the extractor and the search instead.
- The RPHAST search is left out: the upward and downward phases, the subgraph
  extraction, and how `prepare` and `calcPaths` share state. The model has
  one pure function in their place, promised to return one entry per
  destination id. "No search is run" is observable in the model only
  through the extractor, which then receives no `calcValues` call.
- What `MultiTreeMetricsExtractor.calcValues` and `setEmptyValues` write
  into the tables is left out (float values, unit conversion). The model's
  writers record their calls and may modify the tables they are given.
- The tables are `array<real>`, standing for `float[]`. No arithmetic is done
  on them.
- `MatrixResult` is reduced to its map from metric to table. The
  source and destination locations given to its constructor (line 50) are
  not kept.
- `MatrixLocations` is reduced to its node-id array and the `hasValidNodes`
  flag. `size()` is taken to be the length of `getNodeIds()`.
  `hasValidNodes` is a given flag and is not related to the `-1` filter.
- `MatrixMetricsType` is not part of this model. Its constants are taken to
  be 1, 2 and 4, and `isSet(metrics, t)` to be `(metrics & t) == t`.
- RphastMatrix.RphastMatrixAlgorithm.Compute: requires `srcData.size() *
  dstData.size()` to fit in a Java `int`. Beyond that the Java `int`
  product wraps around, and the allocation then throws or yields a table of
  the wrong size; that path is not modelled.
- The `throws Exception` paths and concurrency are left out: the code shown
  has no error logic of its own.
