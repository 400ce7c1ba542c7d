/**
 The RPHAST matrix algorithm: the orchestration that turns a source and a
 destination location list into a matrix result.

 It allocates one table per requested metric, skips the search when one
 side has no valid node, strips unmapped locations before the search,
 re-expands the per-destination search result into the original column
 positions, hands it to the metric extractor and publishes the requested
 tables.

 The graph search and the metric extractor are collaborators whose code is
 not part of this model. The search is a pure function field with the one
 promise the orchestration relies on (one result per destination id). The
 extractor records the calls it receives, so that the order and the
 arguments of those calls can be stated; the values it writes into the
 tables are not modelled.
 */
module RphastMatrix {
  import opened Wrappers
  import opened NodeIds
  import opened Metrics

  /** The largest length of a Java array (and the largest Java `int`). */
  const JavaIntMax: int := 0x7fff_ffff

  /** The locations of one side of the matrix, resolved to graph node ids. */
  class MatrixLocations {
    /** One node id per location; `Unmapped` where resolution failed. */
    const nodeIds: array<int>
    /** Reported by the resolver; its relation to the node ids is not part
        of this model. */
    const hasValidNodes: bool

    constructor (nodeIds: array<int>, hasValidNodes: bool)
      ensures this.nodeIds == nodeIds && this.hasValidNodes == hasValidNodes
    {
      this.nodeIds := nodeIds;
      this.hasValidNodes := hasValidNodes;
    }

    /** The number of locations. */
    function Size(): nat {
      nodeIds.Length
    }
  }

  /** The published result: one flat table per metric, row-major by source
      then destination. */
  class MatrixResult {
    var tables: map<Metric, array<real>>

    constructor ()
      ensures tables == map[]
    {
      tables := map[];
    }

    method SetTable(metric: Metric, values: array<real>)
      modifies this
      ensures tables == old(tables)[metric := values]
    {
      tables := tables[metric := values];
    }
  }

  /** The table `res` publishes for metric `m`, or `null` when it publishes
      none. */
  function Published(res: MatrixResult, m: Metric): array?<real>
    reads res
  {
    if m in res.tables then res.tables[m] else null
  }

  /** A call the metric extractor received, with the location lists and the
      three (possibly `null`) tables it was given. */
  datatype ExtractorCall<T> =
    | EmptyValuesCall(srcIndex: nat, dstData: MatrixLocations,
                      times: array?<real>, distances: array?<real>, weights: array?<real>)
    | CalcValuesCall(destTrees: seq<Option<T>>, srcData: MatrixLocations, dstData: MatrixLocations,
                     times: array?<real>, distances: array?<real>, weights: array?<real>)

  /** The calls that fill the rows of sources `0 .. n-1` with empty values,
      one per source, in increasing order, all on the same tables. */
  function EmptyRows<T>(n: nat, dstData: MatrixLocations,
                        times: array?<real>, distances: array?<real>, weights: array?<real>): (r: seq<ExtractorCall<T>>)
    ensures |r| == n
    ensures forall i :: 0 <= i < n ==> r[i] == EmptyValuesCall(i, dstData, times, distances, weights)
  {
    if n == 0 then []
    else EmptyRows(n - 1, dstData, times, distances, weights) + [EmptyValuesCall(n - 1, dstData, times, distances, weights)]
  }

  /** The metric extractor, seen through the calls it receives. Both writers
      may change the tables they are given. */
  class MultiTreeMetricsExtractor<T> {
    var calls: seq<ExtractorCall<T>>

    constructor ()
      ensures calls == []
    {
      calls := [];
    }

    /** Fills row `srcIndex` of every given table with the empty value. */
    method SetEmptyValues(srcIndex: nat, dstData: MatrixLocations,
                          times: array?<real>, distances: array?<real>, weights: array?<real>)
      modifies this, times, distances, weights
      ensures calls == old(calls) + [EmptyValuesCall(srcIndex, dstData, times, distances, weights)]
    {
      calls := calls + [EmptyValuesCall(srcIndex, dstData, times, distances, weights)];
    }

    /** Fills every given table from the per-destination trees. */
    method CalcValues(destTrees: array<Option<T>>, srcData: MatrixLocations, dstData: MatrixLocations,
                      times: array?<real>, distances: array?<real>, weights: array?<real>)
      modifies this, times, distances, weights
      ensures calls == old(calls) + [CalcValuesCall(destTrees[..], srcData, dstData, times, distances, weights)]
    {
      calls := calls + [CalcValuesCall(destTrees[..], srcData, dstData, times, distances, weights)];
    }
  }

  class RphastMatrixAlgorithm<T> {
    const pathMetricsExtractor: MultiTreeMetricsExtractor<T>
    /** The RPHAST search (prepare, then calcPaths) over the prepared
        hierarchy: from the valid source ids and the valid destination ids to
        one multi-tree entry per destination id. */
    const search: (seq<int>, seq<int>) -> seq<T>

    /** The promise the orchestration relies on: the search returns one
        entry per destination id. */
    ghost predicate Valid() {
      forall srcIds, destIds :: |search(srcIds, destIds)| == |destIds|
    }

    constructor (extractor: MultiTreeMetricsExtractor<T>, search: (seq<int>, seq<int>) -> seq<T>)
      requires forall srcIds, destIds :: |search(srcIds, destIds)| == |destIds|
      ensures Valid() && pathMetricsExtractor == extractor && this.search == search
    {
      pathMetricsExtractor := extractor;
      this.search := search;
    }

    /** The node ids of `nodeIds` other than the sentinel, in order, in a new
        array. */
    method GetValidNodeIds(nodeIds: array<int>) returns (res: array<int>)
      ensures fresh(res) && res[..] == ValidIds(nodeIds[..])
    {
      var nodeList: seq<int> := [];
      for i := 0 to nodeIds.Length
        invariant nodeList == ValidIds(nodeIds[..i])
      {
        assert nodeIds[..i + 1][..i] == nodeIds[..i];
        var dst := nodeIds[i];
        if dst != Unmapped {
          nodeList := nodeList + [dst];
        }
      }
      assert nodeIds[..nodeIds.Length] == nodeIds[..];
      res := new int[|nodeList|];
      for i := 0 to |nodeList|
        invariant res[..i] == nodeList[..i]
      {
        res[i] := nodeList[i];
      }
      assert res[..] == res[..|nodeList|];
    }

    /** Places the k-th search result at the k-th mapped destination
        position; unmapped positions get `None`. The counter `j` ends at the
        number of results, so `destTrees` is never read out of bounds. */
    method ExpandDestTrees(dstNodeIds: array<int>, destTrees: seq<T>) returns (originalDestTrees: array<Option<T>>)
      requires |destTrees| == MappedCount(dstNodeIds[..])
      ensures originalDestTrees[..] == Expand(dstNodeIds[..], destTrees)
    {
      originalDestTrees := new Option<T>[dstNodeIds.Length](_ => None);
      ghost var ids := dstNodeIds[..];
      var j := 0;
      for i := 0 to dstNodeIds.Length
        invariant j == Rank(ids, i) && j <= |destTrees|
        invariant forall k :: 0 <= k < i && Mapped(ids[k]) ==>
                    Rank(ids, k) < |destTrees| && originalDestTrees[k] == Some(destTrees[Rank(ids, k)])
        invariant forall k :: 0 <= k < i && !Mapped(ids[k]) ==> originalDestTrees[k] == None
      {
        RankStep(ids, i);
        if dstNodeIds[i] != Unmapped {
          originalDestTrees[i] := Some(destTrees[j]);
          j := j + 1;
        } else {
          originalDestTrees[i] := None;
        }
      }
      ExpandUnique(ids, destTrees, originalDestTrees[..]);
    }

    /** The calls `Compute` makes on the extractor, given the tables it
        allocated. Without valid nodes on both sides: the rows of sources
        `0 .. size-1` are filled with empty values, in increasing order, and
        no search result is used. Otherwise: one `calcValues` call on the
        search result over the valid ids, re-expanded to every destination
        position. */
    ghost function ExtractorCalls(srcData: MatrixLocations, dstData: MatrixLocations,
                                  times: array?<real>, distances: array?<real>, weights: array?<real>)
      : seq<ExtractorCall<T>>
      requires Valid()
      reads srcData.nodeIds, dstData.nodeIds
    {
      if !srcData.hasValidNodes || !dstData.hasValidNodes then
        EmptyRows(srcData.Size(), dstData, times, distances, weights)
      else
        [CalcValuesCall(Expand(dstData.nodeIds[..],
                               search(ValidIds(srcData.nodeIds[..]), ValidIds(dstData.nodeIds[..]))),
                        srcData, dstData, times, distances, weights)]
    }

    /** One new table of `tableSize` cells for each requested metric, and
        `null` for each other one. */
    method AllocateTables(metrics: bv32, tableSize: nat)
      returns (times: array?<real>, distances: array?<real>, weights: array?<real>)
      ensures IsSet(metrics, Duration) ==> times != null && fresh(times) && times.Length == tableSize
      ensures IsSet(metrics, Distance) ==> distances != null && fresh(distances) && distances.Length == tableSize
      ensures IsSet(metrics, Weight) ==> weights != null && fresh(weights) && weights.Length == tableSize
      ensures !IsSet(metrics, Duration) ==> times == null
      ensures !IsSet(metrics, Distance) ==> distances == null
      ensures !IsSet(metrics, Weight) ==> weights == null
      ensures times != null ==> times != distances && times != weights
      ensures distances != null ==> distances != weights
    {
      times, distances, weights := null, null, null;
      if IsSet(metrics, Duration) {
        times := new real[tableSize];
      }
      if IsSet(metrics, Distance) {
        distances := new real[tableSize];
      }
      if IsSet(metrics, Weight) {
        weights := new real[tableSize];
      }
    }

    /** The branch taken when one side has no valid node: every source row
        is filled with empty values, in increasing source order. */
    method FillEmptyRows(srcData: MatrixLocations, dstData: MatrixLocations,
                         times: array?<real>, distances: array?<real>, weights: array?<real>)
      modifies pathMetricsExtractor, times, distances, weights
      ensures pathMetricsExtractor.calls ==
                old(pathMetricsExtractor.calls) + EmptyRows(srcData.Size(), dstData, times, distances, weights)
    {
      for srcIndex := 0 to srcData.Size()
        invariant pathMetricsExtractor.calls ==
                    old(pathMetricsExtractor.calls) + EmptyRows(srcIndex, dstData, times, distances, weights)
      {
        pathMetricsExtractor.SetEmptyValues(srcIndex, dstData, times, distances, weights);
      }
    }

    /** The branch taken when both sides have valid nodes: search over the
        valid ids, re-expand to every destination position, extract. */
    method SearchAndExtract(srcData: MatrixLocations, dstData: MatrixLocations,
                            times: array?<real>, distances: array?<real>, weights: array?<real>)
      requires Valid()
      modifies pathMetricsExtractor, times, distances, weights
      ensures pathMetricsExtractor.calls == old(pathMetricsExtractor.calls) +
                [CalcValuesCall(Expand(dstData.nodeIds[..],
                                       search(ValidIds(srcData.nodeIds[..]), ValidIds(dstData.nodeIds[..]))),
                                srcData, dstData, times, distances, weights)]
    {
      var srcIds := GetValidNodeIds(srcData.nodeIds);
      var destIds := GetValidNodeIds(dstData.nodeIds);

      var destTrees := search(srcIds[..], destIds[..]);

      var originalDestTrees := ExpandDestTrees(dstData.nodeIds, destTrees);

      pathMetricsExtractor.CalcValues(originalDestTrees, srcData, dstData, times, distances, weights);
    }

    /** Hands every requested table to the result, and no other table. */
    method PublishTables(mtxResult: MatrixResult, metrics: bv32,
                         times: array?<real>, distances: array?<real>, weights: array?<real>)
      requires IsSet(metrics, Duration) ==> times != null
      requires IsSet(metrics, Distance) ==> distances != null
      requires IsSet(metrics, Weight) ==> weights != null
      modifies mtxResult
      ensures mtxResult.tables.Keys == old(mtxResult.tables.Keys) + RequestedMetrics(metrics)
      ensures Published(mtxResult, Duration) == if IsSet(metrics, Duration) then times else old(Published(mtxResult, Duration))
      ensures Published(mtxResult, Distance) == if IsSet(metrics, Distance) then distances else old(Published(mtxResult, Distance))
      ensures Published(mtxResult, Weight) == if IsSet(metrics, Weight) then weights else old(Published(mtxResult, Weight))
    {
      if IsSet(metrics, Duration) {
        mtxResult.SetTable(Duration, times);
      }
      if IsSet(metrics, Distance) {
        mtxResult.SetTable(Distance, distances);
      }
      if IsSet(metrics, Weight) {
        mtxResult.SetTable(Weight, weights);
      }
    }

    /** The part of `Compute` before publication: the tables are allocated,
        then the extractor is called on them in the branch that the
        valid-node flags select. */
    method AllocateAndExtract(srcData: MatrixLocations, dstData: MatrixLocations, metrics: bv32, tableSize: nat)
      returns (times: array?<real>, distances: array?<real>, weights: array?<real>)
      requires Valid()
      modifies pathMetricsExtractor
      ensures IsSet(metrics, Duration) ==> times != null && fresh(times) && times.Length == tableSize
      ensures IsSet(metrics, Distance) ==> distances != null && fresh(distances) && distances.Length == tableSize
      ensures IsSet(metrics, Weight) ==> weights != null && fresh(weights) && weights.Length == tableSize
      ensures !IsSet(metrics, Duration) ==> times == null
      ensures !IsSet(metrics, Distance) ==> distances == null
      ensures !IsSet(metrics, Weight) ==> weights == null
      ensures times != null ==> times != distances && times != weights
      ensures distances != null ==> distances != weights
      ensures pathMetricsExtractor.calls == old(pathMetricsExtractor.calls) +
                ExtractorCalls(srcData, dstData, times, distances, weights)
    {
      times, distances, weights := AllocateTables(metrics, tableSize);
      if !srcData.hasValidNodes || !dstData.hasValidNodes {
        FillEmptyRows(srcData, dstData, times, distances, weights);
      } else {
        SearchAndExtract(srcData, dstData, times, distances, weights);
      }
    }

    /** The matrix for the given locations and metric mask. */
    method Compute(srcData: MatrixLocations, dstData: MatrixLocations, metrics: bv32) returns (mtxResult: MatrixResult)
      requires Valid()
      requires srcData.Size() * dstData.Size() <= JavaIntMax
      modifies pathMetricsExtractor
      ensures fresh(mtxResult)
      // exactly the requested metrics are published, each in a new table of
      // one cell per (source, destination) pair
      ensures mtxResult.tables.Keys == RequestedMetrics(metrics)
      ensures forall m :: m in mtxResult.tables ==>
                fresh(mtxResult.tables[m]) && mtxResult.tables[m].Length == srcData.Size() * dstData.Size()
      ensures forall m, m' :: m in mtxResult.tables && m' in mtxResult.tables && m != m' ==>
                mtxResult.tables[m] != mtxResult.tables[m']
      // the extractor gets exactly the calls of the branch taken, on the
      // published tables
      ensures pathMetricsExtractor.calls == old(pathMetricsExtractor.calls) +
                ExtractorCalls(srcData, dstData, Published(mtxResult, Duration),
                               Published(mtxResult, Distance), Published(mtxResult, Weight))
    {
      mtxResult := new MatrixResult();

      var tableSize := srcData.Size() * dstData.Size();
      var times, distances, weights := AllocateAndExtract(srcData, dstData, metrics, tableSize);
      ghost var calls := pathMetricsExtractor.calls;

      PublishTables(mtxResult, metrics, times, distances, weights);
      assert pathMetricsExtractor.calls == calls;
      assert Published(mtxResult, Duration) == times;
      assert Published(mtxResult, Distance) == distances;
      assert Published(mtxResult, Weight) == weights;
    }
  }
}
