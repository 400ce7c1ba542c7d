/**
 Node-id bookkeeping of the RPHAST matrix computation.

 The location resolver gives every matrix row (source) and column
 (destination) a graph node id, or the sentinel `Unmapped` when the
 location could not be placed on the graph. The search only ever sees the
 mapped ids (`ValidIds`); its per-destination results are put back into
 the full column index space by `Expand`. Both are defined here, as
 functions on sequences, together with the facts that relate them.

 All definitions recurse on the LAST element, the way the loops of the
 Java code extend their results one index at a time.
 */
module NodeIds {
  import opened Wrappers

  /** The node id of a location that could not be mapped onto the graph. */
  const Unmapped: int := -1

  predicate Mapped(id: int) {
    id != Unmapped
  }

  /** The number of mapped positions in `ids`. */
  function MappedCount(ids: seq<int>): (n: nat)
    ensures n <= |ids|
  {
    if ids == [] then 0
    else
      var k := |ids| - 1;
      MappedCount(ids[..k]) + (if Mapped(ids[k]) then 1 else 0)
  }

  /** How many positions before `i` are mapped: the index that position `i`
      has once the unmapped positions are squeezed out. */
  function Rank(ids: seq<int>, i: nat): nat
    requires i <= |ids|
  {
    MappedCount(ids[..i])
  }

  /** The entries of `xs` that stand at mapped positions of `ids`, in their
      original order. */
  function Compact<T>(ids: seq<int>, xs: seq<T>): (r: seq<T>)
    requires |ids| == |xs|
    ensures |r| == MappedCount(ids)
  {
    if ids == [] then []
    else
      var k := |ids| - 1;
      Compact(ids[..k], xs[..k]) + (if Mapped(ids[k]) then [xs[k]] else [])
  }

  /** The node ids handed to the search: every id of `ids` except the
      sentinel, in order. */
  function ValidIds(ids: seq<int>): seq<int> {
    Compact(ids, ids)
  }

  /** Puts one entry per mapped position back into the index space of
      `ids`; unmapped positions get `None`. */
  function Expand<T>(ids: seq<int>, trees: seq<T>): (r: seq<Option<T>>)
    requires |trees| == MappedCount(ids)
    ensures |r| == |ids|
  {
    if ids == [] then []
    else
      var k := |ids| - 1;
      if Mapped(ids[k]) then
        Expand(ids[..k], trees[..|trees| - 1]) + [Some(trees[|trees| - 1])]
      else
        Expand(ids[..k], trees) + [None]
  }

  /** Every entry of `xs`, wrapped as present. */
  function Present<T>(xs: seq<T>): (r: seq<Option<T>>)
    ensures |r| == |xs|
  {
    if xs == [] then [] else Present(xs[..|xs| - 1]) + [Some(xs[|xs| - 1])]
  }

  /** `xs` with the entries at unmapped positions of `ids` blanked out. */
  function Masked<T>(ids: seq<int>, xs: seq<T>): (r: seq<Option<T>>)
    requires |ids| == |xs|
    ensures |r| == |ids|
  {
    if ids == [] then []
    else
      var k := |ids| - 1;
      Masked(ids[..k], xs[..k]) + [if Mapped(ids[k]) then Some(xs[k]) else None]
  }

  // ---------------------------------------------------------------------
  // Counting

  /** Ranks never decrease along the sequence, and a mapped position
      strictly raises the rank of every later position. */
  lemma {:induction false} RankMonotone(ids: seq<int>, i: nat, k: nat)
    requires i <= k <= |ids|
    ensures Rank(ids, i) <= Rank(ids, k)
    ensures i < k && Mapped(ids[i]) ==> Rank(ids, i) < Rank(ids, k)
  {
    if i < k {
      assert ids[..k][..k - 1] == ids[..k - 1];
      RankMonotone(ids, i, k - 1);
    }
  }

  /** The mapped count is the length minus the number of sentinels. */
  lemma {:induction false} MappedCountSentinels(ids: seq<int>)
    ensures MappedCount(ids) == |ids| - multiset(ids)[Unmapped]
  {
    if ids != [] {
      var k := |ids| - 1;
      assert ids == ids[..k] + [ids[k]];
      MappedCountSentinels(ids[..k]);
    }
  }

  // ---------------------------------------------------------------------
  // Compaction

  /** A mapped position `i` lands at index `Rank(ids, i)` of the compacted
      sequence. */
  lemma {:induction false} CompactAt<T>(ids: seq<int>, xs: seq<T>, i: nat)
    requires |ids| == |xs| && i < |ids| && Mapped(ids[i])
    ensures Rank(ids, i) < |Compact(ids, xs)|
    ensures Compact(ids, xs)[Rank(ids, i)] == xs[i]
  {
    var k := |ids| - 1;
    RankMonotone(ids, i, |ids|);
    assert ids[..|ids|] == ids;
    if i < k {
      assert ids[..k][..i] == ids[..i];
      CompactAt(ids[..k], xs[..k], i);
    }
  }

  /** Every entry of the compacted sequence comes from some mapped position. */
  lemma {:induction false} CompactFrom<T>(ids: seq<int>, xs: seq<T>, r: nat)
    requires |ids| == |xs| && r < MappedCount(ids)
    ensures exists i :: 0 <= i < |ids| && Mapped(ids[i]) && Rank(ids, i) == r
  {
    var k := |ids| - 1;
    if r < MappedCount(ids[..k]) {
      CompactFrom(ids[..k], xs[..k], r);
      var i :| 0 <= i < k && Mapped(ids[..k][i]) && Rank(ids[..k], i) == r;
      assert ids[..k][..i] == ids[..i];
      assert Mapped(ids[i]) && Rank(ids, i) == r;
    } else {
      assert Mapped(ids[k]) && Rank(ids, k) == r;
    }
  }

  // ---------------------------------------------------------------------
  // The valid node ids

  /** Entry `r` of `v` is the id found at some mapped position of `ids`
      whose rank is `r`. */
  ghost predicate ComesFrom(ids: seq<int>, v: seq<int>, r: nat)
    requires r < |v|
  {
    exists i :: 0 <= i < |ids| && Mapped(ids[i]) && Rank(ids, i) == r && v[r] == ids[i]
  }

  /** The valid ids contain no sentinel. */
  lemma {:induction false} ValidIdsNoSentinel(ids: seq<int>)
    ensures Unmapped !in ValidIds(ids)
  {
    if ids != [] {
      var k := |ids| - 1;
      ValidIdsNoSentinel(ids[..k]);
    }
  }

  /** The valid ids are exactly the non-sentinel entries, each as often as
      it occurs. */
  lemma {:induction false} ValidIdsMultiset(ids: seq<int>)
    ensures multiset(ValidIds(ids)) == multiset(ids)[Unmapped := 0]
  {
    if ids != [] {
      var k := |ids| - 1;
      assert ids == ids[..k] + [ids[k]];
      ValidIdsMultiset(ids[..k]);
    }
  }

  /** The valid ids are the non-sentinel entries as a subsequence in their
      original order: a strictly increasing map from the mapped positions
      onto the indices of `ValidIds(ids)`. */
  lemma ValidIdsInOrder(ids: seq<int>)
    ensures |ValidIds(ids)| == |ids| - multiset(ids)[Unmapped]
    ensures forall i :: 0 <= i < |ids| && Mapped(ids[i]) ==>
              Rank(ids, i) < |ValidIds(ids)| && ValidIds(ids)[Rank(ids, i)] == ids[i]
    ensures forall i, k :: 0 <= i < k < |ids| && Mapped(ids[i]) ==> Rank(ids, i) < Rank(ids, k)
    ensures forall r :: 0 <= r < |ValidIds(ids)| ==> ComesFrom(ids, ValidIds(ids), r)
  {
    MappedCountSentinels(ids);
    forall i | 0 <= i < |ids| && Mapped(ids[i])
      ensures Rank(ids, i) < |ValidIds(ids)| && ValidIds(ids)[Rank(ids, i)] == ids[i]
    {
      CompactAt(ids, ids, i);
    }
    forall i, k | 0 <= i < k < |ids| && Mapped(ids[i])
      ensures Rank(ids, i) < Rank(ids, k)
    {
      RankMonotone(ids, i, k);
    }
    forall r | 0 <= r < |ValidIds(ids)|
      ensures ComesFrom(ids, ValidIds(ids), r)
    {
      CompactFrom(ids, ids, r);
      var i :| 0 <= i < |ids| && Mapped(ids[i]) && Rank(ids, i) == r;
      CompactAt(ids, ids, i);
      assert Mapped(ids[i]) && Rank(ids, i) == r && ValidIds(ids)[r] == ids[i];
    }
  }

  // ---------------------------------------------------------------------
  // Re-expansion

  /** Position `i` of the expansion is `None` at a sentinel and otherwise
      holds the entry whose index is the number of mapped positions before
      `i`. */
  lemma {:induction false} ExpandAt<T>(ids: seq<int>, trees: seq<T>, i: nat)
    requires |trees| == MappedCount(ids) && i < |ids|
    ensures Mapped(ids[i]) ==> Rank(ids, i) < |trees|
    ensures Expand(ids, trees)[i] == if Mapped(ids[i]) then Some(trees[Rank(ids, i)]) else None
  {
    var k := |ids| - 1;
    RankMonotone(ids, i, |ids|);
    assert ids[..|ids|] == ids;
    if i < k {
      assert ids[..k][..i] == ids[..i];
      if Mapped(ids[k]) {
        ExpandAt(ids[..k], trees[..|trees| - 1], i);
      } else {
        ExpandAt(ids[..k], trees, i);
      }
    }
  }

  /** The pointwise description of `ExpandAt` determines the expansion:
      any sequence that meets it is `Expand(ids, trees)`. */
  lemma ExpandUnique<T>(ids: seq<int>, trees: seq<T>, out: seq<Option<T>>)
    requires |trees| == MappedCount(ids) && |out| == |ids|
    requires forall k :: 0 <= k < |ids| && Mapped(ids[k]) ==>
               Rank(ids, k) < |trees| && out[k] == Some(trees[Rank(ids, k)])
    requires forall k :: 0 <= k < |ids| && !Mapped(ids[k]) ==> out[k] == None
    ensures out == Expand(ids, trees)
  {
    forall k | 0 <= k < |ids|
      ensures out[k] == Expand(ids, trees)[k]
    {
      ExpandAt(ids, trees, k);
    }
  }

  /** One more position raises the rank by one exactly when that position
      is mapped; the rank never passes the mapped count. */
  lemma RankStep(ids: seq<int>, i: nat)
    requires i < |ids|
    ensures Rank(ids, i + 1) == Rank(ids, i) + (if Mapped(ids[i]) then 1 else 0)
    ensures Rank(ids, i + 1) <= MappedCount(ids)
  {
    assert ids[..i + 1][..i] == ids[..i];
    RankMonotone(ids, i + 1, |ids|);
    assert ids[..|ids|] == ids;
  }

  /** Compacting an expansion by the same mask gives back every entry. */
  lemma {:induction false} CompactExpand<T>(ids: seq<int>, trees: seq<T>)
    requires |trees| == MappedCount(ids)
    ensures Compact(ids, Expand(ids, trees)) == Present(trees)
  {
    if ids != [] {
      var k := |ids| - 1;
      var e := Expand(ids, trees);
      if Mapped(ids[k]) {
        var m := |trees| - 1;
        assert e[..k] == Expand(ids[..k], trees[..m]);
        CompactExpand(ids[..k], trees[..m]);
      } else {
        assert e[..k] == Expand(ids[..k], trees);
        CompactExpand(ids[..k], trees);
      }
    }
  }

  /** Expanding a compaction restores every entry at a mapped position and
      blanks the rest. */
  lemma {:induction false} ExpandCompact<T>(ids: seq<int>, xs: seq<T>)
    requires |ids| == |xs|
    ensures Expand(ids, Compact(ids, xs)) == Masked(ids, xs)
  {
    if ids != [] {
      var k := |ids| - 1;
      var c := Compact(ids, xs);
      if Mapped(ids[k]) {
        assert c[..|c| - 1] == Compact(ids[..k], xs[..k]) && c[|c| - 1] == xs[k];
      } else {
        assert c == Compact(ids[..k], xs[..k]);
      }
      ExpandCompact(ids[..k], xs[..k]);
    }
  }
}
