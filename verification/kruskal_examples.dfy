/**
  Two small inputs on which the contract of `Kruskal.KruskalGroups` pins the
  groups that single linkage builds: a grouping that the merge loop of
  `tools/kruskal.py` would not produce is not the classes of any prefix of
  `d_sorted`.
  */
module KruskalExamples {
  import opened Wrappers
  import opened Sorting
  import opened Kruskal

  /** `abs(a - b)`, the distance between two numbers. */
  function AbsDiff(a: int, b: int): (d: int)
    ensures d >= 0 && (d == a - b || d == b - a)
  {
    if a >= b then a - b else b - a
  }

  /** In `d_sorted`, an edge below `ts[j]` comes before position `j`. */
  lemma SmallerFirst(ts: seq<Edge>, j: int, e: Edge)
    requires Sorted(EdgeLe, ts) && 0 <= j < |ts| && e in ts && EdgeLe(e, ts[j]) && e != ts[j]
    ensures exists i :: 0 <= i < j && ts[i] == e
  {
    var i :| 0 <= i < |ts| && ts[i] == e;
    if j < i {
      EdgeOrder();
      SortedPairs(EdgeLe, ts, j, i);
    }
  }

  /** Without processed edges, no walk leaves its start. */
  lemma NoLinkWithoutEdges(ts: seq<Edge>, x: int, y: int)
    requires x != y
    ensures !Linked(ts, 0, x, y)
  {
    if Linked(ts, 0, x, y) {
      LastEdge(ts, 0, x, y);
    }
  }

  /** A walk between two different positions ends along a processed edge. */
  lemma LastEdge(ts: seq<Edge>, stop: nat, x: int, y: int)
    requires Linked(ts, stop, x, y) && x != y
    ensures exists a :: Adjacent(ts, stop, a, y)
  {
    var w :| IsWalk(ts, stop, w) && w[0] == x && w[|w| - 1] == y;
    assert Adjacent(ts, stop, w[|w| - 2], w[|w| - 1]);
  }

  /** `ts` is `d_sorted` for `data` and `abs_diff`, as `SortedEdges` promises. */
  ghost predicate SortedFor(data: seq<int>, ts: seq<Edge>)
  {
    && Sorted(EdgeLe, ts)
    && forall e :: e in ts <==> 0 <= e.2 < e.1 < |data| && e.0 == AbsDiff(data[e.1], data[e.2])
  }

  /**
    `kruskal_groups([0, 1, 10, 11], abs_diff, 2)`: the first edge of
    `d_sorted` joins positions 1 and 0, so splitting the values as
    `[[0, 10], [1, 11]]` (positions 0 and 2, 1 and 3) is the class structure
    of no prefix.
    */
  lemma ClosestPairFirst(stop: nat)
    ensures !LinkedBy(SortedEdges([0, 1, 10, 11], AbsDiff), stop, None, [[0, 2], [1, 3]])
  {
    var ts := SortedEdges([0, 1, 10, 11], AbsDiff);
    FirstEdge(ts);
    ClosestCut(ts, stop);
  }

  /** The closest pair of `[0, 1, 10, 11]` is positions 1 and 0, at distance 1. */
  lemma FirstEdge(ts: seq<Edge>)
    requires SortedFor([0, 1, 10, 11], ts)
    ensures |ts| > 0 && ts[0] == (1, 1, 0)
  {
    assert (1, 1, 0) in ts;
    if ts[0] != (1, 1, 0) {
      SmallerFirst(ts, 0, (1, 1, 0));
    }
  }

  lemma ClosestCut(ts: seq<Edge>, stop: nat)
    requires |ts| > 0 && ts[0] == (1, 1, 0)
    ensures !LinkedBy(ts, stop, None, [[0, 2], [1, 3]])
  {
    var gs := [[0, 2], [1, 3]];
    if stop == 0 {
      NoLinkWithoutEdges(ts, 0, 2);
      assert 0 in gs[0] && 2 in gs[0];
    } else {
      assert !Together(gs, 1, 0);
    }
  }

  /**
    `kruskal_groups([0, 1, 2, 3], abs_diff, 2, d_max=3)`: linking positions
    2 and 3 needs the edge `(1, 3, 2)`, and `(1, 2, 1)` comes before it, so
    `[[0, 1], [2, 3]]` is the class structure of no prefix; the loop merges
    1 with 0 and then 2 with 1, giving `[[0, 1, 2], [3]]`.
    */
  lemma ChainBeforeCut(stop: nat)
    ensures !LinkedBy(SortedEdges([0, 1, 2, 3], AbsDiff), stop, Some(3), [[0, 1], [2, 3]])
  {
    var ts := SortedEdges([0, 1, 2, 3], AbsDiff);
    ChainEdges(ts);
    ChainCut(ts, stop);
  }

  /** The edges of `[0, 1, 2, 3]`: `(1, 2, 1)` is one, and the pair 3, 2 is at distance 1. */
  lemma ChainEdges(ts: seq<Edge>)
    requires SortedFor([0, 1, 2, 3], ts)
    ensures (1, 2, 1) in ts
    ensures forall j :: 0 <= j < |ts| ==> 0 <= ts[j].2 < ts[j].1 < 4 && (ts[j].1 == 3 && ts[j].2 == 2 ==> ts[j].0 == 1)
  {
    forall j | 0 <= j < |ts| ensures 0 <= ts[j].2 < ts[j].1 < 4 && (ts[j].1 == 3 && ts[j].2 == 2 ==> ts[j].0 == 1) {
      assert ts[j] in ts;
    }
  }

  lemma ChainCut(ts: seq<Edge>, stop: nat)
    requires Sorted(EdgeLe, ts) && (1, 2, 1) in ts
    requires forall j :: 0 <= j < |ts| ==> 0 <= ts[j].2 < ts[j].1 < 4 && (ts[j].1 == 3 && ts[j].2 == 2 ==> ts[j].0 == 1)
    ensures !LinkedBy(ts, stop, Some(3), [[0, 1], [2, 3]])
  {
    var gs := [[0, 1], [2, 3]];
    if LinkedBy(ts, stop, Some(3), gs) {
      assert 2 in gs[1] && 3 in gs[1];
      LastEdge(ts, stop, 2, 3);
      var a :| Adjacent(ts, stop, a, 3);
      var j :| 0 <= j < stop && j < |ts| && ((ts[j].1 == a && ts[j].2 == 3) || (ts[j].1 == 3 && ts[j].2 == a));
      var k :| 0 <= k < |gs| && ts[j].1 in gs[k] && ts[j].2 in gs[k];
      assert ts[j] == (1, 3, 2);
      SmallerFirst(ts, j, (1, 2, 1));
    }
  }
}
