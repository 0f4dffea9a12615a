/**
  `kruskal_groups` of `tools/kruskal.py`: single-linkage clustering. All
  pairs of positions are sorted by `(distance, i, j)`; pairs are merged with
  union-find in that order until a distance exceeds `d_max` or the number of
  groups reaches `nb_groups`; the groups are returned largest first.
  Distances are integers (they are only compared); `d_max = inf` is `None`.
  */
module Kruskal {
  import opened Wrappers
  import opened Seqs
  import opened UnionFind
  import opened Sorting

  /** `(dist(data[i], data[j]), i, j)`: one candidate edge, `j < i`. */
  type Edge = (int, int, int)

  /** Python's tuple order on edges. */
  function EdgeLe(a: Edge, b: Edge): bool
  {
    a.0 < b.0 || (a.0 == b.0 && (a.1 < b.1 || (a.1 == b.1 && a.2 <= b.2)))
  }

  lemma EdgeOrder()
    ensures TotalOrder(EdgeLe)
  {
  }

  /** Python's list order `a <= b`: the first difference decides, a proper prefix is smaller. */
  function LexLe(a: seq<int>, b: seq<int>): bool
  {
    if |a| == 0 then true
    else if |b| == 0 then false
    else if a[0] != b[0] then a[0] < b[0]
    else LexLe(a[1..], b[1..])
  }

  lemma {:induction false} LexTotal(a: seq<int>, b: seq<int>)
    ensures LexLe(a, b) || LexLe(b, a)
    decreases |a|
  {
    if |a| > 0 && |b| > 0 && a[0] == b[0] {
      LexTotal(a[1..], b[1..]);
    }
  }

  lemma {:induction false} LexTransitive(a: seq<int>, b: seq<int>, c: seq<int>)
    requires LexLe(a, b) && LexLe(b, c)
    ensures LexLe(a, c)
    decreases |a|
  {
    if |a| > 0 && |b| > 0 && |c| > 0 && a[0] == b[0] && b[0] == c[0] {
      LexTransitive(a[1..], b[1..], c[1..]);
    }
  }

  lemma {:induction false} LexAntisymmetric(a: seq<int>, b: seq<int>)
    requires LexLe(a, b) && LexLe(b, a)
    ensures a == b
    decreases |a|
  {
    if |a| > 0 {
      LexAntisymmetric(a[1..], b[1..]);
      assert a == [a[0]] + a[1..] && b == [b[0]] + b[1..];
    }
  }

  /** The order of the keys `(-len(gp), gp)`: longer groups first, then Python's list order. */
  function GroupLe(a: seq<int>, b: seq<int>): bool
  {
    |a| > |b| || (|a| == |b| && LexLe(a, b))
  }

  lemma GroupOrder()
    ensures TotalOrder(GroupLe)
  {
    forall a, b ensures GroupLe(a, b) || GroupLe(b, a) {
      LexTotal(a, b);
    }
    forall a, b, c | GroupLe(a, b) && GroupLe(b, c) ensures GroupLe(a, c) {
      if |a| == |b| == |c| {
        LexTransitive(a, b, c);
      }
    }
    forall a, b | GroupLe(a, b) && GroupLe(b, a) ensures a == b {
      LexAntisymmetric(a, b);
    }
  }

  /** The edges out of position `i`: `j` from 0 up to `i - 1`. */
  function Row(data: seq<int>, dist: (int, int) -> int, i: nat): (r: seq<Edge>)
    requires i < |data|
    ensures forall e :: e in r <==> e.1 == i && 0 <= e.2 < i && e.0 == dist(data[i], data[e.2])
  {
    var r := seq(i, j requires 0 <= j < i => (dist(data[i], data[j]), i, j));
    assert forall j | 0 <= j < i :: r[j] == (dist(data[i], data[j]), i, j);
    forall e: Edge | e.1 == i && 0 <= e.2 < i && e.0 == dist(data[i], data[e.2]) ensures e in r {
      assert r[e.2] == e;
    }
    r
  }

  /** The generator `((dist(data[i], data[j]), i, j) for i in range(n) for j in range(i))`. */
  function Edges(data: seq<int>, dist: (int, int) -> int, n: nat): (r: seq<Edge>)
    requires n <= |data|
    ensures forall e :: e in r <==> 0 <= e.2 < e.1 < n && e.0 == dist(data[e.1], data[e.2])
  {
    if n == 0 then [] else Edges(data, dist, n - 1) + Row(data, dist, n - 1)
  }

  /** `d_sorted`: every pair of positions once, in ascending `(distance, i, j)` order. */
  function SortedEdges(data: seq<int>, dist: (int, int) -> int): (ts: seq<Edge>)
    ensures Sorted(EdgeLe, ts)
    ensures forall e :: e in ts <==> 0 <= e.2 < e.1 < |data| && e.0 == dist(data[e.1], data[e.2])
  {
    EdgeOrder();
    var es := Edges(data, dist, |data|);
    var ts := Sort(EdgeLe, es);
    assert forall e :: e in ts <==> e in multiset(es);
    ts
  }

  /** `d > d_max`, with `None` standing for an infinite `d_max`. */
  predicate Exceeds(d: int, dMax: Option<int>)
  {
    dMax.Some? && d > dMax.value
  }

  /** `list(range(n))`. */
  function Range(n: nat): (r: seq<int>)
    ensures |r| == n && forall i :: 0 <= i < n ==> r[i] == i
    ensures NoDup(r)
  {
    seq(n, i => i)
  }

  /** The fresh forest over `range(n)` has one class per position. */
  lemma InitClasses(n: nat)
    ensures Init(Range(n)).keys == Range(n)
    ensures |RootSet(Init(Range(n)).parent)| == n
  {
    var p := Init(Range(n)).parent;
    assert RootSet(p) == set x | x in Range(n);
    NoDupCard(Range(n));
  }

  /** A union lowers the number of classes by one exactly when it reports a merge. */
  lemma UnionCount(f: Forest<int>, a: int, b: int)
    requires Valid(f) && a in f.parent && b in f.parent
    ensures |RootSet(Union(f, a, b).1.parent)| == |RootSet(f.parent)| - if Union(f, a, b).0 then 1 else 0
  {
    UnionClasses(f, a, b);
    assert Root(f.parent, a) in RootSet(f.parent);
  }

  /** A forest over `range(n)`, with the keys of `UnionFind(list(range(n)))`. */
  ghost predicate ForestOver(f: Forest<int>, n: nat)
  {
    Valid(f) && f.keys == Range(n)
  }

  lemma ForestOverHas(f: Forest<int>, n: nat, x: int)
    requires ForestOver(f, n) && 0 <= x < n
    ensures x in f.parent
  {
    assert Range(n)[x] == x;
    assert x in (set y | y in f.keys);
  }

  /** Every edge among the first `stop` ends inside one class. */
  ghost predicate Connected(f: Forest<int>, ts: seq<Edge>, stop: nat)
    requires Valid(f)
  {
    forall k :: 0 <= k < stop && k < |ts| ==>
      ts[k].1 in f.parent && ts[k].2 in f.parent && Root(f.parent, ts[k].1) == Root(f.parent, ts[k].2)
  }

  /** A union keeps joined pairs joined and joins its own pair. */
  lemma UnionConnects(f: Forest<int>, ts: seq<Edge>, stop: nat)
    requires Valid(f) && stop < |ts| && ts[stop].1 in f.parent && ts[stop].2 in f.parent
    requires Connected(f, ts, stop)
    ensures Valid(Union(f, ts[stop].1, ts[stop].2).1)
    ensures Connected(Union(f, ts[stop].1, ts[stop].2).1, ts, stop + 1)
  {
    var f' := Union(f, ts[stop].1, ts[stop].2).1;
    forall k | 0 <= k < stop + 1
      ensures ts[k].1 in f'.parent && ts[k].2 in f'.parent && Root(f'.parent, ts[k].1) == Root(f'.parent, ts[k].2)
    {
      assert Root(f'.parent, ts[k].1) == Root(f'.parent, ts[k].1);
      assert Root(f'.parent, ts[k].2) == Root(f'.parent, ts[k].2);
    }
  }

  /** The joined edges are among the first `stop` edges. */
  ghost predicate JoinedFrom(joined: seq<Edge>, ts: seq<Edge>, stop: nat)
    requires stop <= |ts|
  {
    forall e :: e in joined ==> e in ts[..stop]
  }

  lemma JoinedFromStep(joined: seq<Edge>, ts: seq<Edge>, stop: nat, merged: bool)
    requires stop < |ts| && JoinedFrom(joined, ts, stop)
    ensures JoinedFrom(if merged then joined + [ts[stop]] else joined, ts, stop + 1)
  {
    assert ts[..stop + 1] == ts[..stop] + [ts[stop]];
  }

  /** The first `stop` edges are no longer than `d_max`. */
  predicate WithinMax(ts: seq<Edge>, stop: nat, dMax: Option<int>)
    requires stop <= |ts|
  {
    forall k :: 0 <= k < stop ==> !Exceeds(ts[k].0, dMax)
  }

  lemma WithinMaxStep(ts: seq<Edge>, stop: nat, dMax: Option<int>)
    requires stop < |ts| && WithinMax(ts, stop, dMax) && !Exceeds(ts[stop].0, dMax)
    ensures WithinMax(ts, stop + 1, dMax)
  {
  }

  /** Every edge joins two positions of `range(n)`. */
  predicate EdgesIn(ts: seq<Edge>, n: nat)
  {
    forall k :: 0 <= k < |ts| ==> 0 <= ts[k].2 < ts[k].1 < n
  }

  /** The merge loop's variables: the forest, `current_nb_groups`, the edges that merged, the edges processed. */
  datatype MergeState = MergeState(forest: Forest<int>, count: int, joined: seq<Edge>, stop: nat)

  /** The state of the merge loop after `s.stop` edges, bundled. */
  ghost predicate MergeInv(n: nat, ts: seq<Edge>, nb: int, dMax: Option<int>, s: MergeState)
  {
    && s.stop <= |ts|
    && ForestOver(s.forest, n)
    && s.count == |RootSet(s.forest.parent)| == n - |s.joined|
    && nb <= s.count
    && WithinMax(ts, s.stop, dMax)
    && JoinedFrom(s.joined, ts, s.stop)
    && Connected(s.forest, ts, s.stop)
  }

  /** One pass of the loop body past the `d_max` test: `union(i, j)`, counting a merge. */
  function MergeOne(ts: seq<Edge>, s: MergeState): (r: MergeState)
    requires Valid(s.forest) && s.stop < |ts| && ts[s.stop].1 in s.forest.parent && ts[s.stop].2 in s.forest.parent
  {
    var e := ts[s.stop];
    var (merged, f') := Union(s.forest, e.1, e.2);
    if merged then MergeState(f', s.count - 1, s.joined + [e], s.stop + 1)
    else MergeState(f', s.count, s.joined, s.stop + 1)
  }

  /** The endpoints of the next edge are keys of the forest. */
  ghost predicate NextIn(ts: seq<Edge>, s: MergeState)
  {
    Valid(s.forest) && s.stop < |ts| && ts[s.stop].1 in s.forest.parent && ts[s.stop].2 in s.forest.parent
  }

  lemma MergeOneForest(n: nat, ts: seq<Edge>, s: MergeState)
    requires NextIn(ts, s) && ForestOver(s.forest, n)
    ensures ForestOver(MergeOne(ts, s).forest, n) && MergeOne(ts, s).stop == s.stop + 1
  {
  }

  lemma MergeOneCount(n: nat, ts: seq<Edge>, s: MergeState)
    requires NextIn(ts, s) && s.count == |RootSet(s.forest.parent)| == n - |s.joined|
    ensures Valid(MergeOne(ts, s).forest)
    ensures MergeOne(ts, s).count == |RootSet(MergeOne(ts, s).forest.parent)| == n - |MergeOne(ts, s).joined|
    ensures MergeOne(ts, s).count >= s.count - 1
  {
    UnionCount(s.forest, ts[s.stop].1, ts[s.stop].2);
  }

  lemma MergeOneJoined(ts: seq<Edge>, s: MergeState)
    requires NextIn(ts, s) && JoinedFrom(s.joined, ts, s.stop)
    ensures JoinedFrom(MergeOne(ts, s).joined, ts, s.stop + 1)
  {
    JoinedFromStep(s.joined, ts, s.stop, Union(s.forest, ts[s.stop].1, ts[s.stop].2).0);
  }

  lemma MergeOneConnected(ts: seq<Edge>, s: MergeState)
    requires NextIn(ts, s) && Connected(s.forest, ts, s.stop)
    ensures Valid(MergeOne(ts, s).forest) && Connected(MergeOne(ts, s).forest, ts, s.stop + 1)
  {
    UnionConnects(s.forest, ts, s.stop);
  }

  /** One pass of the merge loop keeps its invariant. */
  lemma MergeStep(n: nat, ts: seq<Edge>, nb: int, dMax: Option<int>, s: MergeState)
    requires EdgesIn(ts, n)
    requires MergeInv(n, ts, nb, dMax, s)
    requires s.stop < |ts| && !Exceeds(ts[s.stop].0, dMax) && nb < s.count
    ensures NextIn(ts, s)
    ensures MergeInv(n, ts, nb, dMax, MergeOne(ts, s))
  {
    ForestOverHas(s.forest, n, ts[s.stop].1);
    ForestOverHas(s.forest, n, ts[s.stop].2);
    MergeOneForest(n, ts, s);
    MergeOneCount(n, ts, s);
    MergeOneJoined(ts, s);
    MergeOneConnected(ts, s);
    WithinMaxStep(ts, s.stop, dMax);
  }

  /** Before the loop: `UnionFind(list(range(n)))`, `n` groups, nothing processed. */
  lemma MergeStart(n: nat, ts: seq<Edge>, nb: int, dMax: Option<int>)
    requires nb < n
    ensures MergeInv(n, ts, nb, dMax, MergeState(Init(Range(n)), n, [], 0))
  {
    InitClasses(n);
  }

  /** Processed edges are within `d_max`, so the merged ones are. */
  lemma JoinedWithinMax(joined: seq<Edge>, ts: seq<Edge>, stop: nat, dMax: Option<int>)
    requires stop <= |ts| && JoinedFrom(joined, ts, stop) && WithinMax(ts, stop, dMax)
    ensures forall e :: e in joined ==> e in ts[..stop] && !Exceeds(e.0, dMax)
  {
    forall e | e in joined ensures !Exceeds(e.0, dMax) {
      var k :| 0 <= k < stop && ts[..stop][k] == e;
      assert ts[k] == e;
    }
  }

  /** What the invariant says once the loop is over. */
  lemma MergeDone(n: nat, ts: seq<Edge>, nb: int, dMax: Option<int>, s: MergeState)
    requires MergeInv(n, ts, nb, dMax, s)
    ensures Valid(s.forest) && s.forest.keys == Range(n)
    ensures s.count == |RootSet(s.forest.parent)| == n - |s.joined|
    ensures nb <= s.count && s.stop <= |ts|
    ensures forall k :: 0 <= k < s.stop ==> !Exceeds(ts[k].0, dMax)
    ensures forall e :: e in s.joined ==> e in ts[..s.stop] && !Exceeds(e.0, dMax)
    ensures forall k :: 0 <= k < s.stop ==> ts[k].1 in s.forest.parent && ts[k].2 in s.forest.parent &&
                                            Root(s.forest.parent, ts[k].1) == Root(s.forest.parent, ts[k].2)
  {
    JoinedWithinMax(s.joined, ts, s.stop, dMax);
  }

  /**
    The loop over `d_sorted`: stop at the first edge longer than `d_max`,
    else union the edge and stop as soon as the group count reaches
    `nb_groups` (it only changes on a merge, so testing it before the next
    edge is the same as testing it after the merge). Every merge lowers the
    count by one; the count is the number of classes and never drops below
    `nb_groups`; every processed edge ends inside one class, every merge
    used an edge within `d_max`, and every position is joined to its class's
    root by a walk over processed edges.
    */
  method MergeEdges(data: seq<int>, dist: (int, int) -> int, ts: seq<Edge>, nb: int, dMax: Option<int>)
    returns (f: Forest<int>, count: int, joined: seq<Edge>, stop: nat)
    requires nb < |data|
    requires EdgesOf(data, dist, ts)
    ensures Valid(f) && f.keys == Range(|data|)
    ensures count == |RootSet(f.parent)| == |data| - |joined|
    ensures nb <= count
    ensures stop <= |ts|
    ensures forall k :: 0 <= k < stop ==> !Exceeds(ts[k].0, dMax)
    ensures stop < |ts| ==> Exceeds(ts[stop].0, dMax) || count == nb
    ensures forall e :: e in joined ==> e in ts[..stop] && !Exceeds(e.0, dMax)
    ensures forall k :: 0 <= k < stop ==> ts[k].1 in f.parent && ts[k].2 in f.parent && Root(f.parent, ts[k].1) == Root(f.parent, ts[k].2)
    ensures RootsLinked(ts, stop, f)
  {
    var n := |data|;
    MergeStart(n, ts, nb, dMax);
    InitLinked(ts, n);
    MergeFromLinked(n, ts, nb, dMax, MergeState(Init(Range(n)), n, [], 0));
    var s := MergeFrom(n, ts, nb, dMax, MergeState(Init(Range(n)), n, [], 0));
    MergeDone(n, ts, nb, dMax, s);
    f, count, joined, stop := s.forest, s.count, s.joined, s.stop;
  }

  /** The rest of the loop from state `s`: the `for ... break` written as a tail call. */
  function MergeFrom(n: nat, ts: seq<Edge>, nb: int, dMax: Option<int>, s: MergeState): (r: MergeState)
    requires EdgesIn(ts, n) && MergeInv(n, ts, nb, dMax, s)
    ensures MergeInv(n, ts, nb, dMax, r)
    ensures r.stop < |ts| ==> Exceeds(ts[r.stop].0, dMax) || r.count == nb
    decreases |ts| - s.stop
  {
    if s.stop == |ts| || s.count == nb || Exceeds(ts[s.stop].0, dMax) then s
    else
      MergeStep(n, ts, nb, dMax, s);
      MergeFrom(n, ts, nb, dMax, MergeOne(ts, s))
  }

  /** Every edge is `(dist(data[i], data[j]), i, j)` for two positions `j < i`. */
  predicate EdgesOf(data: seq<int>, dist: (int, int) -> int, ts: seq<Edge>)
  {
    forall k :: 0 <= k < |ts| ==> 0 <= ts[k].2 < ts[k].1 < |data| && ts[k].0 == dist(data[ts[k].1], data[ts[k].2])
  }

  /** Positions `x` and `y` are the two ends of one of the first `stop` edges. */
  predicate Adjacent(ts: seq<Edge>, stop: nat, x: int, y: int)
  {
    exists k :: 0 <= k < stop && k < |ts| && ((ts[k].1 == x && ts[k].2 == y) || (ts[k].1 == y && ts[k].2 == x))
  }

  /** A walk through positions, every step along one of the first `stop` edges. */
  predicate IsWalk(ts: seq<Edge>, stop: nat, w: seq<int>)
  {
    |w| > 0 && forall k :: 0 < k < |w| ==> Adjacent(ts, stop, w[k - 1], w[k])
  }

  /** Some walk over the first `stop` edges leads from position `x` to position `y`. */
  ghost predicate Linked(ts: seq<Edge>, stop: nat, x: int, y: int)
  {
    exists w :: IsWalk(ts, stop, w) && w[0] == x && w[|w| - 1] == y
  }

  lemma LinkedSelf(ts: seq<Edge>, stop: nat, x: int)
    ensures Linked(ts, stop, x, x)
  {
    assert IsWalk(ts, stop, [x]);
  }

  lemma LinkedAdjacent(ts: seq<Edge>, stop: nat, x: int, y: int)
    requires Adjacent(ts, stop, x, y)
    ensures Linked(ts, stop, x, y)
  {
    assert IsWalk(ts, stop, [x, y]);
  }

  /** A walk read backwards is a walk. */
  lemma LinkedSym(ts: seq<Edge>, stop: nat, x: int, y: int)
    requires Linked(ts, stop, x, y)
    ensures Linked(ts, stop, y, x)
  {
    var w :| IsWalk(ts, stop, w) && w[0] == x && w[|w| - 1] == y;
    var v := seq(|w|, k requires 0 <= k < |w| => w[|w| - 1 - k]);
    forall k | 0 < k < |v| ensures Adjacent(ts, stop, v[k - 1], v[k]) {
      assert Adjacent(ts, stop, w[|w| - k - 1], w[|w| - k]);
    }
    assert IsWalk(ts, stop, v) && v[0] == y && v[|v| - 1] == x;
  }

  /** Two walks meeting at `y` make one. */
  lemma LinkedTrans(ts: seq<Edge>, stop: nat, x: int, y: int, z: int)
    requires Linked(ts, stop, x, y) && Linked(ts, stop, y, z)
    ensures Linked(ts, stop, x, z)
  {
    var u :| IsWalk(ts, stop, u) && u[0] == x && u[|u| - 1] == y;
    var v :| IsWalk(ts, stop, v) && v[0] == y && v[|v| - 1] == z;
    var w := u + v[1..];
    forall k | 0 < k < |w| ensures Adjacent(ts, stop, w[k - 1], w[k]) {
      if k < |u| {
        assert w[k - 1] == u[k - 1] && w[k] == u[k];
      } else if k == |u| {
        assert w[k - 1] == v[0] && w[k] == v[1];
      } else {
        assert w[k - 1] == v[k - |u|] && w[k] == v[k - |u| + 1];
      }
    }
    assert IsWalk(ts, stop, w) && w[0] == x && w[|w| - 1] == z;
  }

  /** A walk over the first `stop` edges is a walk over the first `stop + 1`. */
  lemma LinkedMore(ts: seq<Edge>, stop: nat, x: int, y: int)
    requires Linked(ts, stop, x, y)
    ensures Linked(ts, stop + 1, x, y)
  {
    var w :| IsWalk(ts, stop, w) && w[0] == x && w[|w| - 1] == y;
    forall k | 0 < k < |w| ensures Adjacent(ts, stop + 1, w[k - 1], w[k]) {
      assert Adjacent(ts, stop, w[k - 1], w[k]);
    }
    assert IsWalk(ts, stop + 1, w);
  }

  /** Every key of the forest is linked to its root by the first `stop` edges. */
  ghost predicate RootsLinked(ts: seq<Edge>, stop: nat, f: Forest<int>)
    requires Valid(f)
  {
    forall x :: x in f.parent ==> Linked(ts, stop, x, Root(f.parent, x))
  }

  lemma InitLinked(ts: seq<Edge>, n: nat)
    ensures RootsLinked(ts, 0, Init(Range(n)))
  {
    var f := Init(Range(n));
    forall x | x in f.parent ensures Linked(ts, 0, x, Root(f.parent, x)) {
      LinkedSelf(ts, 0, x);
    }
  }

  /** A key of `a`'s class is linked to `b`'s root through the edge `a`, `b`. */
  lemma LinkedAcross(ts: seq<Edge>, stop: nat, x: int, ra: int, a: int, b: int, rb: int)
    requires Linked(ts, stop, x, ra) && Linked(ts, stop, a, ra)
    requires Adjacent(ts, stop, a, b) && Linked(ts, stop, b, rb)
    ensures Linked(ts, stop, x, rb)
  {
    LinkedSym(ts, stop, a, ra);
    LinkedAdjacent(ts, stop, a, b);
    LinkedTrans(ts, stop, x, ra, a);
    LinkedTrans(ts, stop, x, a, b);
    LinkedTrans(ts, stop, x, b, rb);
  }

  /** After `union(i, j)` on edge `stop`, a key is linked to its root by the edges up to that one. */
  lemma UnionLinked(ts: seq<Edge>, stop: nat, f: Forest<int>, x: int)
    requires Valid(f) && stop < |ts| && ts[stop].1 in f.parent && ts[stop].2 in f.parent && x in f.parent
    requires RootsLinked(ts, stop, f)
    ensures Linked(ts, stop + 1, x, Root(Union(f, ts[stop].1, ts[stop].2).1.parent, x))
  {
    var p := f.parent;
    var (a, b) := (ts[stop].1, ts[stop].2);
    var q := Union(f, a, b).1.parent;
    LinkedMore(ts, stop, x, Root(p, x));
    if Root(p, x) == Root(p, a) {
      LinkedMore(ts, stop, a, Root(p, a));
      LinkedMore(ts, stop, b, Root(p, b));
      assert Adjacent(ts, stop + 1, a, b);
      LinkedAcross(ts, stop + 1, x, Root(p, a), a, b, Root(p, b));
      assert Root(q, x) == Root(p, b);
    } else {
      assert Root(q, x) == Root(p, x);
    }
  }

  /** Merging along the next edge keeps every key linked to its root by the processed edges. */
  lemma MergeOneLinked(ts: seq<Edge>, s: MergeState)
    requires NextIn(ts, s) && RootsLinked(ts, s.stop, s.forest)
    ensures Valid(MergeOne(ts, s).forest) && RootsLinked(ts, MergeOne(ts, s).stop, MergeOne(ts, s).forest)
  {
    var e := ts[s.stop];
    var f' := Union(s.forest, e.1, e.2).1;
    assert MergeOne(ts, s).forest == f' && MergeOne(ts, s).stop == s.stop + 1;
    forall x | x in f'.parent ensures Linked(ts, s.stop + 1, x, Root(f'.parent, x)) {
      UnionLinked(ts, s.stop, s.forest, x);
    }
  }

  /** The rest of the loop keeps every key linked to its root by the processed edges. */
  lemma {:induction false} MergeFromLinked(n: nat, ts: seq<Edge>, nb: int, dMax: Option<int>, s: MergeState)
    requires EdgesIn(ts, n) && MergeInv(n, ts, nb, dMax, s)
    requires RootsLinked(ts, s.stop, s.forest)
    ensures RootsLinked(ts, MergeFrom(n, ts, nb, dMax, s).stop, MergeFrom(n, ts, nb, dMax, s).forest)
    decreases |ts| - s.stop
  {
    if s.stop == |ts| || s.count == nb || Exceeds(ts[s.stop].0, dMax) {
      assert MergeFrom(n, ts, nb, dMax, s) == s;
    } else {
      MergeStep(n, ts, nb, dMax, s);
      MergeOneLinked(ts, s);
      MergeOneForest(n, ts, s);
      var s' := MergeOne(ts, s);
      MergeFromLinked(n, ts, nb, dMax, s');
      assert MergeFrom(n, ts, nb, dMax, s) == MergeFrom(n, ts, nb, dMax, s');
    }
  }

  /** Every entry of `g` is a position of a list of length `n`. */
  predicate InRange(g: seq<int>, n: int)
  {
    forall k :: 0 <= k < |g| ==> 0 <= g[k] < n
  }

  /** `[data[i] for i in g]`. */
  function Pick(data: seq<int>, g: seq<int>): (r: seq<int>)
    requires InRange(g, |data|)
    ensures |r| == |g| && forall k :: 0 <= k < |g| ==> r[k] == data[g[k]]
  {
    if |g| == 0 then [] else [data[g[0]]] + Pick(data, g[1..])
  }

  /** `out`: every index group turned into a group of values. */
  function PickAll(data: seq<int>, gs: seq<seq<int>>): (r: seq<seq<int>>)
    requires forall i :: 0 <= i < |gs| ==> InRange(gs[i], |data|)
    ensures |r| == |gs| && forall k :: 0 <= k < |gs| ==> r[k] == Pick(data, gs[k])
  {
    if |gs| == 0 then [] else [Pick(data, gs[0])] + PickAll(data, gs[1..])
  }

  lemma PickAppend(data: seq<int>, a: seq<int>, b: seq<int>)
    requires InRange(a, |data|) && InRange(b, |data|)
    ensures InRange(a + b, |data|)
    ensures Pick(data, a + b) == Pick(data, a) + Pick(data, b)
  {
    forall k | 0 <= k < |a + b| ensures 0 <= (a + b)[k] < |data| {
      if k >= |a| {
        assert (a + b)[k] == b[k - |a|];
      }
    }
    var l, r := Pick(data, a + b), Pick(data, a) + Pick(data, b);
    forall k | 0 <= k < |l| ensures l[k] == r[k] {
      if k >= |a| {
        assert (a + b)[k] == b[k - |a|];
      }
    }
  }

  /** Removing the entry at `k` removes one copy of it from the multiset. */
  lemma RemoveAt<T>(b: seq<T>, k: int)
    requires 0 <= k < |b|
    ensures b == b[..k] + [b[k]] + b[k + 1..]
    ensures multiset(b[..k] + b[k + 1..]) == multiset(b) - multiset{b[k]}
  {
    assert b == b[..k] + [b[k]] + b[k + 1..];
    assert multiset(b) == multiset(b[..k]) + multiset{b[k]} + multiset(b[k + 1..]);
  }

  /** Dropping the index at `k` drops one copy of its value. */
  lemma PickRemoveAt(data: seq<int>, b: seq<int>, k: int)
    requires InRange(b, |data|) && 0 <= k < |b|
    ensures InRange(b[..k] + b[k + 1..], |data|)
    ensures multiset(Pick(data, b)) == multiset(Pick(data, b[..k] + b[k + 1..])) + multiset{data[b[k]]}
  {
    var b' := b[..k] + b[k + 1..];
    DropAt(b, k);
    var r := Pick(data, b);
    var r' := Pick(data, b');
    DropAt(r, k);
    var s := r[..k] + r[k + 1..];
    forall i | 0 <= i < |r'| ensures r'[i] == s[i] {
      assert r'[i] == data[b'[i]];
    }
    assert r' == s;
    RemoveAt(r, k);
  }

  /** The entries of `b` with the one at `k` dropped. */
  lemma DropAt<T>(b: seq<T>, k: int)
    requires 0 <= k < |b|
    ensures |b[..k] + b[k + 1..]| == |b| - 1
    ensures forall i :: 0 <= i < |b| - 1 ==> (b[..k] + b[k + 1..])[i] == if i < k then b[i] else b[i + 1]
  {
    var b' := b[..k] + b[k + 1..];
    forall i | 0 <= i < |b'| ensures b'[i] == if i < k then b[i] else b[i + 1] {
      if i >= k {
        assert b'[i] == b[k + 1..][i - k];
      }
    }
  }

  /** Picking the values of a rearranged index list rearranges the values. */
  lemma {:induction false} PickPermutation(data: seq<int>, a: seq<int>, b: seq<int>)
    requires InRange(a, |data|) && InRange(b, |data|)
    requires multiset(a) == multiset(b)
    ensures multiset(Pick(data, a)) == multiset(Pick(data, b))
    decreases |a|
  {
    if |a| == 0 {
      assert |b| == |multiset(b)| == 0;
    } else {
      var x := a[0];
      assert x in multiset(b);
      var k :| 0 <= k < |b| && b[k] == x;
      RemoveAt(b, k);
      RemoveAt(a, 0);
      PickRemoveAt(data, b, k);
      PickRemoveAt(data, a, 0);
      assert a[..0] + a[1..] == a[1..];
      PickPermutation(data, a[1..], b[..k] + b[k + 1..]);
    }
  }

  lemma {:induction false} ConcatPickAll(data: seq<int>, gs: seq<seq<int>>)
    requires forall i :: 0 <= i < |gs| ==> InRange(gs[i], |data|)
    ensures InRange(Concat(gs), |data|)
    ensures Concat(PickAll(data, gs)) == Pick(data, Concat(gs))
    decreases |gs|
  {
    if |gs| > 0 {
      ConcatPickAll(data, gs[1..]);
      ConcatCons(Pick(data, gs[0]), PickAll(data, gs[1..]));
      assert PickAll(data, gs) == [Pick(data, gs[0])] + PickAll(data, gs[1..]);
      PickAppend(data, gs[0], Concat(gs[1..]));
    }
  }

  /** Dropping the group at `k` drops its members from the concatenation. */
  lemma ConcatRemoveAt(gs: seq<seq<int>>, k: int)
    requires 0 <= k < |gs|
    ensures multiset(Concat(gs)) == multiset(Concat(gs[..k] + gs[k + 1..])) + multiset(gs[k])
  {
    RemoveAt(gs, k);
    ConcatAround(gs[..k], gs[k], gs[k + 1..]);
  }

  /** Concatenating around one group in the middle. */
  lemma ConcatAround(pre: seq<seq<int>>, b: seq<int>, post: seq<seq<int>>)
    ensures multiset(Concat(pre + [b] + post)) == multiset(Concat(pre + post)) + multiset(b)
  {
    var m := pre + [b];
    assert Concat(m) == Concat(pre) + b by {
      ConcatAppend(pre, [b]);
      ConcatCons(b, []);
      assert [b] + [] == [b];
    }
    ConcatAppend(m, post);
    ConcatAppend(pre, post);
    var x, y := Concat(pre), Concat(post);
    assert Concat(pre + [b] + post) == x + b + y;
    assert multiset(x + b + y) == multiset(x + y) + multiset(b);
  }

  /** Rearranging the groups rearranges their concatenation. */
  lemma {:induction false} ConcatPermutation(gs: seq<seq<int>>, hs: seq<seq<int>>)
    requires multiset(gs) == multiset(hs)
    ensures multiset(Concat(gs)) == multiset(Concat(hs))
    decreases |gs|
  {
    if |gs| == 0 {
      assert |hs| == |multiset(hs)| == 0;
    } else {
      var g := gs[0];
      assert g in multiset(hs);
      var k :| 0 <= k < |hs| && hs[k] == g;
      RemoveAt(hs, k);
      RemoveAt(gs, 0);
      ConcatRemoveAt(hs, k);
      ConcatRemoveAt(gs, 0);
      assert gs[..0] + gs[1..] == gs[1..];
      ConcatPermutation(gs[1..], hs[..k] + hs[k + 1..]);
    }
  }

  /** The groups of a forest over `range(n)` hold positions below `n`. */
  lemma GroupsInRange(f: Forest<int>, n: nat, gs: seq<seq<int>>)
    requires Valid(f) && f.keys == Range(n)
    requires forall i, x :: 0 <= i < |gs| && x in gs[i] ==> x in f.parent
    ensures forall i :: 0 <= i < |gs| ==> InRange(gs[i], n)
  {
    forall i, k | 0 <= i < |gs| && 0 <= k < |gs[i]| ensures 0 <= gs[i][k] < n {
      var x := gs[i][k];
      assert x in gs[i];
      assert x in f.parent;
      assert x in (set y | y in f.keys);
      var j :| 0 <= j < n && Range(n)[j] == x;
    }
  }

  /** `sorted((-len(gp), gp) for gp in out)`, keeping the groups. */
  function SortBySize(values: seq<seq<int>>): (out: seq<seq<int>>)
    ensures Sorted(GroupLe, out) && multiset(out) == multiset(values)
    ensures forall i :: 0 < i < |out| ==> |out[i]| <= |out[i - 1]|
  {
    GroupOrder();
    Sort(GroupLe, values)
  }

  /** Index groups that partition `range(n)` give value groups holding every value of `data` once. */
  lemma ValueGroupsPartition(data: seq<int>, gs: seq<seq<int>>)
    requires forall i :: 0 <= i < |gs| ==> InRange(gs[i], |data|)
    requires multiset(Concat(gs)) == multiset(Range(|data|))
    ensures multiset(Concat(SortBySize(PickAll(data, gs)))) == multiset(data)
  {
    var values := PickAll(data, gs);
    var all := Concat(gs);
    ConcatPermutation(SortBySize(values), values);
    ConcatPickAll(data, gs);
    PickRange(data);
    PickPermutation(data, Range(|data|), all);
  }

  /** Picking every position in order gives the list back. */
  lemma PickRange(data: seq<int>)
    ensures InRange(Range(|data|), |data|)
    ensures Pick(data, Range(|data|)) == data
  {
  }

  /** One value group per index group, none empty. */
  lemma ValueGroupsShape(data: seq<int>, gs: seq<seq<int>>)
    requires forall i :: 0 <= i < |gs| ==> InRange(gs[i], |data|) && |gs[i]| > 0
    ensures |SortBySize(PickAll(data, gs))| == |gs|
    ensures forall g :: g in SortBySize(PickAll(data, gs)) ==> |g| > 0
  {
    var values := PickAll(data, gs);
    var out := SortBySize(values);
    assert |out| == |multiset(out)| == |multiset(values)| == |values|;
    forall g | g in out ensures |g| > 0 {
      assert g in multiset(values);
      var i :| 0 <= i < |values| && values[i] == g;
    }
  }

  /** Positions `i` and `j` sit in one index group. */
  predicate Together(gs: seq<seq<int>>, i: int, j: int)
  {
    exists k :: 0 <= k < |gs| && i in gs[k] && j in gs[k]
  }

  /**
    Once the loop has run past every edge within `d_max`, every pair
    within `d_max` ends inside one class: an unprocessed pair would come at
    or after the first edge that exceeds `d_max`, so it exceeds too.
    */
  lemma PairJoined(data: seq<int>, dist: (int, int) -> int, dMax: Option<int>, ts: seq<Edge>, f: Forest<int>, stop: nat, i: int, j: int)
    requires Sorted(EdgeLe, ts)
    requires forall e :: e in ts <==> 0 <= e.2 < e.1 < |data| && e.0 == dist(data[e.1], data[e.2])
    requires Valid(f) && stop <= |ts| && (stop < |ts| ==> Exceeds(ts[stop].0, dMax))
    requires forall k :: 0 <= k < stop ==> ts[k].1 in f.parent && ts[k].2 in f.parent && Root(f.parent, ts[k].1) == Root(f.parent, ts[k].2)
    requires 0 <= j < i < |data| && !Exceeds(dist(data[i], data[j]), dMax)
    ensures i in f.parent && j in f.parent && Root(f.parent, i) == Root(f.parent, j)
  {
    var e := (dist(data[i], data[j]), i, j);
    assert e in ts;
    var k :| 0 <= k < |ts| && ts[k] == e;
    if stop < k {
      EdgeOrder();
      SortedPairs(EdgeLe, ts, stop, k);
    }
  }

  /** A forest over `range(n)` in which every position shares the root of 0 has one class. */
  lemma OneClass(f: Forest<int>, n: nat)
    requires Valid(f) && f.keys == Range(n) && 0 in f.parent
    requires forall x :: 0 < x < n ==> x in f.parent && Root(f.parent, x) == Root(f.parent, 0)
    ensures |RootSet(f.parent)| == 1
  {
    forall r | r in RootSet(f.parent) ensures r == Root(f.parent, 0) {
      var x :| x in f.parent && Root(f.parent, x) == r;
      assert x in (set y | y in f.keys);
    }
    assert RootSet(f.parent) == {Root(f.parent, 0)};
  }

  lemma InConcat(gs: seq<seq<int>>, x: int)
    requires x in Concat(gs)
    ensures exists k :: 0 <= k < |gs| && x in gs[k]
  {
    if x !in gs[0] {
      InConcat(gs[1..], x);
      var k :| 0 <= k < |gs[1..]| && x in gs[1..][k];
      assert x in gs[k + 1];
    }
  }

  /** Groups that split the keys by root put two keys with one root together. */
  lemma SameRootTogether(f: Forest<int>, gs: seq<seq<int>>, i: int, j: int)
    requires Valid(f) && multiset(Concat(gs)) == multiset(f.keys)
    requires ByRoot(f.parent, gs)
    requires i in f.parent && j in f.parent && Root(f.parent, i) == Root(f.parent, j)
    ensures Together(gs, i, j)
  {
    assert i in (set y | y in f.keys) && j in (set y | y in f.keys);
    assert i in multiset(Concat(gs)) && j in multiset(Concat(gs));
    InConcat(gs, i);
    InConcat(gs, j);
    var a :| 0 <= a < |gs| && i in gs[a];
    var b :| 0 <= b < |gs| && j in gs[b];
    assert a == b;
  }

  /**
    The groups are the single-linkage classes of the first `stop` edges of
    `ts`: those edges are within `d_max`, each has both ends in one group,
    and inside a group every two positions are linked by a walk over them.
    */
  ghost predicate LinkedBy(ts: seq<Edge>, stop: nat, dMax: Option<int>, groups: seq<seq<int>>)
  {
    && stop <= |ts|
    && (forall k :: 0 <= k < stop ==> !Exceeds(ts[k].0, dMax) && Together(groups, ts[k].1, ts[k].2))
    && (forall k, x, y :: 0 <= k < |groups| && x in groups[k] && y in groups[k] ==> Linked(ts, stop, x, y))
  }

  /** The groups read off the forest after the loop are the classes of the processed edges. */
  lemma GroupsLinked(ts: seq<Edge>, stop: nat, dMax: Option<int>, f: Forest<int>, gs: seq<seq<int>>)
    requires Valid(f) && stop <= |ts| && RootsLinked(ts, stop, f)
    requires forall k :: 0 <= k < stop ==> !Exceeds(ts[k].0, dMax)
    requires forall k :: 0 <= k < stop ==> ts[k].1 in f.parent && ts[k].2 in f.parent && Root(f.parent, ts[k].1) == Root(f.parent, ts[k].2)
    requires multiset(Concat(gs)) == multiset(f.keys) && ByRoot(f.parent, gs)
    ensures LinkedBy(ts, stop, dMax, gs)
  {
    forall k | 0 <= k < stop ensures Together(gs, ts[k].1, ts[k].2) {
      SameRootTogether(f, gs, ts[k].1, ts[k].2);
    }
    forall k, x, y | 0 <= k < |gs| && x in gs[k] && y in gs[k] ensures Linked(ts, stop, x, y) {
      LinkedSym(ts, stop, y, Root(f.parent, y));
      LinkedTrans(ts, stop, x, Root(f.parent, x), y);
    }
  }

  /** Positions listed in increasing order. */
  predicate Ascending(g: seq<int>)
  {
    forall a, b :: 0 <= a < b < |g| ==> g[a] < g[b]
  }

  /** In `range(n)` the key order is the order of the numbers. */
  lemma BeforeInRange(n: nat, x: int, y: int)
    requires Before(Range(n), x, y)
    ensures x < y
  {
    var k :| 0 <= k < n && Range(n)[k] == y && x in Range(n)[..k];
    var j :| 0 <= j < k && Range(n)[..k][j] == x;
  }

  /** `groups()` over `range(n)` lists each group in increasing order. */
  lemma GroupsAscending(n: nat, gs: seq<seq<int>>)
    requires forall i, a, b :: 0 <= i < |gs| && 0 <= a < b < |gs[i]| ==> Before(Range(n), gs[i][a], gs[i][b])
    ensures forall i :: 0 <= i < |gs| ==> Ascending(gs[i])
  {
    forall i, a, b | 0 <= i < |gs| && 0 <= a < b < |gs[i]| ensures gs[i][a] < gs[i][b] {
      BeforeInRange(n, gs[i][a], gs[i][b]);
    }
  }

  /** When the loop stopped at an edge beyond `d_max` or ran out of edges, no pair within `d_max` is split. */
  lemma ComponentsJoined(data: seq<int>, dist: (int, int) -> int, dMax: Option<int>, ts: seq<Edge>, f: Forest<int>, stop: nat, gs: seq<seq<int>>)
    requires Sorted(EdgeLe, ts)
    requires forall e :: e in ts <==> 0 <= e.2 < e.1 < |data| && e.0 == dist(data[e.1], data[e.2])
    requires Valid(f) && stop <= |ts| && (stop < |ts| ==> Exceeds(ts[stop].0, dMax))
    requires forall k :: 0 <= k < stop ==> ts[k].1 in f.parent && ts[k].2 in f.parent && Root(f.parent, ts[k].1) == Root(f.parent, ts[k].2)
    requires multiset(Concat(gs)) == multiset(f.keys)
    requires ByRoot(f.parent, gs)
    ensures forall i, j :: 0 <= j < i < |data| && !Exceeds(dist(data[i], data[j]), dMax) ==> Together(gs, i, j)
  {
    forall i, j | 0 <= j < i < |data| && !Exceeds(dist(data[i], data[j]), dMax) ensures Together(gs, i, j) {
      PairJoined(data, dist, dMax, ts, f, stop, i, j);
      SameRootTogether(f, gs, i, j);
    }
  }

  /** With every edge processed, all positions form one class. */
  lemma AllJoined(data: seq<int>, dist: (int, int) -> int, ts: seq<Edge>, f: Forest<int>)
    requires Sorted(EdgeLe, ts)
    requires forall e :: e in ts <==> 0 <= e.2 < e.1 < |data| && e.0 == dist(data[e.1], data[e.2])
    requires Valid(f) && f.keys == Range(|data|) && 0 < |data|
    requires forall k :: 0 <= k < |ts| ==> ts[k].1 in f.parent && ts[k].2 in f.parent && Root(f.parent, ts[k].1) == Root(f.parent, ts[k].2)
    ensures |RootSet(f.parent)| == 1
  {
    ForestOverHas(f, |data|, 0);
    forall x | 0 < x < |data| ensures x in f.parent && Root(f.parent, x) == Root(f.parent, 0) {
      PairJoined(data, dist, None, ts, f, |ts|, x, 0);
    }
    OneClass(f, |data|);
  }

  /** `[[0], [1], ..., [n - 1]]`: every position its own group. */
  function Singles(n: nat): (gs: seq<seq<int>>)
    ensures |gs| == n && forall k :: 0 <= k < n ==> gs[k] == [k]
  {
    seq(n, k => [k])
  }

  /** The groups of the short case: a partition of the positions in order, the classes of no edges. */
  lemma SingletonGroups(data: seq<int>, ts: seq<Edge>, dMax: Option<int>)
    ensures forall k :: 0 <= k < |data| ==> InRange(Singles(|data|)[k], |data|) && Ascending(Singles(|data|)[k])
    ensures multiset(Concat(Singles(|data|))) == multiset(Range(|data|))
    ensures LinkedBy(ts, 0, dMax, Singles(|data|))
  {
    Singletons(|data|);
    var gs := Singles(|data|);
    forall k, x, y | 0 <= k < |gs| && x in gs[k] && y in gs[k] ensures Linked(ts, 0, x, y) {
      LinkedSelf(ts, 0, x);
    }
  }

  /** The singleton groups laid end to end are `range(n)`. */
  lemma Singletons(n: nat)
    ensures Concat(Singles(n)) == Range(n)
  {
    if n > 0 {
      var gs := Singles(n);
      ConcatAppend(gs[..n - 1], [gs[n - 1]]);
      assert gs == gs[..n - 1] + [gs[n - 1]];
      assert gs[..n - 1] == Singles(n - 1);
      Singletons(n - 1);
      assert Concat([gs[n - 1]]) == [n - 1];
    }
  }

  /**
    `kruskal_groups` past the early return, with more values than
    `nb_groups`: merge along `d_sorted`, then read the groups off the forest
    and sort them by size. The index groups are the classes of the first
    `stop` edges of `d_sorted`, each listed in increasing order, and the loop
    stopped there because the next edge exceeds `d_max`, the count reached
    `nb_groups`, or no edge was left.
    */
  method Cluster(data: seq<int>, dist: (int, int) -> int, nb: int, dMax: Option<int>)
    returns (out: seq<seq<int>>, ghost groups: seq<seq<int>>, ghost stop: nat)
    requires |data| > nb
    ensures forall k :: 0 <= k < |groups| ==> InRange(groups[k], |data|) && Ascending(groups[k])
    ensures multiset(Concat(groups)) == multiset(Range(|data|))
    ensures out == SortBySize(PickAll(data, groups))
    ensures multiset(Concat(out)) == multiset(data)
    ensures nb <= |out| && forall g :: g in out ==> |g| > 0
    ensures LinkedBy(SortedEdges(data, dist), stop, dMax, groups)
    ensures stop < |SortedEdges(data, dist)| ==> Exceeds(SortedEdges(data, dist)[stop].0, dMax) || |out| == nb
    ensures nb >= 1 && dMax.None? ==> |out| == nb
    ensures |out| > nb ==> forall i, j :: 0 <= j < i < |data| && !Exceeds(dist(data[i], data[j]), dMax) ==> Together(groups, i, j)
  {
    var n := |data|;
    var ts := SortedEdges(data, dist);
    assert EdgesOf(data, dist, ts) by {
      forall k | 0 <= k < |ts| ensures 0 <= ts[k].2 < ts[k].1 < n && ts[k].0 == dist(data[ts[k].1], data[ts[k].2]) {
        assert ts[k] in ts;
      }
    }
    var f, count, joined, st := MergeEdges(data, dist, ts, nb, dMax);
    var gs, _ := Groups(f);
    GroupsInRange(f, n, gs);
    GroupsAscending(n, gs);
    ValueGroupsPartition(data, gs);
    ValueGroupsShape(data, gs);
    GroupsLinked(ts, st, dMax, f, gs);
    out := SortBySize(PickAll(data, gs));
    groups, stop := gs, st;
    if count > nb {
      ComponentsJoined(data, dist, dMax, ts, f, stop, gs);
      if dMax.None? && nb >= 1 {
        assert stop == |ts|;
        AllJoined(data, dist, ts, f);
      }
    }
  }

  /**
    `kruskal_groups(data, dist, nb_groups, d_max)`. With at most
    `nb_groups` values every value is its own group, in input order (the
    padding `range(n - nb_groups)` is empty then). Otherwise the groups
    partition the values, there are at least `nb_groups` of them, none is
    empty, and they come sorted by `(-len(gp), gp)`, so by non-increasing
    size. The positions behind the values, `groups`, are the single-linkage
    classes of the first `stop` edges of `d_sorted`, each listed in
    increasing order; past the early return the loop stopped at `stop`
    because the next edge exceeds `d_max`, the count reached `nb_groups`, or
    no edge was left. So without `d_max` and with `nb_groups >= 1` there are
    exactly `nb_groups` groups, and when there are more than `nb_groups`, no
    pair within `d_max` is split.
    */
  method KruskalGroups(data: seq<int>, dist: (int, int) -> int, nb: int, dMax: Option<int>)
    returns (out: seq<seq<int>>, ghost groups: seq<seq<int>>, ghost stop: nat)
    ensures |data| <= nb ==> |out| == |data| && forall k :: 0 <= k < |data| ==> out[k] == [data[k]]
    ensures |data| > nb ==> multiset(Concat(out)) == multiset(data)
    ensures |data| > nb ==> nb <= |out| && forall g :: g in out ==> |g| > 0
    ensures |data| > nb ==> Sorted(GroupLe, out)
    ensures forall i :: 0 < i < |out| ==> |out[i]| <= |out[i - 1]|
    ensures forall k :: 0 <= k < |groups| ==> InRange(groups[k], |data|) && Ascending(groups[k])
    ensures multiset(Concat(groups)) == multiset(Range(|data|))
    ensures |data| > nb ==> out == SortBySize(PickAll(data, groups))
    ensures LinkedBy(SortedEdges(data, dist), stop, dMax, groups)
    ensures |data| > nb && stop < |SortedEdges(data, dist)| ==> Exceeds(SortedEdges(data, dist)[stop].0, dMax) || |out| == nb
    ensures |data| > nb >= 1 && dMax.None? ==> |out| == nb
    ensures |out| > nb ==> forall i, j :: 0 <= j < i < |data| && !Exceeds(dist(data[i], data[j]), dMax) ==> Together(groups, i, j)
  {
    var n := |data|;
    if n <= nb {
      var padding: seq<seq<int>> := seq(if n - nb > 0 then n - nb else 0, _ => []);
      out := seq(n, k requires 0 <= k < n => [data[k]]) + padding;
      groups, stop := Singles(n), 0;
      SingletonGroups(data, SortedEdges(data, dist), dMax);
      return;
    }
    out, groups, stop := Cluster(data, dist, nb, dMax);
  }
}
