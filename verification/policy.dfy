/**
  The explore policy of `optimal_explore`: run the bounded search with the
  target robot plus growing subsets of helper robots, under a shrinking depth
  schedule, and keep the strictly shortest path found.
  */
module Policy {

  import opened Wrappers
  import opened Walls
  import opened Colors
  import opened SlideTable
  import opened Moves
  import opened SearchSpec
  import opened Search

  /** The length the policy starts from: no path at all counts as this long. */
  const Ceiling: int := 100

  /** The depth schedule, before it is cut to the number of helper robots. */
  const Schedule: seq<int> := [100, 20, 13, 10, 7, 3]

  /** `cs` without `x`, order kept. */
  function Without(cs: seq<Color>, x: Color): (r: seq<Color>)
    ensures forall c :: c in r <==> c in cs && c != x
    ensures x !in cs ==> r == cs
    ensures x in cs && (forall i, j :: 0 <= i < j < |cs| ==> cs[i] != cs[j]) ==> |r| == |cs| - 1
  {
    if |cs| == 0 then []
    else if cs[0] == x then Without(cs[1..], x)
    else [cs[0]] + Without(cs[1..], x)
  }

  /** The helper robots: every colour but the target's, in definition order. */
  function OtherColors(target: Color): (r: seq<Color>)
    ensures |r| == |AllColors| - 1
    ensures forall c :: c in r <==> c != target
  {
    assert target == AllColors[Index(target)];
    Without(AllColors, target)
  }

  /** The schedule cut to one depth per possible number of helpers: 100, 20, 13. */
  function RecDepths(target: Color): (r: seq<int>)
    ensures |r| == |OtherColors(target)|
    ensures forall k :: 0 <= k < |r| ==> 0 < r[k] <= Ceiling
  {
    Schedule[..|OtherColors(target)|]
  }

  /** `xs` is an in-order pick of some of the entries of `ys`. */
  predicate IsSubseq<T(==)>(xs: seq<T>, ys: seq<T>)
    decreases |ys|
  {
    |xs| == 0 ||
    (|ys| > 0 && ((xs[0] == ys[0] && IsSubseq(xs[1..], ys[1..])) || IsSubseq(xs, ys[1..])))
  }

  /** Every entry of `cs` with `x` put in front. */
  function PrependAll<T>(x: T, cs: seq<seq<T>>): (r: seq<seq<T>>)
    ensures |r| == |cs|
    ensures forall i :: 0 <= i < |r| ==> r[i] == [x] + cs[i]
  {
    if |cs| == 0 then [] else [[x] + cs[0]] + PrependAll(x, cs[1..])
  }

  lemma PrependAllHas<T>(x: T, cs: seq<seq<T>>, c: seq<T>)
    ensures c in PrependAll(x, cs) <==> |c| > 0 && c[0] == x && c[1..] in cs
  {
    var r := PrependAll(x, cs);
    if c in r {
      var i :| 0 <= i < |r| && r[i] == c;
      assert c[1..] == cs[i];
    }
    if |c| > 0 && c[0] == x && c[1..] in cs {
      var i :| 0 <= i < |cs| && cs[i] == c[1..];
      assert r[i] == c;
    }
  }

  /**
    `itertools.combinations(xs, k)`: the `k`-element picks of `xs`, each in
    the order of `xs`, listed lexicographically by position.
    */
  function Combinations<T>(xs: seq<T>, k: nat): (r: seq<seq<T>>)
    ensures forall i :: 0 <= i < |r| ==> |r[i]| == k
    decreases |xs|
  {
    if k == 0 then [[]]
    else if |xs| < k then []
    else
      var a, b := PrependAll(xs[0], Combinations(xs[1..], k - 1)), Combinations(xs[1..], k);
      assert forall i :: |a| <= i < |a + b| ==> (a + b)[i] == b[i - |a|];
      a + b
  }

  /** The picks that take `xs[0]`, then the picks that skip it. */
  lemma CombinationsSplit<T>(xs: seq<T>, k: nat)
    requires 0 < k <= |xs|
    ensures Combinations(xs, k) == PrependAll(xs[0], Combinations(xs[1..], k - 1)) + Combinations(xs[1..], k)
  {
  }

  /** Counting the two halves of the split. */
  lemma CombinationsSplitCount<T>(xs: seq<T>, k: nat)
    requires 0 < k <= |xs|
    ensures |Combinations(xs, k)| == |Combinations(xs[1..], k - 1)| + |Combinations(xs[1..], k)|
  {
    CombinationsSplit(xs, k);
  }

  function Binomial(n: nat, k: nat): nat
  {
    if k == 0 then 1 else if n == 0 then 0 else Binomial(n - 1, k - 1) + Binomial(n - 1, k)
  }

  /** There are `Binomial(|xs|, k)` combinations, as in `itertools`. */
  lemma {:induction false} CombinationsCount<T>(xs: seq<T>, k: nat)
    ensures |Combinations(xs, k)| == Binomial(|xs|, k)
    decreases |xs|
  {
    if k == 0 {
    } else if |xs| < k {
      BinomialZero(|xs|, k);
    } else {
      var tail := xs[1..];
      assert |tail| == |xs| - 1;
      CombinationsSplitCount(xs, k);
      CombinationsCount(tail, k - 1);
      CombinationsCount(tail, k);
      BinomialStep(|xs|, k);
    }
  }

  lemma BinomialStep(n: nat, k: nat)
    requires 0 < k && 0 < n
    ensures Binomial(n, k) == Binomial(n - 1, k - 1) + Binomial(n - 1, k)
  {
  }

  lemma {:induction false} BinomialZero(n: nat, k: nat)
    requires n < k
    ensures Binomial(n, k) == 0
  {
    if n > 0 {
      BinomialZero(n - 1, k - 1);
      BinomialZero(n - 1, k);
    }
  }

  /** The combinations are exactly the in-order picks of `k` entries. */
  lemma {:induction false} CombinationsExact<T>(xs: seq<T>, k: nat, c: seq<T>)
    ensures c in Combinations(xs, k) <==> |c| == k && IsSubseq(c, xs)
    decreases |xs|
  {
    if k == 0 {
      assert c in Combinations(xs, k) <==> c == [];
    } else if |xs| < k {
      if IsSubseq(c, xs) {
        SubseqShorter(c, xs);
      }
    } else {
      CombinationsSplit(xs, k);
      PrependAllHas(xs[0], Combinations(xs[1..], k - 1), c);
      CombinationsExact(xs[1..], k, c);
      if |c| > 0 {
        CombinationsExact(xs[1..], k - 1, c[1..]);
      }
    }
  }

  /** An in-order pick takes its entries from what it picks from. */
  lemma {:induction false} SubseqElements<T>(xs: seq<T>, ys: seq<T>, x: T)
    requires IsSubseq(xs, ys) && x in xs
    ensures x in ys
    decreases |ys|
  {
    if xs[0] == ys[0] && IsSubseq(xs[1..], ys[1..]) {
      if x != xs[0] {
        assert x in xs[1..];
        SubseqElements(xs[1..], ys[1..], x);
      }
    } else {
      SubseqElements(xs, ys[1..], x);
    }
  }

  /** A combination of `xs` holds nothing that `xs` lacks. */
  lemma CombinationAvoids<T>(xs: seq<T>, k: nat, j: int, x: T)
    requires 0 <= j < |Combinations(xs, k)| && x !in xs
    ensures x !in Combinations(xs, k)[j]
  {
    var c := Combinations(xs, k)[j];
    CombinationsExact(xs, k, c);
    if x in c {
      SubseqElements(c, xs, x);
    }
  }

  /** An in-order pick is never longer than what it picks from. */
  lemma {:induction false} SubseqShorter<T>(xs: seq<T>, ys: seq<T>)
    requires IsSubseq(xs, ys)
    ensures |xs| <= |ys|
    decreases |ys|
  {
    if |xs| > 0 {
      if xs[0] == ys[0] && IsSubseq(xs[1..], ys[1..]) {
        SubseqShorter(xs[1..], ys[1..]);
      } else {
        SubseqShorter(xs, ys[1..]);
      }
    }
  }

  /** The length a result stands for: a path's length, or `Ceiling` for none. */
  function LengthOf(p: Option<seq<Move>>): int
  {
    if p.Some? then |p.value| else Ceiling
  }

  /**
    A best length `len` that no solution moving only `moving` robots and
    shorter than `depth` undercuts.
    */
  ghost predicate Beaten(t: Tables, n: nat, init: State, target: Color, dst: Pos, moving: seq<Color>, depth: int, len: int)
    requires ValidTables(t, n) && ValidState(init, n)
  {
    forall ms :: UsesOnly(ms, moving) && Solves(t, n, init, target, dst, ms) && |ms| < depth ==> len <= |ms|
  }

  /** The first `j` samples of `samples`, each run with the target robot added, are beaten at `depth`. */
  ghost predicate BeatenUpTo(t: Tables, n: nat, init: State, target: Color, dst: Pos,
                             samples: seq<seq<Color>>, j: int, depth: int, len: int)
    requires ValidTables(t, n) && ValidState(init, n)
  {
    forall i :: 0 <= i < j && i < |samples| ==> Beaten(t, n, init, target, dst, [target] + samples[i], depth, len)
  }

  /** Every sample of the first `k` helper counts is beaten at its scheduled depth. */
  ghost predicate LayersBeaten(t: Tables, n: nat, init: State, target: Color, dst: Pos, k: int, len: int)
    requires ValidTables(t, n) && ValidState(init, n)
  {
    forall h :: 0 <= h < k && h < |RecDepths(target)| ==>
      var samples := Combinations(OtherColors(target), h);
      BeatenUpTo(t, n, init, target, dst, samples, |samples|, RecDepths(target)[h], len)
  }

  /** `sample` is one of the helper samples the policy searches with, `h` helpers for a scheduled `h`, at `h`'s depth. */
  ghost predicate Scheduled(target: Color, sample: seq<Color>, depth: int)
  {
    exists h :: 0 <= h < |RecDepths(target)| && sample in Combinations(OtherColors(target), h) && depth == RecDepths(target)[h]
  }

  /**
    The best path so far: its length is `len`, it solves the puzzle, it moves
    only the target and one scheduled sample of helpers and is shorter than
    that sample's depth, and it is `[]` only when nothing has to move.
    */
  ghost predicate BestSoFar(t: Tables, n: nat, init: State, target: Color, dst: Pos, best: Option<seq<Move>>, len: int)
    requires ValidTables(t, n) && ValidState(init, n)
  {
    && len == LengthOf(best)
    && 0 <= len <= Ceiling
    && (best.Some? ==> |best.value| < Ceiling && Solves(t, n, init, target, dst, best.value) && NoIdleMoves(t, n, init, best.value))
    && (best.Some? ==> exists s, d :: Scheduled(target, s, d) && UsesOnly(best.value, [target] + s) && |best.value| < d)
    && (best == Some([]) ==> init[Index(target)] == dst)
  }

  /**
    One search of the policy: with `rec = min(len, depth)`, a search that
    ends as `ExploreV2` promises leaves the updated best length beaten for
    its sample, and keeps the earlier samples beaten.
    */
  lemma {:induction false} OneSearch(t: Tables, n: nat, init: State, target: Color, dst: Pos, moving: seq<Color>,
                                     depth: int, len: int, p: Option<seq<Move>>, len': int)
    requires ValidTables(t, n) && ValidState(init, n)
    requires p == Some([]) <==> init[Index(target)] == dst
    requires p.Some? ==> NoShorter(t, n, init, target, dst, moving, |p.value|)
    requires p.Some? && p.value != [] ==> |p.value| < Min(len, depth)
    requires p.None? ==> init[Index(target)] != dst && NoShorter(t, n, init, target, dst, moving, Min(len, depth))
    requires 0 <= len
    requires len' == if p.Some? && |p.value| < len then |p.value| else len
    ensures Beaten(t, n, init, target, dst, moving, depth, len')
  {
    forall ms | UsesOnly(ms, moving) && Solves(t, n, init, target, dst, ms) && |ms| < depth
      ensures len' <= |ms|
    {
    }
  }

  function Min(a: int, b: int): (m: int)
    ensures m <= a && m <= b && (m == a || m == b)
  {
    if a <= b then a else b
  }

  /** The samples beaten so far stay beaten under a smaller best length, and the sample just searched joins them. */
  lemma SampleDone(t: Tables, n: nat, init: State, target: Color, dst: Pos, h: int,
                   samples: seq<seq<Color>>, j: nat, depth: int, len: int, len': int)
    requires ValidTables(t, n) && ValidState(init, n)
    requires LayersBeaten(t, n, init, target, dst, h, len)
    requires BeatenUpTo(t, n, init, target, dst, samples, j, depth, len)
    requires j < |samples| && Beaten(t, n, init, target, dst, [target] + samples[j], depth, len') && len' <= len
    ensures LayersBeaten(t, n, init, target, dst, h, len')
    ensures BeatenUpTo(t, n, init, target, dst, samples, j + 1, depth, len')
  {
  }

  /** Once all samples of `h` helpers are beaten, the layers below `h + 1` are. */
  lemma LayerDone(t: Tables, n: nat, init: State, target: Color, dst: Pos, h: nat, len: int)
    requires ValidTables(t, n) && ValidState(init, n) && h < |RecDepths(target)|
    requires LayersBeaten(t, n, init, target, dst, h, len)
    requires BeatenUpTo(t, n, init, target, dst, Combinations(OtherColors(target), h),
                        |Combinations(OtherColors(target), h)|, RecDepths(target)[h], len)
    ensures LayersBeaten(t, n, init, target, dst, h + 1, len)
  {
  }

  /**
    One iteration of the policy: search with the target robot plus `sample`
    at depth `min(len, depth)`, and adopt the result only when it is strictly
    shorter than the best so far.
    */
  method TrySample(t: Tables, n: nat, init: State, dst: Pos, target: Color, sample: seq<Color>, depth: int,
                   best: Option<seq<Move>>, len: int)
    returns (best': Option<seq<Move>>, len': int)
    requires ValidTables(t, n) && ValidState(init, n)
    requires BestSoFar(t, n, init, target, dst, best, len)
    requires Scheduled(target, sample, depth)
    ensures BestSoFar(t, n, init, target, dst, best', len')
    ensures len' <= len
    ensures Beaten(t, n, init, target, dst, [target] + sample, depth, len')
    ensures init[Index(target)] == dst ==> best' == Some([])
  {
    var moving := [target] + sample;
    var p := ExploreV2(t, n, init, dst, target, Some(moving), Min(len, depth));
    if p.Some? && |p.value| < len {
      best', len' := p, |p.value|;
    } else {
      best', len' := best, len;
    }
    OneSearch(t, n, init, target, dst, moving, depth, len, p, len');
  }

  /**
    `optimal_explore`, as evidently intended: for `h` = 0, 1, 2 helpers and
    every `h`-sample of the other robots (in `itertools` order), search with
    the target robot plus the sample at depth `min(best length, RecDepths[h])`,
    and keep a result only when it is strictly shorter than the best so far.
    The result solves the puzzle within the depth of the search that found
    it, and no solution that one of the tried searches could have reached is
    shorter.
    */
  method OptimalExplore(t: Tables, n: nat, init: State, dst: Pos, target: Color) returns (best: Option<seq<Move>>)
    requires ValidTables(t, n) && ValidState(init, n)
    ensures best == Some([]) <==> init[Index(target)] == dst
    ensures best.Some? ==> Solves(t, n, init, target, dst, best.value) && NoIdleMoves(t, n, init, best.value)
    ensures best.Some? ==> |best.value| < Ceiling
    ensures best.Some? ==> exists k, sample ::
              && 0 <= k < |RecDepths(target)| && sample in Combinations(OtherColors(target), k)
              && UsesOnly(best.value, [target] + sample) && |best.value| < RecDepths(target)[k]
    ensures LayersBeaten(t, n, init, target, dst, |RecDepths(target)|, LengthOf(best))
  {
    var others := OtherColors(target);
    var depths := RecDepths(target);
    best := None;
    var len := Ceiling;
    var h := 0;
    while h < |depths|
      invariant 0 <= h <= |depths|
      invariant BestSoFar(t, n, init, target, dst, best, len)
      invariant LayersBeaten(t, n, init, target, dst, h, len)
      invariant init[Index(target)] == dst && 0 < h ==> best == Some([])
    {
      var samples := Combinations(others, h);
      var j := 0;
      while j < |samples|
        invariant 0 <= j <= |samples|
        invariant BestSoFar(t, n, init, target, dst, best, len)
        invariant LayersBeaten(t, n, init, target, dst, h, len)
        invariant BeatenUpTo(t, n, init, target, dst, samples, j, depths[h], len)
        invariant init[Index(target)] == dst && (0 < h || 0 < j) ==> best == Some([])
      {
        var len0 := len;
        assert samples[j] in Combinations(others, h) && Scheduled(target, samples[j], depths[h]);
        best, len := TrySample(t, n, init, dst, target, samples[j], depths[h], best, len);
        SampleDone(t, n, init, target, dst, h, samples, j, depths[h], len0, len);
        j := j + 1;
      }
      LayerDone(t, n, init, target, dst, h, len);
      h := h + 1;
    }
  }

  /** A replay whose moves never use robot `c` leaves `c` where it started. */
  lemma {:induction false} ReplayLeavesIdle(t: Tables, n: nat, s: State, ms: seq<Move>, moving: seq<Color>, c: Color)
    requires ValidTables(t, n) && ValidState(s, n)
    requires UsesOnly(ms, moving) && c !in moving
    ensures Replay(t, n, s, ms)[Index(c)] == s[Index(c)]
    decreases |ms|
  {
    if |ms| > 0 {
      assert ms[0].color in moving;
      IndexInjective(ms[0].color, c);
      assert UsesOnly(ms[1..], moving) by {
        forall k | 0 <= k < |ms[1..]| ensures ms[1..][k].color in moving {
          assert ms[1..][k] == ms[k + 1];
        }
      }
      ReplayLeavesIdle(t, n, Step(t, n, s, ms[0]), ms[1..], moving, c);
    }
  }

  /**
    `optimal_explore` as written (reading `rec_depths` for the undefined
    `rec_depth`): each search moves only the sampled helpers, never the
    target robot, so nothing is ever found unless the target already stands
    on `dst`.
    */
  method OptimalExploreAsWritten(t: Tables, n: nat, init: State, dst: Pos, target: Color) returns (best: Option<seq<Move>>)
    requires ValidTables(t, n) && ValidState(init, n)
    ensures best.Some? <==> init[Index(target)] == dst
    ensures best.Some? ==> best.value == []
  {
    var others := OtherColors(target);
    var depths := RecDepths(target);
    best := None;
    var len := Ceiling;
    var h := 0;
    while h < |depths|
      invariant 0 <= h <= |depths|
      invariant best.Some? ==> best == Some([]) && init[Index(target)] == dst
      invariant len == LengthOf(best)
      invariant init[Index(target)] == dst && 0 < h ==> best == Some([])
    {
      var samples := Combinations(others, h);
      var j := 0;
      while j < |samples|
        invariant 0 <= j <= |samples|
        invariant best.Some? ==> best == Some([]) && init[Index(target)] == dst
        invariant len == LengthOf(best)
        invariant init[Index(target)] == dst && (0 < h || 0 < j) ==> best == Some([])
      {
        var p := ExploreV2(t, n, init, dst, target, Some(samples[j]), Min(len, depths[h]));
        if p.Some? {
          CombinationAvoids(others, h, j, target);
          ReplayLeavesIdle(t, n, init, p.value, samples[j], target);
        }
        if p.Some? && |p.value| < len {
          best, len := p, |p.value|;
        }
        j := j + 1;
      }
      h := h + 1;
    }
  }

  /** Slide tables of an open 3×3 board, in `Rank` order: RIGHT, LEFT, BOTTOM, TOP. */
  const OpenTables: Tables := [
    [[2, 2, 2], [2, 2, 2], [2, 2, 2]],
    [[0, 0, 0], [0, 0, 0], [0, 0, 0]],
    [[2, 2, 2], [2, 2, 2], [2, 2, 2]],
    [[0, 0, 0], [0, 0, 0], [0, 0, 0]]]

  /** The open-board tables keep every stop on the board, on the facing side of its cell. */
  lemma OpenTablesValid()
    ensures ValidTables(OpenTables, 3)
  {
    forall d: Wall ensures IsTable(OpenTables[Rank(d)], 3) {
    }
  }

  /** Red at (0, 0), the other robots on the bottom row of the 3×3 board. */
  const OpenStart: State := [(2, 0), (2, 1), (2, 2), (0, 0)]

  lemma OpenStartValid()
    ensures ValidState(OpenStart, 3)
  {
    forall k | 0 <= k < 4 ensures InGrid(OpenStart[k], 3) {
    }
  }

  /** No robot stands to the right of (0, 0) in row 0, so the slide runs to the wall. */
  lemma OpenRedSlides()
    ensures TablesShaped(OpenTables, 3)
    ensures MoveV4(OpenTables, 3, (0, 0), RIGHT, OpenStart) == (0, 2)
  {
    OpenTablesValid();
    var r := BlockHigh(OpenStart, RIGHT, 0, 0, OpenTables[Rank(RIGHT)][0][0]);
    forall p | p in OpenStart ensures !(Across(p, RIGHT) == 0 && 0 < Along(p, RIGHT) <= 2) {
    }
    assert r == 2;
  }

  /** On the open board, the red robot at (0, 0) slides RIGHT to (0, 2): the bottom-row robots are not in its way. */
  lemma OpenBoardSolution()
    ensures ValidTables(OpenTables, 3) && ValidState(OpenStart, 3)
    ensures IsSolution(OpenTables, 3, OpenStart, RED, (0, 2), [RED], [Move(RED, RIGHT)])
  {
    OpenTablesValid();
    OpenStartValid();
    OpenRedSlides();
    var t, ms := OpenTables, [Move(RED, RIGHT)];
    var after: State := [(2, 0), (2, 1), (2, 2), (0, 2)];
    assert Step(t, 3, OpenStart, ms[0]) == after;
    assert ms[1..] == [];
    assert Replay(t, 3, OpenStart, ms) == after;
    assert NoIdleMoves(t, 3, after, ms[1..]);
  }

  /**
    An input on which the two readings differ. On an open 3×3 board with the
    red robot at (0, 0) and the others on the bottom row, one RIGHT move of
    the red robot reaches (0, 2); any result meeting the contract of
    `OptimalExplore` is therefore a path of at most one move, while
    `OptimalExploreAsWritten` returns `None` since the red robot is not on
    (0, 2).
    */
  lemma TargetMustMove(best: Option<seq<Move>>)
    ensures ValidTables(OpenTables, 3) && ValidState(OpenStart, 3)
    ensures OpenStart[Index(RED)] != (0, 2)
    ensures LayersBeaten(OpenTables, 3, OpenStart, RED, (0, 2), |RecDepths(RED)|, LengthOf(best))
            ==> best.Some? && |best.value| <= 1
  {
    OpenBoardSolution();
    var t, init := OpenTables, OpenStart;
    var ms := [Move(RED, RIGHT)];
    if LayersBeaten(t, 3, init, RED, (0, 2), |RecDepths(RED)|, LengthOf(best)) {
      var samples := Combinations(OtherColors(RED), 0);
      assert samples[0] == [];
      assert Beaten(t, 3, init, RED, (0, 2), [RED] + samples[0], RecDepths(RED)[0], LengthOf(best));
      assert UsesOnly(ms, [RED]) && |ms| < RecDepths(RED)[0];
    }
  }
}
