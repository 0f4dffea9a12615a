/**
  `transform_grid`: the four slide tables. For every cell and direction a
  table holds the farthest cell a robot reaches along that direction when
  only walls are considered.
  */
module SlideTable {

  import opened Walls
  import opened Board

  /** One table: `n` rows of `n` stop coordinates. */
  type Table = seq<seq<int>>

  /** Four tables, indexed by `Rank` of the direction. */
  type Tables = seq<Table>

  predicate IsTable(t: Table, n: nat)
  {
    |t| == n && forall i :: 0 <= i < n ==> |t[i]| == n
  }

  /**
    Towards lower indices along `line`: `r` is the largest position `<= p`
    carrying flag `d`, or 0 when there is none.
    */
  predicate IsLowStop(line: seq<bv8>, d: Wall, p: nat, r: int)
    requires p < |line|
  {
    && 0 <= r <= p
    && (r == 0 || Has(line[r], d))
    && forall q :: r < q <= p ==> !Has(line[q], d)
  }

  /**
    Towards higher indices along `line`: `r` is the smallest position `>= p`
    carrying flag `d`, or the last position when there is none.
    */
  predicate IsHighStop(line: seq<bv8>, d: Wall, p: nat, r: int)
    requires p < |line|
  {
    && p <= r <= |line| - 1
    && (r == |line| - 1 || Has(line[r], d))
    && forall q :: p <= q < r ==> !Has(line[q], d)
  }

  /** What the running `rank` of the upward scan holds at position `p`, having started at `base` with `rank`. */
  predicate LowScanAt(line: seq<bv8>, d: Wall, base: nat, rank: int, p: nat, r: int)
    requires p < |line|
  {
    && (r == rank || (base <= r <= p && Has(line[r], d)))
    && forall q :: base <= q <= p && r < q ==> !Has(line[q], d)
  }

  /** What the running `rank` of the downward scan holds at position `p`, having started below `top` with `rank`. */
  predicate HighScanAt(line: seq<bv8>, d: Wall, top: nat, rank: int, p: nat, r: int)
    requires p < top <= |line|
  {
    && (r == rank || (p <= r < top && Has(line[r], d)))
    && forall q :: p <= q < top && q < r ==> !Has(line[q], d)
  }

  /**
    The left-to-right loop of `transform_grid` over positions `j..`: the
    running `rank` becomes `j` whenever position `j` carries `d`.
    */
  function LowScan(line: seq<bv8>, d: Wall, j: nat, rank: int): (out: seq<int>)
    requires j <= |line|
    ensures |out| == |line| - j
    ensures forall k :: 0 <= k < |out| ==> LowScanAt(line, d, j, rank, j + k, out[k])
    decreases |line| - j
  {
    if j == |line| then []
    else
      var r := if Has(line[j], d) then j else rank;
      var rest := LowScan(line, d, j + 1, r);
      [r] + rest
  }

  /**
    The right-to-left loop of `transform_grid` over positions `j-1` down to
    0; the output lists the running `rank` for positions `0..j-1`.
    */
  function HighScan(line: seq<bv8>, d: Wall, j: nat, rank: int): (out: seq<int>)
    requires j <= |line|
    ensures |out| == j
    ensures forall p :: 0 <= p < j ==> HighScanAt(line, d, j, rank, p, out[p])
  {
    if j == 0 then []
    else
      var r := if Has(line[j - 1], d) then j - 1 else rank;
      HighScan(line, d, j - 1, r) + [r]
  }

  /** A full upward scan (starting rank 0) yields the low stop of every position. */
  function LowStops(line: seq<bv8>, d: Wall): (out: seq<int>)
    ensures |out| == |line|
    ensures forall p :: 0 <= p < |line| ==> IsLowStop(line, d, p, out[p])
  {
    LowScan(line, d, 0, 0)
  }

  /** A full downward scan (starting rank `len-1`) yields the high stop of every position. */
  function HighStops(line: seq<bv8>, d: Wall): (out: seq<int>)
    ensures |out| == |line|
    ensures forall p :: 0 <= p < |line| ==> IsHighStop(line, d, p, out[p])
  {
    HighScan(line, d, |line|, |line| - 1)
  }

  /** The wall-only stop of cell `(i, j)` in direction `d` is `r`. */
  predicate IsStop(g: Grid, n: nat, d: Wall, i: nat, j: nat, r: int)
    requires IsGrid(g, n) && i < n && j < n
  {
    match d
    case LEFT => IsLowStop(g[i], LEFT, j, r)
    case RIGHT => IsHighStop(g[i], RIGHT, j, r)
    case TOP => IsLowStop(Column(g, j), TOP, i, r)
    case BOTTOM => IsHighStop(Column(g, j), BOTTOM, i, r)
  }

  /** Turn a table of columns (`cols[j][i]`) into a table of rows. */
  function Transpose(cols: seq<seq<int>>, n: nat): (t: Table)
    requires IsTable(cols, n)
    ensures IsTable(t, n)
    ensures forall i, j :: 0 <= i < n && 0 <= j < n ==> t[i][j] == cols[j][i]
  {
    seq(n, i requires 0 <= i < n => seq(n, j requires 0 <= j < n => cols[j][i]))
  }

  /**
    `transform_grid`: the four tables, in `Rank` order (RIGHT, LEFT, BOTTOM,
    TOP). Rows are scanned for LEFT/RIGHT, columns for TOP/BOTTOM.
    */
  function TransformGrid(g: Grid, n: nat): (t: Tables)
    requires IsGrid(g, n)
    ensures |t| == 4
    ensures forall d :: IsTable(t[Rank(d)], n) &&
              forall i, j :: 0 <= i < n && 0 <= j < n ==> IsStop(g, n, d, i, j, t[Rank(d)][i][j])
  {
    var left := seq(n, i requires 0 <= i < n => LowStops(g[i], LEFT));
    var right := seq(n, i requires 0 <= i < n => HighStops(g[i], RIGHT));
    var top := Transpose(seq(n, j requires 0 <= j < n => LowStops(Column(g, j), TOP)), n);
    var bottom := Transpose(seq(n, j requires 0 <= j < n => HighStops(Column(g, j), BOTTOM)), n);
    [right, left, bottom, top]
  }

  /** The bounds every table built from a grid satisfies: a stop lies between the cell and the edge it faces. */
  predicate ValidTables(t: Tables, n: nat)
  {
    && |t| == 4
    && (forall d :: IsTable(t[Rank(d)], n))
    && forall i, j :: 0 <= i < n && 0 <= j < n ==>
         && 0 <= t[Rank(LEFT)][i][j] <= j
         && j <= t[Rank(RIGHT)][i][j] < n
         && 0 <= t[Rank(TOP)][i][j] <= i
         && i <= t[Rank(BOTTOM)][i][j] < n
  }

  /** Tables built by `TransformGrid` keep every stop on the grid, on the facing side of its cell. */
  lemma TransformGridValid(g: Grid, n: nat)
    requires IsGrid(g, n)
    ensures ValidTables(TransformGrid(g, n), n)
  {
    var t := TransformGrid(g, n);
    forall i, j | 0 <= i < n && 0 <= j < n
      ensures 0 <= t[Rank(LEFT)][i][j] <= j && j <= t[Rank(RIGHT)][i][j] < n
      ensures 0 <= t[Rank(TOP)][i][j] <= i && i <= t[Rank(BOTTOM)][i][j] < n
    {
      assert IsStop(g, n, LEFT, i, j, t[Rank(LEFT)][i][j]);
      assert IsStop(g, n, RIGHT, i, j, t[Rank(RIGHT)][i][j]);
      assert IsStop(g, n, TOP, i, j, t[Rank(TOP)][i][j]);
      assert IsStop(g, n, BOTTOM, i, j, t[Rank(BOTTOM)][i][j]);
    }
  }
}
