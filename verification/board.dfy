/** The board: an N×N grid of wall bitmasks, one byte per cell. */
module Board {

  import opened Walls

  /** A grid of cells; each cell is a byte of wall flags (numpy `uint8`). */
  type Grid = seq<seq<bv8>>

  /** `g` is square with side `n`. */
  predicate IsGrid(g: Grid, n: nat)
  {
    |g| == n && forall i :: 0 <= i < n ==> |g[i]| == n
  }

  /** Cell `c` carries the wall flag `d` (Python's `c & Wall.D`). */
  predicate Has(c: bv8, d: Wall)
  {
    c & Mask(d) != 0
  }

  /** Column `j` of the grid, top to bottom. */
  function Column(g: Grid, j: nat): (col: seq<bv8>)
    requires forall i :: 0 <= i < |g| ==> j < |g[i]|
    ensures |col| == |g|
    ensures forall i :: 0 <= i < |g| ==> col[i] == g[i][j]
  {
    seq(|g|, i requires 0 <= i < |g| => g[i][j])
  }
}
