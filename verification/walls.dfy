/**
  The `Wall` flag enumeration: the four wall flags a board cell can carry,
  which double as the four move directions.
  */
module Walls {

  /** Wall flags / directions in definition order (the order the search enumerates them). */
  datatype Wall = TOP | BOTTOM | LEFT | RIGHT

  /** Every direction, in enumeration order. */
  const AllWalls: seq<Wall> := [TOP, BOTTOM, LEFT, RIGHT]

  /** The integer value of a flag: one bit each. */
  function Value(d: Wall): nat
  {
    match d
    case TOP => 8
    case BOTTOM => 4
    case LEFT => 2
    case RIGHT => 1
  }

  /** The flag as a byte mask, the form in which it is OR'd into a grid cell. */
  function Mask(d: Wall): (m: bv8)
    ensures m as int == Value(d)
  {
    match d
    case TOP => 8
    case BOTTOM => 4
    case LEFT => 2
    case RIGHT => 1
  }

  function Pow2(k: nat): nat
  {
    if k == 0 then 1 else 2 * Pow2(k - 1)
  }

  /**
    The slot of a direction's slide table. The rank is the index of the
    flag's bit, that is log2 of its value.
    */
  function Rank(d: Wall): (r: nat)
    ensures r < 4
    ensures Pow2(r) == Value(d)
  {
    if d == TOP then 3
    else if d == BOTTOM then 2
    else if d == LEFT then 1
    else 0
  }

  /** Four distinct directions occupy four distinct table slots. */
  lemma RankInjective(d1: Wall, d2: Wall)
    ensures Rank(d1) == Rank(d2) <==> d1 == d2
  {
  }

  /** The flags are single, pairwise disjoint bits. */
  lemma MasksDisjoint(d1: Wall, d2: Wall)
    ensures d1 != d2 <==> Mask(d1) & Mask(d2) == 0
  {
  }

  /** Together the four flags fill exactly the low nibble. */
  lemma MasksCoverNibble()
    ensures Mask(TOP) | Mask(BOTTOM) | Mask(LEFT) | Mask(RIGHT) == 15
  {
  }

  /** The enumeration lists every direction exactly once. */
  lemma AllWallsEnumerates(d: Wall)
    ensures d in AllWalls
    ensures forall i, j :: 0 <= i < j < |AllWalls| ==> AllWalls[i] != AllWalls[j]
  {
  }
}
