/**
  The grid-building part of `get_wall_grid`: a 16×16 grid of wall flags
  with the boundary and the centre block walled, then one wall per template
  match, each written on both cells it separates. The template matcher is
  outside the model: its matches come in as lists of `(y, x)` cells.
  */
module GridExtraction {

  import opened Wrappers
  import opened Walls
  import opened Board

  /** The side of the board, in cells. */
  const Side: nat := 16

  /** `np.zeros((16, 16), dtype=np.uint8)`. */
  function Zeros(): (g: Grid)
    ensures IsGrid(g, Side)
    ensures forall i, j :: 0 <= i < Side && 0 <= j < Side ==> g[i][j] == 0
  {
    seq(Side, i => seq(Side, j => 0 as bv8))
  }

  /** The four high bits of a cell, which no wall flag uses, are clear. */
  predicate Clean(c: bv8)
  {
    c & 0xF0 == 0
  }

  predicate CleanGrid(g: Grid)
    requires IsGrid(g, Side)
  {
    forall i, j :: 0 <= i < Side && 0 <= j < Side ==> Clean(g[i][j])
  }

  /** A clean cell is determined by the walls it has. */
  lemma SameWalls(a: bv8, b: bv8)
    requires Clean(a) && Clean(b)
    requires forall d :: Has(a, d) <==> Has(b, d)
    ensures a == b
  {
    assert Has(a, TOP) == Has(b, TOP) && Has(a, BOTTOM) == Has(b, BOTTOM);
    assert Has(a, LEFT) == Has(b, LEFT) && Has(a, RIGHT) == Has(b, RIGHT);
  }

  /** `grid[r0:r1, c0:c1] |= m`. */
  function OrRect(g: Grid, r0: int, r1: int, c0: int, c1: int, m: bv8): (r: Grid)
    requires IsGrid(g, Side)
    ensures IsGrid(r, Side)
    ensures forall i, j :: 0 <= i < Side && 0 <= j < Side ==>
      r[i][j] == if r0 <= i < r1 && c0 <= j < c1 then g[i][j] | m else g[i][j]
  {
    seq(Side, i requires 0 <= i < Side =>
      seq(Side, j requires 0 <= j < Side => if r0 <= i < r1 && c0 <= j < c1 then g[i][j] | m else g[i][j]))
  }

  /** The grid before any match: the outer boundary, and the centre 2×2 block walled on every side. */
  function BaseGrid(): (g: Grid)
    ensures IsGrid(g, Side)
  {
    var g0 := OrRect(Zeros(), 0, 1, 0, Side, Mask(TOP));
    var g1 := OrRect(g0, Side - 1, Side, 0, Side, Mask(BOTTOM));
    var g2 := OrRect(g1, 0, Side, 0, 1, Mask(LEFT));
    var g3 := OrRect(g2, 0, Side, Side - 1, Side, Mask(RIGHT));
    var g4 := OrRect(g3, 7, 9, 7, 9, Mask(TOP) | Mask(BOTTOM) | Mask(LEFT) | Mask(RIGHT));
    var g5 := OrRect(g4, 7, 9, 6, 7, Mask(RIGHT));
    var g6 := OrRect(g5, 7, 9, 9, 10, Mask(LEFT));
    var g7 := OrRect(g6, 6, 7, 7, 9, Mask(BOTTOM));
    OrRect(g7, 9, 10, 7, 9, Mask(TOP))
  }

  /** The walls of the base grid, cell by cell. */
  predicate BaseWall(i: int, j: int, d: Wall)
  {
    var centre := 7 <= i <= 8 && 7 <= j <= 8;
    match d
    case TOP => i == 0 || centre || (i == 9 && 7 <= j <= 8)
    case BOTTOM => i == Side - 1 || centre || (i == 6 && 7 <= j <= 8)
    case LEFT => j == 0 || centre || (j == 9 && 7 <= i <= 8)
    case RIGHT => j == Side - 1 || centre || (j == 6 && 7 <= i <= 8)
  }

  /** The base grid carries exactly the boundary and centre walls, and nothing in the high bits. */
  lemma BaseGridWalls(i: int, j: int)
    requires 0 <= i < Side && 0 <= j < Side
    ensures Clean(BaseGrid()[i][j])
    ensures forall d :: Has(BaseGrid()[i][j], d) <==> BaseWall(i, j, d)
  {
    var c := BaseGrid()[i][j];
    forall d ensures Has(c, d) <==> BaseWall(i, j, d) {
    }
  }

  /** A numpy index along an axis of length 16: from -16 up to 15. */
  predicate InAxis(k: int)
  {
    -(Side as int) <= k < Side
  }

  /** The position a numpy index stands for: negative indices count from the end. */
  function Wrap(k: int): (p: int)
    requires InAxis(k)
    ensures 0 <= p < Side && (p - k) % Side == 0
  {
    if k < 0 then k + Side else k
  }

  /** `grid[y][x] |= d` on a position already in range. */
  function SetFlag(g: Grid, y: int, x: int, d: Wall): (r: Grid)
    requires IsGrid(g, Side) && 0 <= y < Side && 0 <= x < Side
    ensures IsGrid(r, Side)
    ensures forall i, j :: 0 <= i < Side && 0 <= j < Side ==>
      r[i][j] == if i == y && j == x then g[i][j] | Mask(d) else g[i][j]
  {
    g[y := g[y][x := g[y][x] | Mask(d)]]
  }

  /** The two template kinds: a vertical wall stands left of its cell, a horizontal one above it. */
  datatype Orientation = Vertical | Horizontal

  /**
    One match `(y, x)`: the wall flag on the matched cell (LEFT or TOP), and,
    when the raw coordinate across the wall is positive, the facing flag on
    the neighbour before it (RIGHT on `(y, x - 1)` or BOTTOM on `(y - 1, x)`).
    A coordinate outside -16..15 raises `IndexError`.
    */
  function AddWall(g: Grid, o: Orientation, m: (int, int)): (r: Result<Grid>)
    requires IsGrid(g, Side)
    ensures r.Ok? <==> InAxis(m.0) && InAxis(m.1)
    ensures r.Ok? ==> IsGrid(r.value, Side)
  {
    var (y, x) := m;
    if !(InAxis(y) && InAxis(x)) then Err(IndexError)
    else match o
      case Vertical =>
        var g' := SetFlag(g, Wrap(y), Wrap(x), LEFT);
        Ok(if x > 0 then SetFlag(g', Wrap(y), x - 1, RIGHT) else g')
      case Horizontal =>
        var g' := SetFlag(g, Wrap(y), Wrap(x), TOP);
        Ok(if y > 0 then SetFlag(g', y - 1, Wrap(x), BOTTOM) else g')
  }

  /** Match `m` puts flag `d` on cell `(i, j)`. */
  predicate Hit(o: Orientation, m: (int, int), i: int, j: int, d: Wall)
  {
    var (y, x) := m;
    && InAxis(y) && InAxis(x)
    && match o
       case Vertical =>
         i == Wrap(y) && ((d == LEFT && j == Wrap(x)) || (d == RIGHT && 0 < x && j == x - 1))
       case Horizontal =>
         j == Wrap(x) && ((d == TOP && i == Wrap(y)) || (d == BOTTOM && 0 < y && i == y - 1))
  }

  /** One match ORs in exactly the flags it hits and leaves the high bits alone. */
  lemma AddWallFlags(g: Grid, o: Orientation, m: (int, int), i: int, j: int, d: Wall)
    requires IsGrid(g, Side) && InAxis(m.0) && InAxis(m.1)
    requires 0 <= i < Side && 0 <= j < Side
    ensures Has(AddWall(g, o, m).value[i][j], d) <==> Has(g[i][j], d) || Hit(o, m, i, j, d)
    ensures Clean(g[i][j]) ==> Clean(AddWall(g, o, m).value[i][j])
  {
    var (y, x) := m;
    var r := AddWall(g, o, m).value;
    match o
    case Vertical =>
      var g' := SetFlag(g, Wrap(y), Wrap(x), LEFT);
      assert r == if x > 0 then SetFlag(g', Wrap(y), x - 1, RIGHT) else g';
    case Horizontal =>
      var g' := SetFlag(g, Wrap(y), Wrap(x), TOP);
      assert r == if y > 0 then SetFlag(g', y - 1, Wrap(x), BOTTOM) else g';
  }

  /** All coordinates of all matches are valid numpy indices. */
  predicate AllInAxis(ms: seq<(int, int)>)
  {
    forall k :: 0 <= k < |ms| ==> InAxis(ms[k].0) && InAxis(ms[k].1)
  }

  /** The loop over the matches of one template, in list order; the first bad coordinate raises. */
  function AddWalls(g: Grid, o: Orientation, ms: seq<(int, int)>): (r: Result<Grid>)
    requires IsGrid(g, Side)
    ensures r.Ok? <==> AllInAxis(ms)
    ensures r.Ok? ==> IsGrid(r.value, Side)
    decreases |ms|
  {
    if |ms| == 0 then Ok(g)
    else match AddWall(g, o, ms[0])
      case Err(e) => Err(e)
      case Ok(g') =>
        assert AllInAxis(ms) <==> AllInAxis(ms[1..]) by {
          if AllInAxis(ms[1..]) {
            forall k | 1 <= k < |ms| ensures InAxis(ms[k].0) && InAxis(ms[k].1) {
              assert ms[k] == ms[1..][k - 1];
            }
          }
        }
        AddWalls(g', o, ms[1..])
  }

  /** Some match of the list puts flag `d` on cell `(i, j)`. */
  ghost predicate Marked(o: Orientation, ms: seq<(int, int)>, i: int, j: int, d: Wall)
  {
    exists k :: 0 <= k < |ms| && Hit(o, ms[k], i, j, d)
  }

  lemma {:induction false} AddWallsFlags(g: Grid, o: Orientation, ms: seq<(int, int)>, i: int, j: int, d: Wall)
    requires IsGrid(g, Side) && AllInAxis(ms)
    requires 0 <= i < Side && 0 <= j < Side
    ensures Has(AddWalls(g, o, ms).value[i][j], d) <==> Has(g[i][j], d) || Marked(o, ms, i, j, d)
    ensures Clean(g[i][j]) ==> Clean(AddWalls(g, o, ms).value[i][j])
    decreases |ms|
  {
    if |ms| > 0 {
      var g' := AddWall(g, o, ms[0]).value;
      AddWallFlags(g, o, ms[0], i, j, d);
      AddWallsFlags(g', o, ms[1..], i, j, d);
      MarkedCons(o, ms, i, j, d);
    }
  }

  lemma MarkedCons(o: Orientation, ms: seq<(int, int)>, i: int, j: int, d: Wall)
    requires |ms| > 0
    ensures Marked(o, ms, i, j, d) <==> Hit(o, ms[0], i, j, d) || Marked(o, ms[1..], i, j, d)
  {
    if Marked(o, ms, i, j, d) && !Hit(o, ms[0], i, j, d) {
      var k :| 0 <= k < |ms| && Hit(o, ms[k], i, j, d);
      assert ms[1..][k - 1] == ms[k];
    }
    if Marked(o, ms[1..], i, j, d) {
      var k :| 0 <= k < |ms[1..]| && Hit(o, ms[1..][k], i, j, d);
      assert ms[k + 1] == ms[1..][k];
    }
  }

  /**
    `get_wall_grid` from the vertical and horizontal template matches:
    the base grid, then every vertical match, then every horizontal one.
    */
  function GetWallGrid(vertical: seq<(int, int)>, horizontal: seq<(int, int)>): (r: Result<Grid>)
    ensures r.Ok? <==> AllInAxis(vertical) && AllInAxis(horizontal)
    ensures r.Ok? ==> IsGrid(r.value, Side)
  {
    match AddWalls(BaseGrid(), Vertical, vertical)
    case Err(e) => Err(e)
    case Ok(g) => AddWalls(g, Horizontal, horizontal)
  }

  /**
    Every flag of the finished grid is a base wall or a wall some match put
    there, and every such wall is present: building the grid only ORs flags in.
    */
  lemma WallGridFlags(vertical: seq<(int, int)>, horizontal: seq<(int, int)>, i: int, j: int, d: Wall)
    requires AllInAxis(vertical) && AllInAxis(horizontal)
    requires 0 <= i < Side && 0 <= j < Side
    ensures Clean(GetWallGrid(vertical, horizontal).value[i][j])
    ensures Has(GetWallGrid(vertical, horizontal).value[i][j], d) <==>
      BaseWall(i, j, d) || Marked(Vertical, vertical, i, j, d) || Marked(Horizontal, horizontal, i, j, d)
  {
    var g := AddWalls(BaseGrid(), Vertical, vertical).value;
    BaseGridWalls(i, j);
    AddWallsFlags(BaseGrid(), Vertical, vertical, i, j, d);
    AddWallsFlags(g, Horizontal, horizontal, i, j, d);
  }

  /** The outer boundary and the centre block stay walled whatever the matches. */
  lemma WallGridKeepsBase(vertical: seq<(int, int)>, horizontal: seq<(int, int)>, i: int, j: int, d: Wall)
    requires AllInAxis(vertical) && AllInAxis(horizontal)
    requires 0 <= i < Side && 0 <= j < Side && BaseWall(i, j, d)
    ensures Has(GetWallGrid(vertical, horizontal).value[i][j], d)
  {
    WallGridFlags(vertical, horizontal, i, j, d);
  }

  /** A vertical match inside the board walls both cells it separates: LEFT on `(y, x)`, RIGHT on `(y, x - 1)`. */
  lemma VerticalMatchWalled(vertical: seq<(int, int)>, horizontal: seq<(int, int)>, k: int)
    requires AllInAxis(vertical) && AllInAxis(horizontal)
    requires 0 <= k < |vertical| && 0 <= vertical[k].0 < Side && 0 <= vertical[k].1 < Side
    ensures var g, (y, x) := GetWallGrid(vertical, horizontal).value, vertical[k];
      Has(g[y][x], LEFT) && (0 < x ==> Has(g[y][x - 1], RIGHT))
  {
    var (y, x) := vertical[k];
    MatchMarks(Vertical, vertical, k);
    WallGridFlags(vertical, horizontal, y, x, LEFT);
    if 0 < x {
      WallGridFlags(vertical, horizontal, y, x - 1, RIGHT);
    }
  }

  /** A horizontal match inside the board walls both cells it separates: TOP on `(y, x)`, BOTTOM on `(y - 1, x)`. */
  lemma HorizontalMatchWalled(vertical: seq<(int, int)>, horizontal: seq<(int, int)>, k: int)
    requires AllInAxis(vertical) && AllInAxis(horizontal)
    requires 0 <= k < |horizontal| && 0 <= horizontal[k].0 < Side && 0 <= horizontal[k].1 < Side
    ensures var g, (y, x) := GetWallGrid(vertical, horizontal).value, horizontal[k];
      Has(g[y][x], TOP) && (0 < y ==> Has(g[y - 1][x], BOTTOM))
  {
    var (y, x) := horizontal[k];
    MatchMarks(Horizontal, horizontal, k);
    WallGridFlags(vertical, horizontal, y, x, TOP);
    if 0 < y {
      WallGridFlags(vertical, horizontal, y - 1, x, BOTTOM);
    }
  }

  /** A match inside the board marks its own cell and the neighbour before it. */
  lemma MatchMarks(o: Orientation, ms: seq<(int, int)>, k: int)
    requires 0 <= k < |ms| && 0 <= ms[k].0 < Side && 0 <= ms[k].1 < Side
    ensures var (y, x) := ms[k];
      match o
      case Vertical => Marked(o, ms, y, x, LEFT) && (0 < x ==> Marked(o, ms, y, x - 1, RIGHT))
      case Horizontal => Marked(o, ms, y, x, TOP) && (0 < y ==> Marked(o, ms, y - 1, x, BOTTOM))
  {
    var (y, x) := ms[k];
    match o
    case Vertical =>
      assert Hit(o, ms[k], y, x, LEFT);
      if 0 < x {
        assert Hit(o, ms[k], y, x - 1, RIGHT);
      }
    case Horizontal =>
      assert Hit(o, ms[k], y, x, TOP);
      if 0 < y {
        assert Hit(o, ms[k], y - 1, x, BOTTOM);
      }
  }

  /** The matches as a set: `case_match` returns `list(set)`, in no particular order. */
  function Matches(ms: seq<(int, int)>): set<(int, int)>
  {
    set k | 0 <= k < |ms| :: ms[k]
  }

  /**
    The grid depends only on which cells were matched: reordering the
    matches, or repeating one, gives the same grid.
    */
  lemma WallGridOrderFree(v1: seq<(int, int)>, h1: seq<(int, int)>, v2: seq<(int, int)>, h2: seq<(int, int)>)
    requires AllInAxis(v1) && AllInAxis(h1)
    requires Matches(v1) == Matches(v2) && Matches(h1) == Matches(h2)
    ensures GetWallGrid(v2, h2).Ok?
    ensures GetWallGrid(v1, h1) == GetWallGrid(v2, h2)
  {
    SameMatchesInAxis(v1, v2);
    SameMatchesInAxis(h1, h2);
    var a, b := GetWallGrid(v1, h1).value, GetWallGrid(v2, h2).value;
    forall i, j | 0 <= i < Side && 0 <= j < Side ensures a[i][j] == b[i][j] {
      SameMatchesCell(v1, h1, v2, h2, i, j);
    }
    SameCells(a, b);
  }

  /** Two grids that agree cell by cell are equal. */
  lemma SameCells(a: Grid, b: Grid)
    requires IsGrid(a, Side) && IsGrid(b, Side)
    requires forall i, j :: 0 <= i < Side && 0 <= j < Side ==> a[i][j] == b[i][j]
    ensures a == b
  {
    forall i | 0 <= i < Side ensures a[i] == b[i] {
    }
  }

  lemma SameMatchesCell(v1: seq<(int, int)>, h1: seq<(int, int)>, v2: seq<(int, int)>, h2: seq<(int, int)>, i: int, j: int)
    requires AllInAxis(v1) && AllInAxis(h1) && AllInAxis(v2) && AllInAxis(h2)
    requires Matches(v1) == Matches(v2) && Matches(h1) == Matches(h2)
    requires 0 <= i < Side && 0 <= j < Side
    ensures GetWallGrid(v1, h1).value[i][j] == GetWallGrid(v2, h2).value[i][j]
  {
    var a, b := GetWallGrid(v1, h1).value[i][j], GetWallGrid(v2, h2).value[i][j];
    forall d ensures Has(a, d) <==> Has(b, d) {
      WallGridFlags(v1, h1, i, j, d);
      WallGridFlags(v2, h2, i, j, d);
      SameMatchesMarked(Vertical, v1, v2, i, j, d);
      SameMatchesMarked(Horizontal, h1, h2, i, j, d);
    }
    WallGridFlags(v1, h1, i, j, TOP);
    WallGridFlags(v2, h2, i, j, TOP);
    SameWalls(a, b);
  }

  lemma SameMatchesInAxis(ms: seq<(int, int)>, ns: seq<(int, int)>)
    requires AllInAxis(ms) && Matches(ms) == Matches(ns)
    ensures AllInAxis(ns)
  {
    forall k | 0 <= k < |ns| ensures InAxis(ns[k].0) && InAxis(ns[k].1) {
      assert ns[k] in Matches(ns);
      var l :| 0 <= l < |ms| && ms[l] == ns[k];
    }
  }

  lemma SameMatchesMarked(o: Orientation, ms: seq<(int, int)>, ns: seq<(int, int)>, i: int, j: int, d: Wall)
    requires Matches(ms) == Matches(ns)
    ensures Marked(o, ms, i, j, d) <==> Marked(o, ns, i, j, d)
  {
    if Marked(o, ms, i, j, d) {
      var k :| 0 <= k < |ms| && Hit(o, ms[k], i, j, d);
      assert ms[k] in Matches(ns);
      var l :| 0 <= l < |ns| && ns[l] == ms[k];
    }
    if Marked(o, ns, i, j, d) {
      var k :| 0 <= k < |ns| && Hit(o, ns[k], i, j, d);
      assert ns[k] in Matches(ms);
      var l :| 0 <= l < |ms| && ms[l] == ns[k];
    }
  }

  /** Each wall is seen from both sides: RIGHT on a cell exactly when LEFT on its right neighbour, and likewise BOTTOM and TOP. */
  predicate Consistent(g: Grid)
    requires IsGrid(g, Side)
  {
    && (forall i, j :: 0 <= i < Side && 0 <= j < Side - 1 ==> (Has(g[i][j], RIGHT) <==> Has(g[i][j + 1], LEFT)))
    && (forall i, j :: 0 <= i < Side - 1 && 0 <= j < Side ==> (Has(g[i][j], BOTTOM) <==> Has(g[i + 1][j], TOP)))
  }

  /** The matches of one template all lie inside the board. */
  predicate Inside(ms: seq<(int, int)>)
  {
    forall k :: 0 <= k < |ms| ==> 0 <= ms[k].0 < Side && 0 <= ms[k].1 < Side
  }

  /**
    Matches inside the board build a grid that records every wall from both
    sides. A match whose rounded coordinate reaches 16 (a hit near the right
    or bottom edge of the image) is not covered: `GetWallGrid` reports the
    index error for it instead.
    */
  lemma WallGridConsistent(vertical: seq<(int, int)>, horizontal: seq<(int, int)>)
    requires Inside(vertical) && Inside(horizontal)
    ensures GetWallGrid(vertical, horizontal).Ok?
    ensures Consistent(GetWallGrid(vertical, horizontal).value)
  {
    assert AllInAxis(vertical) && AllInAxis(horizontal);
    var g := GetWallGrid(vertical, horizontal).value;
    forall i, j | 0 <= i < Side && 0 <= j < Side - 1 ensures Has(g[i][j], RIGHT) <==> Has(g[i][j + 1], LEFT) {
      SideBySide(vertical, horizontal, i, j);
    }
    forall i, j | 0 <= i < Side - 1 && 0 <= j < Side ensures Has(g[i][j], BOTTOM) <==> Has(g[i + 1][j], TOP) {
      OneAbove(vertical, horizontal, i, j);
    }
  }

  /** The wall between `(i, j)` and `(i, j + 1)` is seen from both cells. */
  lemma SideBySide(vertical: seq<(int, int)>, horizontal: seq<(int, int)>, i: int, j: int)
    requires Inside(vertical) && Inside(horizontal) && AllInAxis(vertical) && AllInAxis(horizontal)
    requires 0 <= i < Side && 0 <= j < Side - 1
    ensures var g := GetWallGrid(vertical, horizontal).value; Has(g[i][j], RIGHT) <==> Has(g[i][j + 1], LEFT)
  {
    WallGridFlags(vertical, horizontal, i, j, RIGHT);
    WallGridFlags(vertical, horizontal, i, j + 1, LEFT);
    NeighbourMarks(Vertical, vertical, i, j + 1);
    NoCrossMarks(horizontal, i, j, i, j + 1);
    assert BaseWall(i, j, RIGHT) <==> BaseWall(i, j + 1, LEFT);
  }

  /** The wall between `(i, j)` and `(i + 1, j)` is seen from both cells. */
  lemma OneAbove(vertical: seq<(int, int)>, horizontal: seq<(int, int)>, i: int, j: int)
    requires Inside(vertical) && Inside(horizontal) && AllInAxis(vertical) && AllInAxis(horizontal)
    requires 0 <= i < Side - 1 && 0 <= j < Side
    ensures var g := GetWallGrid(vertical, horizontal).value; Has(g[i][j], BOTTOM) <==> Has(g[i + 1][j], TOP)
  {
    WallGridFlags(vertical, horizontal, i, j, BOTTOM);
    WallGridFlags(vertical, horizontal, i + 1, j, TOP);
    NeighbourMarks(Horizontal, horizontal, i + 1, j);
    NoCrossMarks(vertical, i, j, i + 1, j);
    assert BaseWall(i, j, BOTTOM) <==> BaseWall(i + 1, j, TOP);
  }

  /**
    With matches inside the board, a match walls the near side of `(i, j)`
    exactly when it walls the far side of the neighbour before it.
    */
  lemma NeighbourMarks(o: Orientation, ms: seq<(int, int)>, i: int, j: int)
    requires Inside(ms)
    requires o == Vertical ==> 0 <= i < Side && 0 < j < Side
    requires o == Horizontal ==> 0 < i < Side && 0 <= j < Side
    ensures o == Vertical ==> (Marked(o, ms, i, j - 1, RIGHT) <==> Marked(o, ms, i, j, LEFT))
    ensures o == Horizontal ==> (Marked(o, ms, i - 1, j, BOTTOM) <==> Marked(o, ms, i, j, TOP))
  {
    match o
    case Vertical =>
      if Marked(o, ms, i, j - 1, RIGHT) {
        var k :| 0 <= k < |ms| && Hit(o, ms[k], i, j - 1, RIGHT);
        assert Hit(o, ms[k], i, j, LEFT);
      }
      if Marked(o, ms, i, j, LEFT) {
        var k :| 0 <= k < |ms| && Hit(o, ms[k], i, j, LEFT);
        assert Hit(o, ms[k], i, j - 1, RIGHT);
      }
    case Horizontal =>
      if Marked(o, ms, i - 1, j, BOTTOM) {
        var k :| 0 <= k < |ms| && Hit(o, ms[k], i - 1, j, BOTTOM);
        assert Hit(o, ms[k], i, j, TOP);
      }
      if Marked(o, ms, i, j, TOP) {
        var k :| 0 <= k < |ms| && Hit(o, ms[k], i, j, TOP);
        assert Hit(o, ms[k], i - 1, j, BOTTOM);
      }
  }

  /** A vertical match never sets TOP or BOTTOM, and a horizontal one never LEFT or RIGHT. */
  lemma NoCrossMarks(ms: seq<(int, int)>, i: int, j: int, i': int, j': int)
    ensures !Marked(Horizontal, ms, i, j, RIGHT) && !Marked(Horizontal, ms, i', j', LEFT)
    ensures !Marked(Vertical, ms, i, j, BOTTOM) && !Marked(Vertical, ms, i', j', TOP)
  {
  }
}
