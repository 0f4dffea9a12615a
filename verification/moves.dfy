/**
  The move engine (`move_v4`) and robot states (`transform_state_v2`).
  A state lists one cell per robot, indexed by colour value.
  */
module Moves {

  import opened Wrappers
  import opened Walls
  import opened Colors
  import opened SlideTable

  /** A cell `(row, column)`. */
  type Pos = (int, int)

  /** One cell per robot, at index `Index(colour)`. */
  type State = seq<Pos>

  /** One move of the solution: which robot slides, and where to. */
  datatype Move = Move(color: Color, dir: Wall)

  predicate InGrid(p: Pos, n: nat)
  {
    0 <= p.0 < n && 0 <= p.1 < n
  }

  /** A state of the four robots with every robot on the grid. */
  predicate ValidState(s: State, n: nat)
  {
    |s| == |AllColors| && forall k :: 0 <= k < |s| ==> InGrid(s[k], n)
  }

  /** No two robots share a cell. */
  predicate Distinct(s: State)
  {
    forall a, b :: 0 <= a < b < |s| ==> s[a] != s[b]
  }

  /** Four tables of the right shape, so every lookup of an on-grid cell is defined. */
  predicate TablesShaped(t: Tables, n: nat)
  {
    |t| == 4 && forall d :: IsTable(t[Rank(d)], n)
  }

  predicate Horizontal(d: Wall)
  {
    d == LEFT || d == RIGHT
  }

  /** Directions that decrease the moving coordinate. */
  predicate TowardsLow(d: Wall)
  {
    d == LEFT || d == TOP
  }

  /** The coordinate a move in direction `d` changes (column for LEFT/RIGHT, row for TOP/BOTTOM). */
  function Along(p: Pos, d: Wall): int
  {
    if Horizontal(d) then p.1 else p.0
  }

  /** The coordinate a move in direction `d` keeps. */
  function Across(p: Pos, d: Wall): int
  {
    if Horizontal(d) then p.0 else p.1
  }

  /** The robots of `state` on the same line as the mover and strictly between `lo` and `hi` (half-open `[lo, hi)`). */
  predicate NoRobotIn(state: State, d: Wall, line: int, lo: int, hi: int)
  {
    forall p :: p in state && Across(p, d) == line ==> !(lo <= Along(p, d) < hi)
  }

  /**
    The loop of `move_v4` for LEFT and TOP: in state order, every robot on
    the line with `stop <= coordinate < from` pulls the stop to just past it.
    */
  function BlockLow(state: State, d: Wall, line: int, from: int, stop: int): (r: int)
    ensures stop <= r
    ensures stop <= from ==> r <= from
    ensures NoRobotIn(state, d, line, r, from)
    ensures r == stop || exists p :: p in state && Across(p, d) == line && stop <= Along(p, d) < from && r == Along(p, d) + 1
  {
    if |state| == 0 then stop
    else
      var pos := state[0];
      var stop' := if Across(pos, d) == line && stop <= Along(pos, d) < from then Along(pos, d) + 1 else stop;
      var r := BlockLow(state[1..], d, line, from, stop');
      assert forall p :: p in state ==> p == pos || p in state[1..];
      r
  }

  /**
    The loop of `move_v4` for RIGHT and BOTTOM: every robot on the line with
    `from < coordinate <= stop` pulls the stop to just before it.
    */
  function BlockHigh(state: State, d: Wall, line: int, from: int, stop: int): (r: int)
    ensures r <= stop
    ensures from <= stop ==> from <= r
    ensures NoRobotIn(state, d, line, from + 1, r + 1)
    ensures r == stop || exists p :: p in state && Across(p, d) == line && from < Along(p, d) <= stop && r == Along(p, d) - 1
  {
    if |state| == 0 then stop
    else
      var pos := state[0];
      var stop' := if Across(pos, d) == line && from < Along(pos, d) <= stop then Along(pos, d) - 1 else stop;
      var r := BlockHigh(state[1..], d, line, from, stop');
      assert forall p :: p in state ==> p == pos || p in state[1..];
      r
  }

  /**
    The destination of a slide from `src` in direction `d`, given the
    wall-only `stop`: the farthest cell up to `stop` such that no robot of
    `state` lies between it and the source. Only the set of robot cells
    matters, not their order.
    */
  predicate IsSlide(state: State, src: Pos, d: Wall, stop: int, dst: Pos)
  {
    && Across(dst, d) == Across(src, d)
    && if TowardsLow(d) then
         && stop <= Along(dst, d) <= Along(src, d)
         && NoRobotIn(state, d, Across(src, d), Along(dst, d), Along(src, d))
         && (Along(dst, d) == stop ||
             exists p :: p in state && Across(p, d) == Across(src, d) && stop <= Along(p, d) < Along(src, d) && Along(dst, d) == Along(p, d) + 1)
       else
         && Along(src, d) <= Along(dst, d) <= stop
         && NoRobotIn(state, d, Across(src, d), Along(src, d) + 1, Along(dst, d) + 1)
         && (Along(dst, d) == stop ||
             exists p :: p in state && Across(p, d) == Across(src, d) && Along(src, d) < Along(p, d) <= stop && Along(dst, d) == Along(p, d) - 1)
  }

  /** The wall-only stop of `src` in direction `d`, looked up in the slot `Rank(d)`. */
  function TableStop(t: Tables, n: nat, src: Pos, d: Wall): int
    requires TablesShaped(t, n) && InGrid(src, n)
  {
    t[Rank(d)][src.0][src.1]
  }

  /**
    `move_v4`: slide the robot at `src` in direction `d`. Starting from the
    table's wall-only stop, the robots of `state` cut the slide short.
    */
  function MoveV4(t: Tables, n: nat, src: Pos, d: Wall, state: State): (dst: Pos)
    requires TablesShaped(t, n) && InGrid(src, n)
    ensures Across(dst, d) == Across(src, d)
    ensures ValidTables(t, n) ==> InGrid(dst, n)
  {
    var (i, j) := src;
    match d
    case LEFT => (i, BlockLow(state, d, i, j, t[Rank(LEFT)][i][j]))
    case RIGHT => (i, BlockHigh(state, d, i, j, t[Rank(RIGHT)][i][j]))
    case TOP => (BlockLow(state, d, j, i, t[Rank(TOP)][i][j]), j)
    case BOTTOM => (BlockHigh(state, d, j, i, t[Rank(BOTTOM)][i][j]), j)
  }

  /**
    Starting from the table's wall-only stop, `move_v4` slides as far as the
    other robots allow and no farther: the destination is the one `IsSlide`
    describes, whatever order the state lists the robots in.
    */
  lemma MoveIsSlide(t: Tables, n: nat, src: Pos, d: Wall, state: State)
    requires ValidTables(t, n) && TablesShaped(t, n) && InGrid(src, n)
    ensures IsSlide(state, src, d, TableStop(t, n, src, d), MoveV4(t, n, src, d, state))
  {
  }

  /** Two cells that agree on both the kept and the changed coordinate of `d` are the same cell. */
  lemma SameCoordinates(a: Pos, b: Pos, d: Wall)
    requires Across(a, d) == Across(b, d) && Along(a, d) == Along(b, d)
    ensures a == b
  {
  }

  /** A slide has at most one destination: the characterisation pins it down. */
  lemma SlideUnique(state: State, src: Pos, d: Wall, stop: int, a: Pos, b: Pos)
    requires IsSlide(state, src, d, stop, a) && IsSlide(state, src, d, stop, b)
    ensures a == b
  {
    SameCoordinates(a, b, d);
  }

  /** `move_v4` depends on the robots' cells only, not on the order `state` lists them in. */
  lemma MoveOrderIndependent(t: Tables, n: nat, src: Pos, d: Wall, s1: State, s2: State)
    requires ValidTables(t, n) && TablesShaped(t, n) && InGrid(src, n)
    requires forall p :: p in s1 <==> p in s2
    ensures MoveV4(t, n, src, d, s1) == MoveV4(t, n, src, d, s2)
  {
    var a, b := MoveV4(t, n, src, d, s1), MoveV4(t, n, src, d, s2);
    MoveIsSlide(t, n, src, d, s1);
    MoveIsSlide(t, n, src, d, s2);
    assert IsSlide(s2, src, d, TableStop(t, n, src, d), a);
    SlideUnique(s2, src, d, TableStop(t, n, src, d), a, b);
  }

  /**
    The mover never lands on another robot: the strict inequality on the
    source side keeps the mover from blocking itself, and every other robot
    on the line lies outside the travelled range.
    */
  lemma MoveAvoidsOthers(t: Tables, n: nat, s: State, c: nat, d: Wall)
    requires ValidTables(t, n) && TablesShaped(t, n) && ValidState(s, n) && Distinct(s) && c < |s|
    ensures forall k :: 0 <= k < |s| && k != c ==> s[k] != MoveV4(t, n, s[c], d, s)
  {
    var dst := MoveV4(t, n, s[c], d, s);
    MoveIsSlide(t, n, s[c], d, s);
    forall k | 0 <= k < |s| && k != c
      ensures s[k] != dst
    {
      assert s[k] in s;
      if Along(dst, d) == Along(s[c], d) {
        SameCoordinates(dst, s[c], d);
      }
    }
  }

  /** A coordinate cast to `numpy.uint8`: reduced modulo 256. */
  function Byte(x: int): (b: int)
    ensures 0 <= b < 256
    ensures (b - x) % 256 == 0
    ensures 0 <= x < 256 ==> b == x
  {
    x % 256
  }

  /** A cell with both coordinates cast to bytes. */
  function BytePos(p: Pos): Pos
  {
    (Byte(p.0), Byte(p.1))
  }

  /** Some robot of the map has a colour value outside the output list. */
  predicate SlotMissing(robots: map<Color, Pos>)
  {
    exists c :: c in robots && Index(c) >= |robots|
  }

  /**
    `transform_state_v2`: a list of `len(robots)` empty slots (`None` here,
    Python's `()`), then each robot's cell, cast to bytes, written at the slot
    of its colour value. A colour value past the end of the list raises
    `IndexError`.
    */
  function TransformStateV2(robots: map<Color, Pos>): (r: Result<seq<Option<Pos>>>)
    ensures r.Err? <==> SlotMissing(robots)
    ensures r.Ok? ==> |r.value| == |robots|
    ensures r.Ok? ==> forall c :: c in robots ==> r.value[Index(c)] == Some(BytePos(robots[c]))
    ensures r.Ok? ==> forall k :: 0 <= k < |r.value| && r.value[k].Some? ==> k < |AllColors| && AllColors[k] in robots
  {
    if SlotMissing(robots) then Err(IndexError)
    else
      Ok(seq(|robots|, k requires 0 <= k < |robots| =>
        if k < |AllColors| && AllColors[k] in robots then Some(BytePos(robots[AllColors[k]])) else None))
  }

  /** The robot map of a state: each colour at its slot. */
  function RobotsOf(s: State): (m: map<Color, Pos>)
    requires |s| == |AllColors|
  {
    map c | c in AllColors :: s[Index(c)]
  }

  /**
    On a board of at most 256 cells a side, turning a state into its robot
    map and back through `transform_state_v2` gives the state again, every
    slot filled.
    */
  lemma TransformStateRoundTrip(s: State, n: nat)
    requires ValidState(s, n) && n <= 256
    ensures TransformStateV2(RobotsOf(s)) == Ok(seq(|s|, k requires 0 <= k < |s| => Some(s[k])))
  {
    var m := RobotsOf(s);
    RobotsOfFull(s);
    var r := TransformStateV2(m);
    var want := seq(|s|, k requires 0 <= k < |s| => Some(s[k]));
    forall k | 0 <= k < |s|
      ensures r.value[k] == want[k]
    {
      var c := AllColors[k];
      assert Index(c) == k;
      BytePosOnBoard(s[k], n);
    }
    assert r.value == want;
  }

  /** The robot map of a state holds all four colours, each at its slot's cell. */
  lemma RobotsOfFull(s: State)
    requires |s| == |AllColors|
    ensures |RobotsOf(s)| == |AllColors| && !SlotMissing(RobotsOf(s))
    ensures forall c :: c in RobotsOf(s) && RobotsOf(s)[c] == s[Index(c)]
  {
    var m := RobotsOf(s);
    assert m.Keys == {BLUE, YELLOW, GREEN, RED} by {
      forall c | c in m.Keys ensures c in {BLUE, YELLOW, GREEN, RED} {
      }
      assert AllColors[0] in m && AllColors[1] in m && AllColors[2] in m && AllColors[3] in m;
    }
    assert |m| == |m.Keys| == 4;
    forall c ensures c in m && m[c] == s[Index(c)] {
      assert c == AllColors[Index(c)];
    }
  }

  /** Casting a cell of a board of at most 256 cells a side to bytes changes nothing. */
  lemma BytePosOnBoard(p: Pos, n: nat)
    requires InGrid(p, n) && n <= 256
    ensures BytePos(p) == p
  {
  }
}
