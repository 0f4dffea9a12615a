/**
  The meaning of a search over robot states: replaying a move list, what a
  solution is, and the invariants of the breadth-first search of
  `explore_v2`, with the lemmas that connect them.
  */
module SearchSpec {

  import opened Wrappers
  import opened Walls
  import opened Colors
  import opened SlideTable
  import opened Moves

  /** One move applied to a state: only the moved robot's cell changes, to its `move_v4` destination. */
  function Step(t: Tables, n: nat, s: State, m: Move): (s': State)
    requires ValidTables(t, n) && ValidState(s, n)
    ensures ValidState(s', n)
  {
    s[Index(m.color) := MoveV4(t, n, s[Index(m.color)], m.dir, s)]
  }

  /** A step that changes the state moves its robot to another cell, and conversely. */
  lemma StepChangesMover(t: Tables, n: nat, s: State, m: Move)
    requires ValidTables(t, n) && ValidState(s, n)
    ensures Step(t, n, s, m) != s <==> Step(t, n, s, m)[Index(m.color)] != s[Index(m.color)]
  {
    var s' := Step(t, n, s, m);
    if s'[Index(m.color)] == s[Index(m.color)] {
      assert forall k :: 0 <= k < |s| ==> s'[k] == s[k];
    }
  }

  /** A step keeps the robots on pairwise distinct cells. */
  lemma StepKeepsDistinct(t: Tables, n: nat, s: State, m: Move)
    requires ValidTables(t, n) && ValidState(s, n) && Distinct(s)
    ensures Distinct(Step(t, n, s, m))
  {
    MoveAvoidsOthers(t, n, s, Index(m.color), m.dir);
  }

  /** Apply `ms` in order, as the renderer replays a solution. */
  function Replay(t: Tables, n: nat, s: State, ms: seq<Move>): (r: State)
    requires ValidTables(t, n) && ValidState(s, n)
    ensures ValidState(r, n)
    decreases |ms|
  {
    if |ms| == 0 then s else Replay(t, n, Step(t, n, s, ms[0]), ms[1..])
  }

  /** Replaying one more move steps from where the shorter replay ended. */
  lemma {:induction false} ReplaySnoc(t: Tables, n: nat, s: State, ms: seq<Move>, m: Move)
    requires ValidTables(t, n) && ValidState(s, n)
    ensures Replay(t, n, s, ms + [m]) == Step(t, n, Replay(t, n, s, ms), m)
    decreases |ms|
  {
    if |ms| == 0 {
      assert ms + [m] == [m];
    } else {
      assert (ms + [m])[1..] == ms[1..] + [m];
      ReplaySnoc(t, n, Step(t, n, s, ms[0]), ms[1..], m);
    }
  }

  /** Every move of `ms` moves a robot of `moving`. */
  predicate UsesOnly(ms: seq<Move>, moving: seq<Color>)
  {
    forall k :: 0 <= k < |ms| ==> ms[k].color in moving
  }

  /** Replaying `ms` from `s` puts robot `target` on `dst`. */
  predicate Solves(t: Tables, n: nat, s: State, target: Color, dst: Pos, ms: seq<Move>)
    requires ValidTables(t, n) && ValidState(s, n)
  {
    Replay(t, n, s, ms)[Index(target)] == dst
  }

  /** No move of `ms`, replayed from `s`, leaves its robot where it was. */
  predicate NoIdleMoves(t: Tables, n: nat, s: State, ms: seq<Move>)
    requires ValidTables(t, n) && ValidState(s, n)
    decreases |ms|
  {
    |ms| == 0 ||
    (Step(t, n, s, ms[0])[Index(ms[0].color)] != s[Index(ms[0].color)] && NoIdleMoves(t, n, Step(t, n, s, ms[0]), ms[1..]))
  }

  /** Every state of the replay of `ms` from `s` keeps the robots on distinct cells. */
  predicate DistinctAlong(t: Tables, n: nat, s: State, ms: seq<Move>)
    requires ValidTables(t, n) && ValidState(s, n)
    decreases |ms|
  {
    Distinct(s) && (|ms| == 0 || DistinctAlong(t, n, Step(t, n, s, ms[0]), ms[1..]))
  }

  /** Replay soundness: from distinct cells, every intermediate state of any replay has distinct cells. */
  lemma {:induction false} ReplayKeepsDistinct(t: Tables, n: nat, s: State, ms: seq<Move>)
    requires ValidTables(t, n) && ValidState(s, n) && Distinct(s)
    ensures DistinctAlong(t, n, s, ms)
    decreases |ms|
  {
    if |ms| > 0 {
      StepKeepsDistinct(t, n, s, ms[0]);
      ReplayKeepsDistinct(t, n, Step(t, n, s, ms[0]), ms[1..]);
    }
  }

  /** Every replay of at most `k` moves of `moving` robots from `init` ends in `keys`. */
  ghost predicate Covers(t: Tables, n: nat, init: State, moving: seq<Color>, k: int, keys: set<State>)
    requires ValidTables(t, n) && ValidState(init, n)
  {
    forall ms :: UsesOnly(ms, moving) && |ms| <= k ==> Replay(t, n, init, ms) in keys
  }

  /** Every state of `from` has all its one-move successors (moves of `moving` robots) in `keys`. */
  ghost predicate Expanded(t: Tables, n: nat, moving: seq<Color>, from: set<State>, keys: set<State>)
    requires ValidTables(t, n) && forall s :: s in from ==> ValidState(s, n)
  {
    forall s, m: Move :: s in from && m.color in moving ==> Step(t, n, s, m) in keys
  }

  /**
    One breadth-first layer: if the states within `k` moves are all in `seen`
    and every state of `seen` is expanded into `keys`, then the states within
    `k + 1` moves are all in `keys`.
    */
  lemma {:induction false} CoversStep(t: Tables, n: nat, init: State, moving: seq<Color>, k: nat, seen: set<State>, keys: set<State>)
    requires ValidTables(t, n) && ValidState(init, n)
    requires forall s :: s in seen ==> ValidState(s, n)
    requires Covers(t, n, init, moving, k, seen) && seen <= keys
    requires Expanded(t, n, moving, seen, keys)
    ensures Covers(t, n, init, moving, k + 1, keys)
  {
    forall ms | UsesOnly(ms, moving) && |ms| <= k + 1
      ensures Replay(t, n, init, ms) in keys
    {
      if |ms| <= k {
        assert Replay(t, n, init, ms) in seen;
      } else {
        LastMove(t, n, init, moving, ms);
        assert Replay(t, n, init, ms[..k]) in seen;
      }
    }
  }

  /** A non-empty replay ends with one step, by a `moving` robot, from the replay of all but the last move. */
  lemma LastMove(t: Tables, n: nat, init: State, moving: seq<Color>, ms: seq<Move>)
    requires ValidTables(t, n) && ValidState(init, n)
    requires UsesOnly(ms, moving) && |ms| > 0
    ensures UsesOnly(ms[..|ms| - 1], moving) && ms[|ms| - 1].color in moving
    ensures Replay(t, n, init, ms) == Step(t, n, Replay(t, n, init, ms[..|ms| - 1]), ms[|ms| - 1])
  {
    var front := ms[..|ms| - 1];
    assert ms == front + [ms[|ms| - 1]];
    ReplaySnoc(t, n, init, front, ms[|ms| - 1]);
  }

  /** Covering is preserved by enlarging the set of states. */
  lemma CoversSubset(t: Tables, n: nat, init: State, moving: seq<Color>, k: int, a: set<State>, b: set<State>)
    requires ValidTables(t, n) && ValidState(init, n)
    requires Covers(t, n, init, moving, k, a) && a <= b
    ensures Covers(t, n, init, moving, k, b)
  {
  }

  /** How a state was first discovered: `Root` for the initial state, else its parent and the move from it. */
  datatype Parent = Root | Link(prev: State, move: Move)

  /** The record of a non-initial state `k` names a known parent one layer shallower, from which a real move of a `moving` robot leads to `k`. */
  ghost predicate LinkOk(t: Tables, n: nat, moving: seq<Color>, path: map<State, Parent>, depth: map<State, nat>, k: State)
    requires ValidTables(t, n) && depth.Keys == path.Keys && k in path
    requires forall x :: x in path ==> ValidState(x, n)
  {
    && path[k].Link?
    && path[k].prev in path
    && depth[k] == depth[path[k].prev] + 1
    && path[k].move.color in moving
    && Step(t, n, path[k].prev, path[k].move) == k
    && k[Index(path[k].move.color)] != path[k].prev[Index(path[k].move.color)]
  }

  /** The parent records of a search rooted at `init`; `depth` (proof only) is each state's layer. */
  ghost predicate ParentLinks(t: Tables, n: nat, init: State, moving: seq<Color>, path: map<State, Parent>, depth: map<State, nat>)
    requires ValidTables(t, n)
  {
    && depth.Keys == path.Keys
    && init in path && depth[init] == 0
    && (forall x :: x in path ==> ValidState(x, n))
    && forall k {:trigger LinkOk(t, n, moving, path, depth, k)} :: k in path && k != init ==> LinkOk(t, n, moving, path, depth, k)
  }

  /** `ms` moves only `moving` robots, leads from `from` to `goal`, and has no idle move. */
  ghost predicate Leads(t: Tables, n: nat, moving: seq<Color>, from: State, ms: seq<Move>, goal: State)
  {
    && ValidTables(t, n) && ValidState(from, n)
    && UsesOnly(ms, moving)
    && Replay(t, n, from, ms) == goal
    && NoIdleMoves(t, n, from, ms)
  }

  /** Putting a real move in front of a move list replays from the state it leads to, and stays free of idle moves. */
  lemma Prepend(t: Tables, n: nat, moving: seq<Color>, p: State, m: Move, ms: seq<Move>)
    requires ValidTables(t, n) && ValidState(p, n)
    requires Step(t, n, p, m)[Index(m.color)] != p[Index(m.color)]
    ensures Replay(t, n, p, [m] + ms) == Replay(t, n, Step(t, n, p, m), ms)
    ensures NoIdleMoves(t, n, Step(t, n, p, m), ms) ==> NoIdleMoves(t, n, p, [m] + ms)
    ensures UsesOnly(ms, moving) && m.color in moving ==> UsesOnly([m] + ms, moving)
  {
    assert ([m] + ms)[1..] == ms;
  }

  /**
    Breadth-first minimality: when every state within `layer` moves is known
    and none of them is a goal, no solution has fewer than `layer + 1` moves.
    */
  lemma GoalBeyond(t: Tables, n: nat, init: State, target: Color, dst: Pos, moving: seq<Color>, layer: nat, keys: set<State>)
    requires ValidTables(t, n) && ValidState(init, n)
    requires forall k :: k in keys ==> |k| == |AllColors| && k[Index(target)] != dst
    requires Covers(t, n, init, moving, layer, keys)
    ensures forall len: nat :: len <= layer + 1 ==> NoShorter(t, n, init, target, dst, moving, len)
  {
    forall len: nat | len <= layer + 1
      ensures NoShorter(t, n, init, target, dst, moving, len)
    {
      forall ms | UsesOnly(ms, moving) && Solves(t, n, init, target, dst, ms)
        ensures len <= |ms|
      {
        if |ms| <= layer {
          InKeys(t, n, init, moving, layer, keys, ms);
        }
      }
    }
  }

  lemma InKeys(t: Tables, n: nat, init: State, moving: seq<Color>, layer: nat, keys: set<State>, ms: seq<Move>)
    requires ValidTables(t, n) && ValidState(init, n)
    requires Covers(t, n, init, moving, layer, keys) && UsesOnly(ms, moving) && |ms| <= layer
    ensures Replay(t, n, init, ms) in keys
  {
  }

  /** `ms` is a solution the search may return: moves of `moving` robots only, reaching the goal, none of them idle. */
  ghost predicate IsSolution(t: Tables, n: nat, init: State, target: Color, dst: Pos, moving: seq<Color>, ms: seq<Move>)
    requires ValidTables(t, n) && ValidState(init, n)
  {
    UsesOnly(ms, moving) && Solves(t, n, init, target, dst, ms) && NoIdleMoves(t, n, init, ms)
  }

  /** No solution using `moving` robots is shorter than `len`. */
  ghost predicate NoShorter(t: Tables, n: nat, init: State, target: Color, dst: Pos, moving: seq<Color>, len: int)
    requires ValidTables(t, n) && ValidState(init, n)
  {
    forall ms :: UsesOnly(ms, moving) && Solves(t, n, init, target, dst, ms) ==> len <= |ms|
  }

  /** The parent records of a search that has not met the goal yet: no recorded state has the target robot on `dst`. */
  ghost predicate Searching(t: Tables, n: nat, init: State, target: Color, dst: Pos, moving: seq<Color>,
                            path: map<State, Parent>, depth: map<State, nat>)
    requires ValidTables(t, n)
  {
    ParentLinks(t, n, init, moving, path, depth) && forall k :: k in path ==> k[Index(target)] != dst
  }

  /**
    `path'` only adds records to `path`, every added state is queued in
    `newToSee'`, and every state added to the queue is recorded at layer `below`.
    */
  ghost predicate Extends(path: map<State, Parent>, depth: map<State, nat>, newToSee: seq<State>,
                          path': map<State, Parent>, depth': map<State, nat>, newToSee': seq<State>, below: nat)
    requires depth.Keys == path.Keys && depth'.Keys == path'.Keys
  {
    && path.Keys <= path'.Keys
    && (forall k :: k in path ==> depth'[k] == depth[k])
    && (forall k :: k in path' ==> k in path || (k in newToSee' && depth'[k] == below))
    && (forall k :: k in newToSee' ==> k in newToSee || (k in path' && depth'[k] == below))
    && (forall k :: k in newToSee ==> k in newToSee')
  }

  lemma ExtendsTrans(path: map<State, Parent>, depth: map<State, nat>, q: seq<State>,
                     path1: map<State, Parent>, depth1: map<State, nat>, q1: seq<State>,
                     path2: map<State, Parent>, depth2: map<State, nat>, q2: seq<State>, below: nat)
    requires depth.Keys == path.Keys && depth1.Keys == path1.Keys && depth2.Keys == path2.Keys
    requires Extends(path, depth, q, path1, depth1, q1, below) && Extends(path1, depth1, q1, path2, depth2, q2, below)
    ensures Extends(path, depth, q, path2, depth2, q2, below)
  {
  }

  /** Recording a new state reached by a move from a recorded state keeps the parent records well formed. */
  lemma RecordLink(t: Tables, n: nat, init: State, moving: seq<Color>, path: map<State, Parent>, depth: map<State, nat>, s: State, m: Move)
    requires ValidTables(t, n) && ParentLinks(t, n, init, moving, path, depth)
    requires s in path && m.color in moving && Step(t, n, s, m) !in path
    ensures ParentLinks(t, n, init, moving, path[Step(t, n, s, m) := Link(s, m)], depth[Step(t, n, s, m) := depth[s] + 1])
  {
    var next := Step(t, n, s, m);
    var (path', depth') := (path[next := Link(s, m)], depth[next := depth[s] + 1]);
    StepChangesMover(t, n, s, m);
    assert LinkOk(t, n, moving, path', depth', next);
    forall k | k in path && k != init
      ensures LinkOk(t, n, moving, path', depth', k)
    {
      assert LinkOk(t, n, moving, path, depth, k);
    }
  }

  /** The moves the two inner loops of `explore_v2` try, in order: each moving colour, then each direction. */
  function MoveOrder(moving: seq<Color>): (ms: seq<Move>)
    ensures |ms| == |moving| * |AllWalls|
    ensures forall m :: m in ms <==> m.color in moving
  {
    if |moving| == 0 then []
    else
      var here := seq(|AllWalls|, k requires 0 <= k < |AllWalls| => Move(moving[0], AllWalls[k]));
      var rest := MoveOrder(moving[1..]);
      forall m: Move | m.color == moving[0]
        ensures m in here
      {
        AllWallsEnumerates(m.dir);
        var k :| 0 <= k < |AllWalls| && AllWalls[k] == m.dir;
        assert here[k] == m;
      }
      assert forall c :: c in moving <==> c == moving[0] || c in moving[1..];
      here + rest
  }

  /** The states one move of `ms` leads to from `s`. */
  ghost function Successors(t: Tables, n: nat, s: State, ms: seq<Move>): set<State>
    requires ValidTables(t, n) && ValidState(s, n)
    decreases |ms|
  {
    if |ms| == 0 then {}
    else Successors(t, n, s, ms[..|ms| - 1]) + {Step(t, n, s, ms[|ms| - 1])}
  }

  /**
    What holds part-way through the moves from `s`: starting from `path`,
    the search has recorded `path'` and queued `newToSee'` at the layer below
    `s`, and each of the first `e` moves of `order` from `s` leads to a
    recorded state.
    */
  ghost predicate ExpandInv(t: Tables, n: nat, init: State, target: Color, dst: Pos, moving: seq<Color>, layer: nat,
                            path: map<State, Parent>, depth: map<State, nat>, newToSee: seq<State>, s: State,
                            path': map<State, Parent>, depth': map<State, nat>, newToSee': seq<State>, order: seq<Move>, e: nat)
  {
    && ValidTables(t, n) && ValidState(init, n) && ValidState(s, n)
    && depth.Keys == path.Keys && s in path
    && Searching(t, n, init, target, dst, moving, path', depth')
    && Extends(path, depth, newToSee, path', depth', newToSee', depth[s] + 1)
    && Covers(t, n, init, moving, layer, path'.Keys)
    && e <= |order|
    && Successors(t, n, s, order[..e]) <= path'.Keys
  }

  /** The invariant of the moves from `s` holds before the first move. */
  lemma ExpandStart(t: Tables, n: nat, init: State, target: Color, dst: Pos, moving: seq<Color>, layer: nat,
                    path: map<State, Parent>, depth: map<State, nat>, newToSee: seq<State>, s: State, order: seq<Move>)
    requires ValidTables(t, n) && ValidState(init, n) && Searching(t, n, init, target, dst, moving, path, depth)
    requires s in path && Covers(t, n, init, moving, layer, path.Keys)
    ensures ExpandInv(t, n, init, target, dst, moving, layer, path, depth, newToSee, s, path, depth, newToSee, order, 0)
  {
    assert order[..0] == [];
  }

  /** The invariant of the moves from `s` survives one `Visit` that did not meet the goal. */
  lemma ExpandStep(t: Tables, n: nat, init: State, target: Color, dst: Pos, moving: seq<Color>, layer: nat,
                   path: map<State, Parent>, depth: map<State, nat>, newToSee: seq<State>, s: State,
                   p0: map<State, Parent>, d0: map<State, nat>, q0: seq<State>, order: seq<Move>, e: nat,
                   p1: map<State, Parent>, d1: map<State, nat>, q1: seq<State>)
    requires ExpandInv(t, n, init, target, dst, moving, layer, path, depth, newToSee, s, p0, d0, q0, order, e) && e < |order|
    requires Searching(t, n, init, target, dst, moving, p1, d1)
    requires Extends(p0, d0, q0, p1, d1, q1, d0[s] + 1)
    requires Step(t, n, s, order[e]) in p1
    ensures ExpandInv(t, n, init, target, dst, moving, layer, path, depth, newToSee, s, p1, d1, q1, order, e + 1)
  {
    assert d0[s] == depth[s];
    ExtendsTrans(path, depth, newToSee, p0, d0, q0, p1, d1, q1, depth[s] + 1);
    CoversSubset(t, n, init, moving, layer, p0.Keys, p1.Keys);
    SuccessorsSnoc(t, n, s, order, e);
  }

  /** The successors by a longer prefix of `ms`: one more state, the one `ms[e]` leads to. */
  lemma SuccessorsSnoc(t: Tables, n: nat, s: State, ms: seq<Move>, e: nat)
    requires ValidTables(t, n) && ValidState(s, n) && e < |ms|
    ensures Successors(t, n, s, ms[..e + 1]) == Successors(t, n, s, ms[..e]) + {Step(t, n, s, ms[e])}
  {
    assert ms[..e + 1][..e] == ms[..e];
  }

  /** Once every move of `MoveOrder(moving)` has been tried from `s`, `s` is expanded and the records only grew. */
  lemma ExpandDone(t: Tables, n: nat, init: State, target: Color, dst: Pos, moving: seq<Color>, layer: nat,
                   path: map<State, Parent>, depth: map<State, nat>, newToSee: seq<State>, s: State,
                   path': map<State, Parent>, depth': map<State, nat>, newToSee': seq<State>)
    requires ExpandInv(t, n, init, target, dst, moving, layer, path, depth, newToSee, s, path', depth', newToSee', MoveOrder(moving), |MoveOrder(moving)|)
    ensures Searching(t, n, init, target, dst, moving, path', depth')
    ensures Extends(path, depth, newToSee, path', depth', newToSee', depth[s] + 1)
    ensures Expanded(t, n, moving, {s}, path'.Keys)
  {
    var order := MoveOrder(moving);
    assert order[..|order|] == order;
    OrderExpands(t, n, moving, s, path'.Keys);
  }

  /** Trying every move of `MoveOrder(moving)` from `s` expands `s` completely. */
  lemma OrderExpands(t: Tables, n: nat, moving: seq<Color>, s: State, keys: set<State>)
    requires ValidTables(t, n) && ValidState(s, n)
    requires Successors(t, n, s, MoveOrder(moving)) <= keys
    ensures Expanded(t, n, moving, {s}, keys)
  {
    var order := MoveOrder(moving);
    forall m: Move | m.color in moving
      ensures Step(t, n, s, m) in keys
    {
      var k :| 0 <= k < |order| && order[k] == m;
      SuccessorsHas(t, n, s, order, k);
    }
  }

  /** Every move of `ms` from `s` leads to one of the successors. */
  lemma {:induction false} SuccessorsHas(t: Tables, n: nat, s: State, ms: seq<Move>, k: nat)
    requires ValidTables(t, n) && ValidState(s, n) && k < |ms|
    ensures Step(t, n, s, ms[k]) in Successors(t, n, s, ms)
    decreases |ms|
  {
    if k < |ms| - 1 {
      SuccessorsHas(t, n, s, ms[..|ms| - 1], k);
    }
  }

  /** Adding an expanded state to an expanded set, with more known states, keeps it expanded. */
  lemma ExpandedGrow(t: Tables, n: nat, moving: seq<Color>, seen: set<State>, s: State, keys: set<State>, keys': set<State>)
    requires ValidTables(t, n) && ValidState(s, n) && forall x :: x in seen ==> ValidState(x, n)
    requires Expanded(t, n, moving, seen, keys) && Expanded(t, n, moving, {s}, keys') && keys <= keys'
    ensures Expanded(t, n, moving, seen + {s}, keys')
  {
    forall x, m: Move | x in seen + {s} && m.color in moving
      ensures Step(t, n, x, m) in keys'
    {
      if x != s {
        assert Step(t, n, x, m) in keys;
      }
    }
  }

  /** The states of a queue, as a set. */
  ghost function Elements(q: seq<State>): set<State>
  {
    set x | x in q
  }

  /**
    `SeeState` took `s` from `(seen, path, depth, newToSee)` to
    `(seen', path', depth', newToSee')` without meeting the goal: `s` is now
    seen, new states are recorded and queued at layer `i + 1`, and `s` is
    expanded unless this is the last layer.
    */
  ghost predicate Advanced(t: Tables, n: nat, init: State, target: Color, dst: Pos, moving: seq<Color>, i: nat, expand: bool,
                           seen: set<State>, path: map<State, Parent>, depth: map<State, nat>, newToSee: seq<State>, s: State,
                           seen': set<State>, path': map<State, Parent>, depth': map<State, nat>, newToSee': seq<State>)
  {
    && ValidTables(t, n)
    && depth.Keys == path.Keys
    && Searching(t, n, init, target, dst, moving, path', depth')
    && Extends(path, depth, newToSee, path', depth', newToSee', i + 1)
    && seen' == seen + {s} && seen' <= path'.Keys
    && (expand ==> Expanded(t, n, moving, seen', path'.Keys))
    && (!expand ==> path' == path && newToSee' == newToSee)
  }

  /**
    What holds part-way through the loop over one layer: starting from
    `path` and `seen`, the search has recorded `path'`, marked `seen'`
    (states of the layer only) and queued `newToSee` for layer `i + 1`.
    */
  ghost predicate LayerInv(t: Tables, n: nat, init: State, target: Color, dst: Pos, moving: seq<Color>,
                           seen: set<State>, layer: set<State>, path: map<State, Parent>, depth: map<State, nat>, i: nat, expand: bool,
                           seen': set<State>, path': map<State, Parent>, depth': map<State, nat>, newToSee: seq<State>)
  {
    && ValidTables(t, n) && ValidState(init, n)
    && depth.Keys == path.Keys
    && Searching(t, n, init, target, dst, moving, path', depth')
    && Extends(path, depth, [], path', depth', newToSee, i + 1)
    && (forall x :: x in layer ==> x in path' && depth'[x] == i)
    && Covers(t, n, init, moving, i, path'.Keys)
    && seen <= seen' <= path'.Keys
    && seen' <= seen + layer
    && (expand ==> Expanded(t, n, moving, seen', path'.Keys))
    && (!expand ==> path' == path && newToSee == [])
  }

  /** The layer invariant holds before the first state of the layer is looked at. */
  lemma LayerStart(t: Tables, n: nat, init: State, target: Color, dst: Pos, moving: seq<Color>,
                   seen: set<State>, toSee: seq<State>, path: map<State, Parent>, depth: map<State, nat>, i: nat, expand: bool)
    requires ValidTables(t, n) && ValidState(init, n) && Searching(t, n, init, target, dst, moving, path, depth)
    requires seen <= path.Keys
    requires forall x :: x in toSee ==> x in path && depth[x] == i
    requires Covers(t, n, init, moving, i, path.Keys)
    requires expand ==> Expanded(t, n, moving, seen, path.Keys)
    ensures LayerInv(t, n, init, target, dst, moving, seen, Elements(toSee), path, depth, i, expand, seen, path, depth, [])
  {
  }

  /** The layer invariant survives one call of `SeeState` that did not meet the goal. */
  lemma LayerStep(t: Tables, n: nat, init: State, target: Color, dst: Pos, moving: seq<Color>,
                  seen: set<State>, layer: set<State>, path: map<State, Parent>, depth: map<State, nat>, i: nat, expand: bool,
                  s0: set<State>, p0: map<State, Parent>, d0: map<State, nat>, q0: seq<State>, s: State,
                  s1: set<State>, p1: map<State, Parent>, d1: map<State, nat>, q1: seq<State>)
    requires LayerInv(t, n, init, target, dst, moving, seen, layer, path, depth, i, expand, s0, p0, d0, q0)
    requires s in layer
    requires Advanced(t, n, init, target, dst, moving, i, expand, s0, p0, d0, q0, s, s1, p1, d1, q1)
    ensures LayerInv(t, n, init, target, dst, moving, seen, layer, path, depth, i, expand, s1, p1, d1, q1)
  {
    ExtendsTrans(path, depth, [], p0, d0, q0, p1, d1, q1, i + 1);
    CoversSubset(t, n, init, moving, i, p0.Keys, p1.Keys);
  }

  /** The elements of a longer prefix of a queue: one more entry, itself an element of the queue. */
  lemma ElementsPrefix(q: seq<State>, j: nat)
    requires j < |q|
    ensures Elements(q[..j + 1]) == Elements(q[..j]) + {q[j]}
    ensures q[j] in Elements(q)
  {
    assert q[..j + 1] == q[..j] + [q[j]];
  }
}
