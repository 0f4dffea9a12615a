/**
  `explore_v2`: bounded breadth-first search over robot states, with the
  replay semantics of a move list that states its soundness and minimality.
  */
module Search {

  import opened Wrappers
  import opened Walls
  import opened Colors
  import opened SlideTable
  import opened Moves
  import opened SearchSpec

  /**
    Path reconstruction: walk the parent records back from `s` to `init`,
    collecting moves, then finish with the goal move `m`. (The source appends
    and reverses at the end; prepending gives the same list.)
    */
  method Rebuild(t: Tables, n: nat, init: State, moving: seq<Color>, path: map<State, Parent>, ghost depth: map<State, nat>, s: State, m: Move)
    returns (res: seq<Move>)
    requires ValidTables(t, n) && ParentLinks(t, n, init, moving, path, depth)
    requires s in path && m.color in moving
    requires Step(t, n, s, m)[Index(m.color)] != s[Index(m.color)]
    ensures |res| == depth[s] + 1
    ensures UsesOnly(res, moving)
    ensures Replay(t, n, init, res) == Step(t, n, s, m)
    ensures NoIdleMoves(t, n, init, res)
  {
    res := [m];
    var prev := s;
    while prev != init
      invariant prev in path
      invariant |res| + depth[prev] == depth[s] + 1
      invariant Leads(t, n, moving, prev, res, Step(t, n, s, m))
      decreases depth[prev]
    {
      assert LinkOk(t, n, moving, path, depth, prev);
      var link := path[prev];
      Prepend(t, n, moving, link.prev, link.move, res);
      res := [link.move] + res;
      prev := link.prev;
    }
  }

  /**
    The innermost loop body of `explore_v2` for one move `m` from `s` (of
    layer at most `layer`): record the successor if it is new, and stop with
    the rebuilt path when it puts the target robot on `dst`.
    */
  method Visit(t: Tables, n: nat, init: State, dst: Pos, target: Color, moving: seq<Color>,
               seen: set<State>, path: map<State, Parent>, ghost depth: map<State, nat>,
               newToSee: seq<State>, s: State, m: Move, ghost layer: nat)
    returns (path': map<State, Parent>, ghost depth': map<State, nat>, newToSee': seq<State>, found: Option<seq<Move>>)
    requires ValidTables(t, n) && ValidState(init, n) && Searching(t, n, init, target, dst, moving, path, depth)
    requires s in seen && seen <= path.Keys && depth[s] <= layer && m.color in moving
    requires Covers(t, n, init, moving, layer, path.Keys)
    ensures found.Some? ==> IsSolution(t, n, init, target, dst, moving, found.value)
    ensures found.Some? ==> |found.value| <= layer + 1 && NoShorter(t, n, init, target, dst, moving, |found.value|)
    ensures found.None? ==> Searching(t, n, init, target, dst, moving, path', depth')
    ensures found.None? ==> Extends(path, depth, newToSee, path', depth', newToSee', depth[s] + 1)
    ensures found.None? ==> Step(t, n, s, m) in path'
  {
    path', depth', newToSee', found := path, depth, newToSee, None;
    var next := Step(t, n, s, m);
    if next !in seen && next !in path {
      newToSee' := newToSee + [next];
      path' := path[next := Link(s, m)];
      depth' := depth[next := depth[s] + 1];
      RecordLink(t, n, init, moving, path, depth, s, m);
    }
    if next[Index(target)] == dst {
      var res := GoalPath(t, n, init, dst, target, moving, path', depth', s, m, layer, path.Keys);
      found := Some(res);
    }
  }

  /**
    The goal branch of the innermost loop: the move `m` from the recorded
    state `s` puts the target robot on `dst`; the rebuilt path is a solution
    no longer than `layer + 1`, and, when every state within `layer` moves
    is in `keys` and none of them is a goal, no solution is shorter.
    */
  method GoalPath(t: Tables, n: nat, init: State, dst: Pos, target: Color, moving: seq<Color>,
                  path: map<State, Parent>, ghost depth: map<State, nat>, s: State, m: Move,
                  ghost layer: nat, ghost keys: set<State>)
    returns (res: seq<Move>)
    requires ValidTables(t, n) && ValidState(init, n) && ParentLinks(t, n, init, moving, path, depth)
    requires s in path && depth[s] <= layer && m.color in moving
    requires s[Index(target)] != dst && Step(t, n, s, m)[Index(target)] == dst
    requires forall k :: k in keys ==> |k| == |AllColors| && k[Index(target)] != dst
    requires Covers(t, n, init, moving, layer, keys)
    ensures IsSolution(t, n, init, target, dst, moving, res)
    ensures |res| <= layer + 1 && NoShorter(t, n, init, target, dst, moving, |res|)
  {
    StepChangesMover(t, n, s, m);
    res := Rebuild(t, n, init, moving, path, depth, s, m);
    GoalBeyond(t, n, init, target, dst, moving, layer, keys);
  }

  /**
    The two inner loops of `explore_v2` for one newly seen state `s`: every
    moving colour, then every direction in enumeration order.
    */
  method ExpandState(t: Tables, n: nat, init: State, dst: Pos, target: Color, moving: seq<Color>,
                     seen: set<State>, path: map<State, Parent>, ghost depth: map<State, nat>,
                     newToSee: seq<State>, s: State, ghost layer: nat)
    returns (path': map<State, Parent>, ghost depth': map<State, nat>, newToSee': seq<State>, found: Option<seq<Move>>)
    requires ValidTables(t, n) && ValidState(init, n) && Searching(t, n, init, target, dst, moving, path, depth)
    requires s in seen && seen <= path.Keys && depth[s] <= layer
    requires Covers(t, n, init, moving, layer, path.Keys)
    ensures found.Some? ==> IsSolution(t, n, init, target, dst, moving, found.value)
    ensures found.Some? ==> |found.value| <= layer + 1 && NoShorter(t, n, init, target, dst, moving, |found.value|)
    ensures found.None? ==> ExpandInv(t, n, init, target, dst, moving, layer, path, depth, newToSee, s, path', depth', newToSee', MoveOrder(moving), |MoveOrder(moving)|)
  {
    path', depth', newToSee', found := path, depth, newToSee, None;
    var order := MoveOrder(moving);
    ExpandStart(t, n, init, target, dst, moving, layer, path, depth, newToSee, s, order);
    var e := 0;
    while e < |order|
      invariant 0 <= e <= |order|
      invariant found.None?
      invariant ExpandInv(t, n, init, target, dst, moving, layer, path, depth, newToSee, s, path', depth', newToSee', order, e)
    {
      assert order[e] in order;
      path', depth', newToSee', found := VisitMove(t, n, init, dst, target, moving, layer, seen, path, depth, newToSee, s,
                                                   path', depth', newToSee', order, e);
      if found.Some? {
        return;
      }
      e := e + 1;
    }
  }

  /** The body of the loop over the moves from `s`, for the move `order[e]`. */
  method VisitMove(t: Tables, n: nat, init: State, dst: Pos, target: Color, moving: seq<Color>, ghost layer: nat,
                   seen: set<State>, ghost path: map<State, Parent>, ghost depth: map<State, nat>, ghost newToSee: seq<State>, s: State,
                   path0: map<State, Parent>, ghost depth0: map<State, nat>, newToSee0: seq<State>, order: seq<Move>, e: nat)
    returns (path': map<State, Parent>, ghost depth': map<State, nat>, newToSee': seq<State>, found: Option<seq<Move>>)
    requires ExpandInv(t, n, init, target, dst, moving, layer, path, depth, newToSee, s, path0, depth0, newToSee0, order, e)
    requires e < |order| && order[e].color in moving
    requires s in seen && seen <= path.Keys && depth[s] <= layer
    ensures found.Some? ==> IsSolution(t, n, init, target, dst, moving, found.value)
    ensures found.Some? ==> |found.value| <= layer + 1 && NoShorter(t, n, init, target, dst, moving, |found.value|)
    ensures found.None? ==> ExpandInv(t, n, init, target, dst, moving, layer, path, depth, newToSee, s, path', depth', newToSee', order, e + 1)
  {
    path', depth', newToSee', found := Visit(t, n, init, dst, target, moving, seen, path0, depth0, newToSee0, s, order[e], layer);
    if found.None? {
      ExpandStep(t, n, init, target, dst, moving, layer, path, depth, newToSee, s, path0, depth0, newToSee0, order, e, path', depth', newToSee');
    }
  }

  /**
    One state of the layer, not seen before: mark it seen and, unless this is
    the last layer (`expand` false), try every move from it.
    */
  method SeeState(t: Tables, n: nat, init: State, dst: Pos, target: Color, moving: seq<Color>,
                  seen: set<State>, path: map<State, Parent>, ghost depth: map<State, nat>,
                  newToSee: seq<State>, s: State, ghost i: nat, expand: bool)
    returns (seen': set<State>, path': map<State, Parent>, ghost depth': map<State, nat>, newToSee': seq<State>, found: Option<seq<Move>>)
    requires ValidTables(t, n) && ValidState(init, n) && Searching(t, n, init, target, dst, moving, path, depth)
    requires seen <= path.Keys && s in path && depth[s] == i
    requires Covers(t, n, init, moving, i, path.Keys)
    requires expand ==> Expanded(t, n, moving, seen, path.Keys)
    ensures found.Some? ==> IsSolution(t, n, init, target, dst, moving, found.value)
    ensures found.Some? ==> |found.value| <= i + 1 && NoShorter(t, n, init, target, dst, moving, |found.value|)
    ensures found.Some? ==> expand
    ensures found.None? ==> Advanced(t, n, init, target, dst, moving, i, expand, seen, path, depth, newToSee, s, seen', path', depth', newToSee')
  {
    seen', path', depth', newToSee', found := seen + {s}, path, depth, newToSee, None;
    if expand {
      path', depth', newToSee', found := ExpandState(t, n, init, dst, target, moving, seen', path, depth, newToSee, s, i);
      if found.None? {
        ExpandDone(t, n, init, target, dst, moving, i, path, depth, newToSee, s, path', depth', newToSee');
        ExpandedGrow(t, n, moving, seen, s, path.Keys, path'.Keys);
      }
    }
  }

  /**
    The loop of `explore_v2` over `to_see` for layer `i`: each state not seen
    yet goes through `SeeState`; the first goal found ends the search.
    */
  method ExpandLayer(t: Tables, n: nat, init: State, dst: Pos, target: Color, moving: seq<Color>,
                     seen: set<State>, toSee: seq<State>, path: map<State, Parent>, ghost depth: map<State, nat>,
                     ghost i: nat, expand: bool)
    returns (seen': set<State>, path': map<State, Parent>, ghost depth': map<State, nat>, newToSee: seq<State>, found: Option<seq<Move>>)
    requires ValidTables(t, n) && ValidState(init, n) && Searching(t, n, init, target, dst, moving, path, depth)
    requires seen <= path.Keys
    requires forall x :: x in toSee ==> x in path && depth[x] == i
    requires Covers(t, n, init, moving, i, path.Keys)
    requires expand ==> Expanded(t, n, moving, seen, path.Keys)
    ensures found.Some? ==> IsSolution(t, n, init, target, dst, moving, found.value)
    ensures found.Some? ==> |found.value| <= i + 1 && NoShorter(t, n, init, target, dst, moving, |found.value|)
    ensures found.Some? ==> expand
    ensures found.None? ==> Elements(toSee) <= seen'
    ensures found.None? ==> LayerInv(t, n, init, target, dst, moving, seen, Elements(toSee), path, depth, i, expand, seen', path', depth', newToSee)
  {
    seen', path', depth', newToSee, found := seen, path, depth, [], None;
    ghost var layer := Elements(toSee);
    LayerStart(t, n, init, target, dst, moving, seen, toSee, path, depth, i, expand);
    var j := 0;
    while j < |toSee|
      invariant 0 <= j <= |toSee|
      invariant found.None?
      invariant LayerInv(t, n, init, target, dst, moving, seen, layer, path, depth, i, expand, seen', path', depth', newToSee)
      invariant Elements(toSee[..j]) <= seen'
    {
      ElementsPrefix(toSee, j);
      seen', path', depth', newToSee, found := LayerBody(t, n, init, dst, target, moving, seen, layer, path, depth, i, expand,
                                                         seen', path', depth', newToSee, toSee[j]);
      if found.Some? {
        return;
      }
      j := j + 1;
    }
    assert toSee[..j] == toSee;
  }

  /** The body of the loop over one layer, for the state `s` of the layer. */
  method LayerBody(t: Tables, n: nat, init: State, dst: Pos, target: Color, moving: seq<Color>,
                   ghost seen: set<State>, ghost layer: set<State>, ghost path: map<State, Parent>, ghost depth: map<State, nat>,
                   ghost i: nat, expand: bool,
                   seen0: set<State>, path0: map<State, Parent>, ghost depth0: map<State, nat>, newToSee0: seq<State>, s: State)
    returns (seen': set<State>, path': map<State, Parent>, ghost depth': map<State, nat>, newToSee: seq<State>, found: Option<seq<Move>>)
    requires LayerInv(t, n, init, target, dst, moving, seen, layer, path, depth, i, expand, seen0, path0, depth0, newToSee0)
    requires s in layer
    ensures found.Some? ==> IsSolution(t, n, init, target, dst, moving, found.value)
    ensures found.Some? ==> |found.value| <= i + 1 && NoShorter(t, n, init, target, dst, moving, |found.value|)
    ensures found.Some? ==> expand
    ensures found.None? ==> LayerInv(t, n, init, target, dst, moving, seen, layer, path, depth, i, expand, seen', path', depth', newToSee)
    ensures found.None? ==> seen0 <= seen' && s in seen'
  {
    seen', path', depth', newToSee, found := seen0, path0, depth0, newToSee0, None;
    if s !in seen0 {
      seen', path', depth', newToSee, found := SeeState(t, n, init, dst, target, moving, seen0, path0, depth0, newToSee0, s, i, expand);
      if found.None? {
        LayerStep(t, n, init, target, dst, moving, seen, layer, path, depth, i, expand, seen0, path0, depth0, newToSee0, s, seen', path', depth', newToSee);
      }
    }
  }

  /** The robots `explore_v2` moves: every colour unless a list is given. */
  function MovingColors(moving: Option<seq<Color>>): (cs: seq<Color>)
    ensures moving.Some? ==> cs == moving.value
    ensures moving.None? ==> forall c :: c in cs
  {
    match moving
    case None =>
      assert forall c :: c in AllColors by {
        forall c: Color
          ensures c in AllColors
        {
          assert AllColors[Index(c)] == c;
        }
      }
      AllColors
    case Some(cs) => cs
  }

  /**
    `explore_v2`: breadth-first search, layer by layer, for the shortest move
    list (moves of `moving` robots only) that puts robot `target` on `dst`,
    giving up after `rec - 1` moves. `[]` when the robot is already there,
    `None` when no list of fewer than `rec` moves exists.
    */
  method ExploreV2(t: Tables, n: nat, init: State, dst: Pos, target: Color, moving: Option<seq<Color>>, rec: int)
    returns (r: Option<seq<Move>>)
    requires ValidTables(t, n) && ValidState(init, n)
    ensures r == Some([]) <==> init[Index(target)] == dst
    ensures r.Some? ==> IsSolution(t, n, init, target, dst, MovingColors(moving), r.value)
    ensures r.Some? ==> NoShorter(t, n, init, target, dst, MovingColors(moving), |r.value|)
    ensures r.Some? && r.value != [] ==> |r.value| < rec
    ensures r.None? <==> init[Index(target)] != dst && NoShorter(t, n, init, target, dst, MovingColors(moving), rec)
  {
    var cs := MovingColors(moving);
    var seen: set<State> := {};
    var toSee := [init];
    var path := map[init := Root];
    ghost var depth: map<State, nat> := map[init := 0];
    if init[Index(target)] == dst {
      assert Replay(t, n, init, []) == init;
      return Some([]);
    }
    assert Covers(t, n, init, cs, 0, path.Keys) by {
      forall ms | UsesOnly(ms, cs) && |ms| <= 0
        ensures Replay(t, n, init, ms) in path
      {
        assert ms == [];
      }
    }
    var i := 0;
    while i < rec
      invariant 0 <= i && (0 <= rec ==> i <= rec)
      invariant Searching(t, n, init, target, dst, cs, path, depth)
      invariant seen <= path.Keys
      invariant forall x :: x in toSee ==> x in path && depth[x] == i
      invariant path.Keys <= seen + Elements(toSee)
      invariant NoShorter(t, n, init, target, dst, cs, i)
      invariant i < rec ==> Covers(t, n, init, cs, i, path.Keys) && Expanded(t, n, cs, seen, path.Keys)
    {
      GoalBeyond(t, n, init, target, dst, cs, i, path.Keys);
      var seen', path', newToSee, found;
      ghost var depth';
      seen', path', depth', newToSee, found := ExpandLayer(t, n, init, dst, target, cs, seen, toSee, path, depth, i, i != rec - 1);
      if found.Some? {
        assert i + 1 < rec;
        return found;
      }
      if i != rec - 1 {
        CoversSubset(t, n, init, cs, i, path.Keys, seen');
        CoversStep(t, n, init, cs, i, seen', path'.Keys);
      }
      seen, path, depth, toSee := seen', path', depth', newToSee;
      i := i + 1;
    }
    return None;
  }
}
