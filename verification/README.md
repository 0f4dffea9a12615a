# Ricochet-robot solver core, in Dafny

This project models the solving engine of the ricochet-robot AI, together with
the grid utilities it depends on, and proves properties of that model.

- **Walls and colours** (`walls.dfy`, `colors.dfy`). Each wall flag is one bit of a cell byte. Each flag has a table slot given by `rank`. Colours are numbered 0..3. `revert_color_value` maps a number back to its colour.
- **Slide tables** (`slide_table.dfy`). `transform_grid` turns a grid of wall bytes into four tables. For each cell and direction, a table gives the farthest cell a robot reaches when only walls count.
- **Moves** (`moves.dfy`). `move_v4` starts from the table's stop and shortens the slide at the first robot in the way. `transform_state_v2` turns a colour→cell map into the tuple state the search uses.
- **Search** (`search_spec.dfy`, `search.dfy`). `explore_v2` is a layered breadth-first search. It keeps parent records and rebuilds the path from them. The model proves that every returned move list is sound when replayed, and that it is a shortest one.
- **Policy** (`policy.dfy`). `optimal_explore` tries the target robot with growing sets of helper robots under a shrinking depth schedule. It keeps the strictly shortest path.
- **Union-find and Kruskal grouping** (`union_find.dfy`, `kruskal.dfy`, `kruskal_examples.dfy`, `sorting.dfy`). `UnionFind` is modelled with `find` (path compression), `find_alt`, `union` and `groups`. `kruskal_groups` uses it to cluster values.
- **Wall-grid extraction and rendering** (`grid_extraction.dfy`, `pretty_print.dfy`). `get_wall_grid` is modelled from the point where the template matches are known. `pretty_print` draws a grid as block characters and as a 0/255 matrix.

`wrappers.dfy` holds `Option`/`Result`. `board.dfy` holds the grid type. `seqs.dfy` holds sequence concatenation lemmas.

## How the model reads the code

- **The search is keyed by state values.** `explore_v2` keys its parent dictionary and seen set by `hash(state)`. The model keys them by the state itself, so it does not model hash collisions.
- **Path rebuilding prepends.** The source appends moves while walking the parent links and reverses the list at the end (lines 150-157). `Search.Rebuild` prepends instead, which gives the same list.
- **No-op moves never reach a result.** The source has no explicit no-op check. A move that leaves its robot in place gives back a state already in `seen`, so it is never queued. It can also never end the search, because no recorded state has the target on `dst`. `SearchSpec.IsSolution` includes `NoIdleMoves`, and `Search.ExploreV2` proves it for every result.
- **Which flag builds which table follows the code.** `transform_grid` scans a row left to right with the LEFT flag to fill the LEFT table, and right to left with the RIGHT flag to fill the RIGHT table (lines 20-32). Columns are handled the same way for TOP and BOTTOM.
- **`Wall.rank` follows the code, not its docstring.** The docstring says `int(np.log2(value)) - 1`. The code returns log2 of the value: TOP (8) gets 3, RIGHT (1) gets 0. `Walls.Rank` states `Pow2(rank) == value`.
- **`find_alt` changes nothing.** Its comment promises path splitting. In the tuple assignment `elem, self.parent[elem] = ...`, `elem` is rebound first. The second target therefore writes the new `elem`'s own parent back into its own slot. `UnionFind.FindAlt` proves that it returns the root and leaves the forest unchanged.
- **The early-return padding in `kruskal_groups` is always empty.** It is `range(current_nb_groups - nb_groups)`, and that branch is taken only when `current_nb_groups <= nb_groups`. `Kruskal.KruskalGroups` returns exactly the singleton groups there.
- **`get_wall_grid` handles numpy indices like numpy.** Negative match coordinates count from the end. Coordinates outside -16..15 raise `IndexError`. The tests `x > 0` and `y > 0` apply to the raw coordinate.

## Model

| member | source | states |
|---|---|---|
| Walls.Mask | image_extraction/Wall.py:6-11 | Each wall flag is a one-bit byte mask whose value is the flag's integer value (8, 4, 2, 1). |
| Walls.Rank | image_extraction/Wall.py:13-23 | The slot of a direction is below 4 and is the base-2 logarithm of its flag value. |
| Walls.RankInjective | image_extraction/Wall.py:13-23 | Two directions share a table slot exactly when they are the same direction. |
| Walls.MasksDisjoint | image_extraction/Wall.py:6-11 | Two flags overlap in some bit exactly when they are the same flag. |
| Walls.MasksCoverNibble | image_extraction/Wall.py:6-11 | The four flags OR together to 15: they fill the low four bits exactly. |
| Walls.AllWallsEnumerates | image_extraction/Wall.py:6-11 | Iterating `Wall` yields every direction, each exactly once. |
| Colors.Index | image_extraction/Color.py:5-10 | A colour's value is its position in the enumeration `BLUE, YELLOW, GREEN, RED`. |
| Colors.IndexInjective | image_extraction/Color.py:5-10 | Distinct colours occupy distinct state slots, and conversely. |
| Colors.RevertColorValue | image_extraction/Color.py:20-21 | Defined exactly for -4..3, the rest being an `IndexError`; 0..3 give the colour of that value, and negative values count from the end of the list. |
| Colors.RevertRoundTrip | image_extraction/Color.py:20-21 | Reverting a colour's value gives back that colour. |
| Colors.RgbDistinct | image_extraction/Color.py:13-17 | Different robots get different drawing colours, and every channel is a byte. |
| SlideTable.LowScan | ai_robot/ai_robot.py:20-25 | The running `rank` of a left-to-right (or top-to-bottom) scan, started mid-line, is at each position the last flagged position seen, or the starting rank. |
| SlideTable.HighScan | ai_robot/ai_robot.py:27-32 | The running `rank` of a right-to-left (or bottom-to-top) scan is at each position the nearest flagged position at or after it, or the starting rank. |
| SlideTable.LowStops | ai_robot/ai_robot.py:34-39 | A full scan towards low indices gives each position the largest position at or before it carrying the flag, or 0. |
| SlideTable.HighStops | ai_robot/ai_robot.py:41-46 | A full scan towards high indices gives each position the smallest position at or after it carrying the flag, or the last position. |
| SlideTable.Transpose | ai_robot/ai_robot.py:34-46 | The column-scan tables stored by row: entry `(i, j)` is entry `i` of column `j`. |
| SlideTable.TransformGrid | ai_robot/ai_robot.py:17-48 | Four `n`×`n` tables in rank order, each entry the wall-only stop of its cell in its slot's direction. |
| SlideTable.TransformGridValid | ai_robot/ai_robot.py:17-48 | Every table stop lies on the grid, between its cell and the edge the direction faces. |
| Moves.BlockLow | ai_robot/ai_robot.py:61-68 | The robot loop towards low indices ends no lower than the wall stop, never passes the source, and leaves no robot between the result and the source; the result is the wall stop or one past a robot. |
| Moves.BlockHigh | ai_robot/ai_robot.py:70-79 | The same for slides towards high indices: stop one short of the nearest robot, else at the wall stop. |
| Moves.MoveV4 | ai_robot/ai_robot.py:57-101 | A slide keeps the coordinate across its direction, and stays on the board when the tables are valid. |
| Moves.MoveIsSlide | ai_robot/ai_robot.py:57-101 | `move_v4` returns the farthest cell up to the wall stop with no robot between it and the source, one cell short of the first robot in the way. |
| Moves.SlideUnique | ai_robot/ai_robot.py:57-101 | That characterisation allows only one destination. |
| Moves.MoveOrderIndependent | ai_robot/ai_robot.py:64-67 | The destination depends only on the set of robot cells, not on the order the state lists them in. |
| Moves.MoveAvoidsOthers | ai_robot/ai_robot.py:57-101 | From a state with distinct cells, a robot never lands on another robot's cell. |
| Moves.Byte | ai_robot/ai_robot.py:107 | `np.uint8` reduces modulo 256 and leaves 0..255 unchanged. |
| Moves.TransformStateV2 | ai_robot/ai_robot.py:104-108 | Fails exactly when a colour's value is past the end of the list (`IndexError`); otherwise the list has one slot per robot, each robot's byte-cast cell sits at its colour's slot, and every filled slot belongs to a robot of the map. |
| Moves.TransformStateRoundTrip | ai_robot/ai_robot.py:104-108 | On a board of at most 256 cells a side, the map of a four-robot state converts back to exactly that state. |
| SearchSpec.Step | ai_robot/ai_robot.py:139-142 | Applying a move keeps every robot on the board. |
| SearchSpec.StepChangesMover | ai_robot/ai_robot.py:139-142 | A move changes the state exactly when it changes the moved robot's cell. |
| SearchSpec.StepKeepsDistinct | ai_robot/ai_robot.py:139-142 | A move keeps the robots on pairwise distinct cells. |
| SearchSpec.ReplaySnoc | ai_robot/ai_robot.py:139-142 | Replaying one more move steps from where the shorter replay ended. |
| SearchSpec.ReplayKeepsDistinct | ai_robot/ai_robot.py:139-142 | From distinct cells, every intermediate state of any replay keeps distinct cells. |
| SearchSpec.MoveOrder | ai_robot/ai_robot.py:136-140 | The inner loops try `|moving| * 4` moves, namely every direction of every moving colour and nothing else. |
| SearchSpec.RecordLink | ai_robot/ai_robot.py:145-148 | Recording a new state by its parent and move keeps every parent record pointing one layer back along a real move. |
| SearchSpec.CoversStep | ai_robot/ai_robot.py:127-159 | When every state of a layer is expanded, every replay one move longer ends in a recorded state. |
| SearchSpec.GoalBeyond | ai_robot/ai_robot.py:127-159 | When the records cover all replays of up to `layer` moves and none reaches the goal, no solution is shorter than `layer + 1`. |
| SearchSpec.ExpandDone | ai_robot/ai_robot.py:136-148 | After all moves from a state have been tried without reaching the goal, the state is expanded and the records only grew. |
| Search.Rebuild | ai_robot/ai_robot.py:150-157 | The rebuilt path has one move per layer plus the goal move, moves only `moving` robots, replays from the initial state to the goal state, and has no idle move. |
| Search.Visit | ai_robot/ai_robot.py:139-157 | One move from a state: a returned path is a solution no solution beats; otherwise the records are extended and the successor is recorded. |
| Search.ExpandLayer | ai_robot/ai_robot.py:131-148 | One layer: a found path is a shortest solution; otherwise the layer's states are seen, and on expanding layers all their successors are recorded. |
| Search.MovingColors | ai_robot/ai_robot.py:119-120 | `None` means every colour; a given list is used as it is. |
| Search.ExploreV2 | ai_robot/ai_robot.py:111-159 | `[]` exactly when the target already stands on `dst`. A returned list is a solution using only moving robots with no idle move, no solution is shorter, and a non-empty one has fewer than `rec` moves. `None` exactly when no solution has fewer than `rec` moves. |
| Policy.Without | ai_robot/ai_robot.py:164 | The list minus one colour: the same elements except that one, in order, one shorter when the colour was present once. |
| Policy.OtherColors | ai_robot/ai_robot.py:164 | The three helper colours: every colour except the target. |
| Policy.RecDepths | ai_robot/ai_robot.py:169 | One depth per possible helper count, each between 1 and the ceiling of 100. |
| Policy.PrependAllHas | ai_robot/ai_robot.py:172 | A list is among the extended combinations exactly when it starts with the new head and its tail was a combination. |
| Policy.CombinationsSplit | ai_robot/ai_robot.py:172 | The `itertools.combinations` order: picks taking the first element, then picks skipping it. |
| Policy.CombinationsCount | ai_robot/ai_robot.py:172 | There are `Binomial(|xs|, k)` combinations. |
| Policy.CombinationsExact | ai_robot/ai_robot.py:172 | The combinations are exactly the in-order picks of `k` elements. |
| Policy.CombinationAvoids | ai_robot/ai_robot.py:164-172 | A sample drawn from lists without the target never contains the target. |
| Policy.TrySample | ai_robot/ai_robot.py:174-179 | One search with the target plus a sample: the best path stays a solution, its length never grows, and no solution that search could reach beats it. |
| Policy.OptimalExplore | ai_robot/ai_robot.py:162-181 | Corrected policy (target robot included in every search). `[]` exactly when already solved. A result solves the puzzle with no idle move, is shorter than 100, and moves only the target and one scheduled sample of helpers: `h` of the other robots, for some `h` in the schedule, with the result shorter than that `h`'s depth (100, 20 or 13). No solution any scheduled search could reach is shorter. |
| Policy.ReplayLeavesIdle | ai_robot/ai_robot.py:172-176 | A replay that never moves a robot leaves it where it was. |
| Policy.OptimalExploreAsWritten | ai_robot/ai_robot.py:162-181 | Policy as written (helpers only): it returns a path exactly when the target already stands on `dst`, and that path is `[]`. |
| Policy.OpenBoardSolution | ai_robot/ai_robot.py:162-181 | On an open 3×3 board, the single move RED RIGHT from (0, 0) solves target (0, 2). |
| Policy.TargetMustMove | ai_robot/ai_robot.py:162-181 | On that board, any result meeting the corrected policy's guarantee is a path of at most one move, though the target is not on `dst`. |
| UnionFind.Init | tools/UnionFind.py:5-6 | Every element is its own parent and root; the forest is valid and keeps the insertion order. |
| UnionFind.Dedup | tools/UnionFind.py:5-6 | The keys of a dict built from a list: each element once, in first-occurrence order, the list itself when it has no repeats. |
| UnionFind.FindIn | tools/UnionFind.py:8-13 | `find` returns the root and compresses: `e` and the root point at the root, every key whose parent changed now points at the root, every key keeps its root, and the ranking still holds. |
| UnionFind.Find | tools/UnionFind.py:8-13 | The same on a forest: valid afterwards, same keys, same roots, `e` pointing straight at its root. |
| UnionFind.FindAlt | tools/UnionFind.py:15-23 | `find_alt` returns the root and leaves the forest exactly as it was. |
| UnionFind.Link | tools/UnionFind.py:30 | Linking one root under another moves exactly that class to the new root and keeps the map acyclic. |
| UnionFind.Union | tools/UnionFind.py:25-31 | Reports `False` exactly when both are in one class; otherwise `a`'s class joins `b`'s root and every other key keeps its root. |
| UnionFind.UnionClasses | tools/UnionFind.py:25-31 | A successful union removes exactly one root (`a`'s); a failed one keeps the roots. |
| UnionFind.AddTo | tools/UnionFind.py:36 | `groups[root].append(x)`: an existing entry gets `x` at its end, otherwise a new entry `(root, [x])` is appended. |
| UnionFind.AddToMembers | tools/UnionFind.py:36 | That append adds exactly one `x` to the members. |
| UnionFind.FindKeepsFlat | tools/UnionFind.py:35-36 | A `find` in the `groups` loop keeps the keys already visited pointing at their roots, and the key it finds joins them. |
| UnionFind.Groups | tools/UnionFind.py:33-37 | The groups are non-empty and hold every key exactly once. Two keys share a group exactly when they share a root. There is one group per root. Each group lists its keys in dictionary order. The forest the calls to `find` leave behind has the same keys and roots, and every key points straight at its root. |
| Sorting.Sort | tools/kruskal.py:23-24 | `sorted`: an ordered permutation of the input. |
| Sorting.SortedUnique | tools/kruskal.py:42 | Under a total order only one sorted permutation exists, so any correct sort gives the same list. |
| Kruskal.EdgeOrder | tools/kruskal.py:23-24 | Tuple order on `(distance, i, j)` is a total order. |
| Kruskal.GroupOrder | tools/kruskal.py:42 | The order of the keys `(-len(gp), gp)` is a total order. |
| Kruskal.Edges | tools/kruskal.py:23-24 | The generator yields exactly the pairs `j < i < n` with their distance. |
| Kruskal.SortedEdges | tools/kruskal.py:23-24 | `d_sorted` is in tuple order and holds exactly every pair of positions once, with its distance. |
| Kruskal.Range | tools/kruskal.py:26 | `list(range(n))`: the positions 0..n-1 in order, without repeats. |
| Kruskal.InitClasses | tools/kruskal.py:26 | The fresh forest over `range(n)` has `n` classes. |
| Kruskal.UnionCount | tools/kruskal.py:31-32 | The class count drops by one exactly when `union` reports a merge. |
| Kruskal.UnionConnects | tools/kruskal.py:31 | A union keeps joined pairs joined and joins its own pair. |
| Kruskal.MergeEdges | tools/kruskal.py:28-34 | The merge loop: `current_nb_groups` equals the class count, never goes below `nb_groups`, and every processed edge is within `d_max` with its endpoints joined. It stops early only on an edge beyond `d_max` or at `nb_groups`. Every position is linked to its class's root by a walk over processed edges. |
| Kruskal.Pick | tools/kruskal.py:40 | `[data[i] for i in gp]`. |
| Kruskal.PickPermutation | tools/kruskal.py:39-40 | Rearranging an index list rearranges its values. |
| Kruskal.ConcatPermutation | tools/kruskal.py:42 | Rearranging the groups rearranges their concatenation. |
| Kruskal.SortBySize | tools/kruskal.py:42 | The groups rearranged, larger groups first, ties in list order. |
| Kruskal.ValueGroupsPartition | tools/kruskal.py:36-42 | Index groups that partition `range(n)` give value groups holding every value of `data` exactly once. |
| Kruskal.KruskalGroups | tools/kruskal.py:9-42 | At most `nb_groups` values give the singleton groups. Otherwise the groups partition the values, there are at least `nb_groups` of them, none empty, sorted larger first and then in list order. The value groups are the position groups `groups`, which partition `range(n)`, each in increasing order. The position groups are exactly the classes of the first `stop` edges of `d_sorted`: those edges are within `d_max`, each has both ends in one group, and two positions of one group are linked by a walk over them. Past the early return the loop stopped at `stop` because the next edge exceeds `d_max`, the group count reached `nb_groups`, or no edge was left. Without `d_max` and with `nb_groups >= 1` there are exactly `nb_groups` groups. With more than `nb_groups` groups, no pair within `d_max` is split. |
| Kruskal.Cluster | tools/kruskal.py:23-42 | Past the early return: the value groups are the position groups sorted by size. They partition the values, number at least `nb_groups`, and each position group is in increasing order. The position groups are exactly the classes of the first `stop` edges of `d_sorted`, all within `d_max`. The loop stopped there on an edge beyond `d_max`, at `nb_groups` groups, or after the last edge. Without `d_max` and with `nb_groups >= 1` there are exactly `nb_groups` of them. With more than `nb_groups`, no pair within `d_max` is split. |
| Kruskal.UnionLinked | tools/kruskal.py:31 | After `union` on the next edge, every position is linked to its new root by a walk over the edges processed so far. |
| Kruskal.MergeFromLinked | tools/kruskal.py:28-34 | The whole merge loop keeps every position linked to its root by a walk over the processed edges. |
| Kruskal.PairJoined | tools/kruskal.py:23-34 | If the loop stopped at an edge beyond `d_max` or ran out of edges, every pair within `d_max` ends in one class. A later pair in `d_sorted` is no shorter. |
| Kruskal.ComponentsJoined | tools/kruskal.py:28-40 | In that case no pair within `d_max` is split between two groups. |
| Kruskal.AllJoined | tools/kruskal.py:28-34 | Once every pair has been processed, all positions form one class. |
| Kruskal.GroupsLinked | tools/kruskal.py:36-40 | The groups read off the forest are the classes of the processed edges: every processed edge has both ends in one group, and two positions of one group are linked by a walk over processed edges. |
| Kruskal.GroupsAscending | tools/UnionFind.py:34-36 | `groups()` over `range(n)` lists every group in increasing order. |
| KruskalExamples.ClosestPairFirst | tools/kruskal.py:23-34 | For `[0, 1, 10, 11]` with `abs_diff` and `nb_groups = 2`, positions `[[0, 2], [1, 3]]` are the classes of no prefix of `d_sorted`, because the first edge joins 1 and 0. |
| KruskalExamples.ChainBeforeCut | tools/kruskal.py:23-34 | For `[0, 1, 2, 3]` with `abs_diff` and `d_max = 3`, positions `[[0, 1], [2, 3]]` are the classes of no prefix, because edge `(1, 2, 1)` comes before the only edge linking 2 and 3. |
| GridExtraction.Zeros | image_extraction/grid_extraction.py:49 | A 16×16 grid of zero bytes. |
| GridExtraction.SameWalls | image_extraction/grid_extraction.py:14-19 | A cell with its high bits clear is determined by its four wall flags. |
| GridExtraction.OrRect | image_extraction/grid_extraction.py:52-62 | `grid[r0:r1, c0:c1] |= m` ORs `m` into exactly the cells of the rectangle. |
| GridExtraction.BaseGridWalls | image_extraction/grid_extraction.py:48-62 | Before any match, a cell has a flag exactly on the outer boundary and on the walled centre block with its four neighbouring strips; the high bits stay clear. |
| GridExtraction.Wrap | image_extraction/grid_extraction.py:69-78 | A numpy index in -16..15 stands for the position congruent to it modulo 16. |
| GridExtraction.AddWall | image_extraction/grid_extraction.py:69-78 | One match fails with `IndexError` exactly when a coordinate is outside -16..15. |
| GridExtraction.AddWallFlags | image_extraction/grid_extraction.py:69-78 | One match ORs in exactly the flags it hits: LEFT on its cell and RIGHT on the cell before it, or TOP and BOTTOM. |
| GridExtraction.AddWalls | image_extraction/grid_extraction.py:69-78 | The loop over one template's matches succeeds exactly when every coordinate is a valid index. |
| GridExtraction.AddWallsFlags | image_extraction/grid_extraction.py:69-78 | After the loop, a cell has a flag exactly when it had it before or some match hits it. |
| GridExtraction.GetWallGrid | image_extraction/grid_extraction.py:48-78 | The wall grid fails exactly when some match coordinate is not a valid index, and is 16×16 otherwise. |
| GridExtraction.WallGridFlags | image_extraction/grid_extraction.py:48-78 | A cell has a wall exactly when the base grid puts it there or some vertical or horizontal match does; no high bit is set. |
| GridExtraction.WallGridKeepsBase | image_extraction/grid_extraction.py:48-62 | The boundary and centre walls are present whatever the matches. |
| GridExtraction.VerticalMatchWalled | image_extraction/grid_extraction.py:69-72 | An on-board vertical match walls both cells it separates. |
| GridExtraction.HorizontalMatchWalled | image_extraction/grid_extraction.py:75-78 | An on-board horizontal match walls both cells it separates. |
| GridExtraction.WallGridOrderFree | image_extraction/grid_extraction.py:69-78 | Match lists with the same elements give the same grid. `case_match` returns `list(set)`, so its order does not matter. |
| GridExtraction.WallGridConsistent | image_extraction/grid_extraction.py:48-78 | For on-board matches, every wall is seen from both sides: RIGHT on a cell exactly when LEFT on its right neighbour, and BOTTOM exactly when TOP below. |
| PrettyPrinter.Repeat | image_extraction/grid_extraction.py:96 | `x * size`: `max(size, 0)` copies of `x`. |
| PrettyPrinter.Piece | image_extraction/grid_extraction.py:94-103 | Each cell adds `size + 2` characters to each of its lines. |
| PrettyPrinter.PrettyPrint | image_extraction/grid_extraction.py:85-114 | Rendering fails with `IndexError` exactly when the grid has fewer than 16 rows of 16 cells. |
| PrettyPrinter.LinesShape | image_extraction/grid_extraction.py:89-107 | The drawing is square: `16 * (max(size, 0) + 2)` lines of as many characters. |
| PrettyPrinter.PrettyPrintBlocks | image_extraction/grid_extraction.py:89-107 | The block of each cell is drawn from that cell alone: a character is ▓ exactly when it lies on the side of a wall the cell has. |
| PrettyPrinter.LinesChars | image_extraction/grid_extraction.py:86-103 | The drawing uses only ░ and ▓. |
| PrettyPrinter.SplitJoin | image_extraction/grid_extraction.py:114 | Splitting joined lines at the line breaks gives the lines back. |
| PrettyPrinter.PrettyPrintText | image_extraction/grid_extraction.py:104-114 | The text splits back into the drawing's lines. |
| PrettyPrinter.PrettyPrintMatrix | image_extraction/grid_extraction.py:109-112 | The matrix is square, as wide as a line, and holds 255 exactly where the drawing has ▓ and 0 elsewhere. |
| PrettyPrinter.DecodeRoundTrip | image_extraction/grid_extraction.py:94-107 | With `size >= 1` the drawing loses nothing: every wall flag of every cell can be read back from its block. |
| PrettyPrinter.ThinDrawingAmbiguous | image_extraction/grid_extraction.py:96-103 | With `size <= 0`, a cell walled TOP and BOTTOM draws the same as one walled LEFT and RIGHT. |

## Left out

- Image processing is not modelled: the cv2 pipeline of `get_wall_grid` (lines 40-46), the templates (lines 65-66) and `case_match`. The model takes the two match lists as inputs, as any list of integer pairs.
- The rest of the repository is not part of this model: board extraction, image annotation, the chat bot, `main.py` and `geometry.py`. They are I/O around the core.
- The progress `print` in `explore_v2` (ai_robot.py line 128) is I/O and is left out. So is the unused `numba` import.
- Search.ExploreV2: keys the parent records and the seen set by state value instead of `hash(state)`, so hash collisions are not modelled.
- Moves.MoveV4: takes a `Wall` instead of an arbitrary `direction_value`. The source's fall-through `None` for other integers is not modelled.
- SlideTable.TransformGrid: stops are unbounded integers, while the source stores them in a `uint8` array. They agree on boards of at most 256 cells a side.
- Policy.OptimalExplore and Policy.OptimalExploreAsWritten: iterate `rec_depths`. Line 171 names the undefined `rec_depth`, so the source as written raises `NameError` on every call. Both readings are modelled with the evident variable.
- Moves.TransformStateV2: states are modelled as colour-indexed cells (`Option<Pos>` slots, `None` standing for Python's `()`). The immutable tuple the source returns is a plain sequence here.
- UnionFind.Find: the recursion depth limit of Python is not modelled. The `self.parent1`/`self.parent2` attributes that `union` leaves behind are not modelled either, because nothing reads them.
- UnionFind.Groups: the order of the groups follows the first occurrence of each root in key order. Membership, partition, count and the order inside each group are stated, not the order of the groups. `kruskal_groups` sorts the groups afterwards, so its result does not depend on that order.
- Kruskal.KruskalGroups: data and distances are integers instead of floats, and `d_max = inf` is `None`. `dist` is a parameter function and is assumed total.
- PrettyPrinter.PrettyPrint: the matrix has integer entries, where numpy would hold floats 0.0/255.0. Grids wider or taller than 16 are drawn from their first 16×16 cells, as in the source.
- `Color` and `Wall` are `IntFlag`s in the source. Their flag arithmetic beyond the values and `rank` used here is not modelled. `grid_extraction.py` defines its own `Wall` with the same four values, and the model uses one `Wall` type for both.

## Findings

| source | as written | input that shows it | evidently intended | confidence | as-written member | corrected member |
|---|---|---|---|---|---|---|
| ai_robot/ai_robot.py:172-176 | Each search moves only `colors_sample`, drawn from the other colours, so the target robot never moves and nothing is found unless it already stands on `dst`. | Open 3×3 board, RED at (0, 0), the others on row 2, target (0, 2): one move solves it, but the as-written policy returns `None`. | Search with the target robot plus the sample of helpers, `[color_dst] + sample`. | not executed | Policy.OptimalExploreAsWritten (with Policy.TargetMustMove) | Policy.OptimalExplore |
