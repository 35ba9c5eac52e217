# Battlesnake move engine, modelled in Dafny

This project models the decision engine of a Battlesnake bot (`src/logic.rs`). Each turn the engine does four things:

- It rebuilds an 11x11 board of "vacate-at" stamps from the snakes' bodies.
- It surrounds that board with a wall ring.
- It scores each of our four moves with a depth-2 fail-soft alpha-beta search. The search ends in a Voronoi-style territory count.
- It returns the first move with the best score.

The model has five modules, one per part of the engine:

- `DenseBoard` (`dense_board.dfy`): the 13x13 halo grid stored as a flat buffer of 169 cells, with its index map and its get and set operations.
- `GameNode` (`game_node.dfy`): the search state `Node` as a value, plus the wall test, `apply_move`, the body-collision test and `apply_move_array`.
- `Territory` (`territory.dfy`): `voronoi`. It is specified by a fold over the scan order (four tests per cell, x-major over the 121 cells, rounds repeated until none claims a cell). It is implemented as the source's `while not_done` loop over nested `for` loops, proved equal to that fold.
- `Search` (`search.dfy`): `evaluate`, the enumeration of the opponents' joint replies, unpruned minimax over the same tree (with the same ±10000 starting values), and `alphabeta` as a method proved to agree with minimax inside its window.
- `MoveDriver` (`move_driver.dfy`): `get_move`. Its loops stamp the bodies and the walls, and its selection loop keeps the first strictly best move.

Integers are mathematical. i32 limits appear as `I32Min` and `I32Max`, and the driver's preconditions keep every value the source computes inside i32. Under those preconditions, the search run with the window (i32::MIN, i32::MAX) returns exactly the minimax value.

In some places the code does not do what its structure suggests; the model follows the code:

- The search's running values start at -10000 and 10000, not at minus and plus infinity. A loss score of about -1e9 found below a maximising ply is therefore cut to -10000.
- A root head cell is reset to 0, not to the current turn. Both count as free.
- `lengths` is always `[0, 0]`. The cell a head leaves is stamped with the current turn (`TrailIsFree`), so the trail never blocks anyone.
- In `voronoi`, every owned neighbour of a claimable cell scores one point for its owner. The cell goes to the last such neighbour in the order left, right, up, down, not to the first.
- The wall test fires on the outermost row and column of the playing area (0 and 10), not only beyond them.

## Model

| member | source | states |
|---|---|---|
| DenseBoard.Index | src/logic.rs:46-52 | the buffer position of every (x, y) with -1 <= x, y <= 11 lies in [0, 169) and decodes back to (x, y), so distinct coordinates never share a cell |
| DenseBoard.IndexOnto | src/logic.rs:33 | every one of the 169 buffer positions is the index of some addressable coordinate |
| DenseBoard.Init | src/logic.rs:40-44 | `init(default)` holds `default` in every cell, the halo included |
| DenseBoard.GetXY | src/logic.rs:46-48 | `get_xy` reads the cell at `Index(x, y)`; with `Init`, `SetXY` and `Index` this fixes what every read returns |
| DenseBoard.GetCoord | src/logic.rs:54-56 | `get_coord` reads through a coordinate value, the same cell `GetXY` reads |
| DenseBoard.SetXY | src/logic.rs:50-52 | a write through `get_xy_mut` reads back as the written value, and every other cell is unchanged |
| DenseBoard.SetCoord | src/logic.rs:58-60 | the same frame for writes through a coordinate (`get_coord_mut`) |
| DenseBoard.GridExtensionality | src/logic.rs:29-34 | two boards that agree on every addressable coordinate are the same board |
| GameNode.NewNode | src/logic.rs:73-81 | `Node::new` keeps turn, board, heads and health, and sets lengths to [0, 0]; the node is well formed exactly when every head is on the board |
| GameNode.WallCollision | src/logic.rs:84-89 | `is_head_colliding_wall`: x <= 0, x >= 10, y <= 0 or y >= 10, with both bounds inclusive |
| GameNode.WallCollisionIsEdge | src/logic.rs:84-89 | for a head on the board, the wall test holds exactly when x or y is 0 or 10 |
| GameNode.ApplyMove | src/logic.rs:91-108 | a snake already failing the wall test returns the node unchanged; otherwise its head moves one cell in the given direction and stays on the board, while turn, lengths, health and the other head are unchanged |
| GameNode.ApplyMoveBoard | src/logic.rs:103 | after a move that happens, the cell the head left holds `lengths[i] + turn` and every other cell, wall ring included, keeps its value |
| GameNode.OppositeMoveReturns | src/logic.rs:96-101 | a move followed by the opposite move returns the head to where it was when neither move hits the wall test |
| GameNode.TrailIsFree | src/logic.rs:78 | because lengths stay 0, the vacated cell is stamped at most `turn`, so it never counts as occupied |
| GameNode.SnakeCollision | src/logic.rs:110-121 | `is_head_colliding_snake`: the wall test, or the head's cell carries a stamp later than the turn |
| GameNode.ReversalIsNoBodyCollision | src/logic.rs:91-121 | a snake that steps back onto the cell it just left, with lengths at zero, never collides with a body there: it collides exactly when the wall test fires |
| GameNode.ApplyMoveArray | src/logic.rs:123-131 | the joint reply advances the turn by 1, lowers our health by 1, keeps our head and the lengths, and moves snake 1 by `directions[0]` on the board |
| Territory.HeadOwners | src/logic.rs:173-176 | after the head loop every head cell is owned, by its own snake unless a later snake's head shares the cell (the last write wins); every other cell, the halo included, is unowned; every owner is -1, 0 or 1 |
| Territory.TestStep | src/logic.rs:194-202 | one neighbour test changes only the tested cell, never lowers a score and adds at most one point; when it changes anything, the cell was claimable and now belongs to the owner of the tested neighbour |
| Territory.CellFacts | src/logic.rs:194-202 | the tests of one cell change only that cell, score at most one point per test and never lower a score; if they score, the cell was claimable and is now owned |
| Territory.SweepStepFrame | src/logic.rs:183-205 | scanning one more cell leaves the cells after it as they were and claims only claimable cells |
| Territory.CountStep | src/logic.rs:194-202 | when a scanned cell scores, the count of unowned cells falls by one while the scores grow by at most four |
| Territory.CellCountFrame | src/logic.rs:183-205 | scanning one cell leaves the unowned count of the cells before it unchanged |
| Territory.SweepStepCount | src/logic.rs:183-205 | scanning one more cell keeps the bookkeeping of scores against unowned cells |
| Territory.SweepFacts | src/logic.rs:183-205 | after the first k cells of a round, cells from k onwards are untouched, only claimable cells are claimed, and score growth is bounded by four per claimed cell |
| Territory.RoundFacts | src/logic.rs:180-207 | one round keeps every owned cell's owner; a changed cell was an unowned cell of the playing area whose stamp is not after the turn (so never a head cell); scores only grow, by at most four per claimed cell; a round that sets `not_done` leaves strictly fewer unowned cells, and one that does not changes nothing |
| Territory.Fill | src/logic.rs:178-207 | the `while not_done` rounds terminate (the unowned cells decrease) with non-decreasing scores whose total grows by at most four per unowned cell |
| Territory.VoronoiScores | src/logic.rs:167-210 | the territory scores are non-negative and sum to at most 4 x 121 |
| Territory.TestCell | src/logic.rs:187-203 | the `for test in tests` loop computes exactly the four neighbour tests of a cell in the order left, right, up, down |
| Territory.SweepCells | src/logic.rs:183-206 | the `for x` / `for y` loops compute exactly one round of the fold, in x-major order |
| Territory.Voronoi | src/logic.rs:167-210 | the imperative `voronoi` returns exactly `VoronoiScores` |
| Search.Evaluation | src/logic.rs:133-139 | a loss (wall, body or health <= 2) scores `-1000000000 + turn`; otherwise the score is our territory minus the opponent's, between -484 and 484 |
| Search.IsLoss | src/logic.rs:134 | the loss test of `evaluate`: wall collision, body collision, or health at most 2 |
| Search.LaterLossScoresHigher | src/logic.rs:134-135 | of two lost positions, the later loss scores strictly higher |
| Search.LossScoresBelowPlay | src/logic.rs:134-138 | a loss before turn 999999516 scores below every position that is not lost |
| Search.Evaluate | src/logic.rs:133-139 | `evaluate`, which calls `voronoi` twice, returns exactly `Evaluation` |
| Search.Extend | src/logic.rs:247-262 | appending each of the four directions to every joint reply multiplies their number by four |
| Search.ExtendAt | src/logic.rs:247-262 | entry 4a + b of the extended list is entry a followed by direction b |
| Search.JointMoves | src/logic.rs:243-263 | for k opponents there are exactly 4^k joint replies |
| Search.JointMovesNumbered | src/logic.rs:243-263 | the j-th joint reply has one direction per opponent and is the base-4 numeral of j, which is lexicographic Up < Down < Left < Right order |
| Search.JointMovesComplete | src/logic.rs:243-263 | every sequence of k directions appears among the joint replies, at the position its numeral gives |
| Search.EnemyTurns | src/logic.rs:243-263 | the nested loops building `enemy_turns` produce exactly `JointMoves(players - 1)` |
| Search.Replies | src/logic.rs:243-263 | with two snakes there are four joint replies, each a single direction |
| Search.Minimax | src/logic.rs:213-274 | the unpruned reference the search is proved against: depth 0 is `evaluate`, a maximising ply is at least -10000 and a minimising ply at most 10000 |
| Search.MaxPrefix | src/logic.rs:224-239 | the running value of an unpruned maximising ply never drops below -10000 |
| Search.MinPrefix | src/logic.rs:242-271 | the running value of an unpruned minimising ply never rises above 10000 |
| Search.MaxPrefixGrows | src/logic.rs:234 | the running maximum never decreases, which is why stopping at beta is safe |
| Search.MinPrefixShrinks | src/logic.rs:266 | the running minimum never increases, which is why stopping at alpha is safe |
| Search.ClampMaxStep | src/logic.rs:233-238 | folding in a child searched with the raised window (alpha', beta) keeps the running value equal to the unpruned one once both are clamped to (alpha, beta) |
| Search.ClampMinStep | src/logic.rs:265-270 | the mirror image for a child searched with the lowered window (alpha, beta') |
| Search.AlphaBeta | src/logic.rs:213-274 | for every window, the result clamped to (alpha, beta) equals minimax clamped to it, so a minimax value strictly inside the window is returned exactly; depth 0 returns `evaluate`; a maximising ply returns at least -10000 and a minimising ply at most 10000 |
| Search.MaximisingPly | src/logic.rs:223-240 | the maximising loop with its beta cut-off and alpha update agrees, clamped to the window, with the full maximum over Up, Down, Left, Right |
| Search.MaximisingChild | src/logic.rs:233-238 | one iteration of that loop moves the clamped value from the first k directions to the first k + 1 and never lowers it |
| Search.MinimisingPly | src/logic.rs:241-272 | the minimising loop with its alpha cut-off and beta update agrees, clamped to the window, with the full minimum over all joint replies |
| Search.MinimisingChild | src/logic.rs:264-270 | one iteration of that loop moves the clamped value from the first k replies to the first k + 1 and never raises it |
| Search.MinimaxBounds | src/logic.rs:220-272 | minimax lies between min(loss at this turn, -10000) and max(10000, loss at the deepest turn reached) |
| Search.MaxPrefixBounds | src/logic.rs:224-239 | the upper half of `MinimaxBounds` for a maximising ply's running value |
| Search.MinPrefixBounds | src/logic.rs:242-271 | the lower half of `MinimaxBounds` for a minimising ply's running value |
| Search.MinimaxInsideI32 | src/logic.rs:326 | for turns whose scores fit in i32, minimax lies strictly inside (i32::MIN, i32::MAX), so the driver's full-window search returns it exactly |
| MoveDriver.StampBody | src/logic.rs:295-300 | stamping a body's first i segments leaves every cell those segments do not cover unchanged |
| MoveDriver.StampSnakes | src/logic.rs:294-309 | stamping the first s snakes leaves every cell their bodies do not cover unchanged |
| MoveDriver.WithWalls | src/logic.rs:314-321 | every ring cell (x or y equal to -1 or 11) holds i32::MAX and every other cell keeps its value |
| MoveDriver.RootHeads | src/logic.rs:293-304 | snake s's head is the first segment of its body, and an absent snake's head is (0, 0) |
| MoveDriver.RootNode | src/logic.rs:323 | the root node is well formed and has the snapshot's turn and health, with lengths [0, 0] |
| MoveDriver.StampBodyLast | src/logic.rs:295-300 | the last segment of a body on a cell wins: segment j holds `turn + L - j` if no later segment shares its cell |
| MoveDriver.StampSnakesLast | src/logic.rs:294-309 | a cell covered last by segment j of snake t holds 0 if it is that snake's head cell, and `turn + L - j` otherwise |
| MoveDriver.RootBoardCells | src/logic.rs:292-321 | on the root board, ring cells hold i32::MAX and uncovered cells of the playing area hold 0 |
| MoveDriver.RootBoardStamp | src/logic.rs:292-321 | on the root board, segment i of a body of length L holds `turn + L - i` and head cells hold 0, when no later segment lies on the same cell |
| MoveDriver.StampBoard | src/logic.rs:292-309 | the snake loops compute exactly `StampSnakes` and the heads array |
| MoveDriver.StampWalls | src/logic.rs:314-321 | the two wall loops compute exactly `WithWalls` |
| MoveDriver.BuildRoot | src/logic.rs:292-323 | the board building computes exactly `RootNode` |
| MoveDriver.RootMoveScore | src/logic.rs:326-335 | `alphabeta(node.apply_move(0, d), 2, i32::MIN, i32::MAX, false)` is exactly the depth-2 minimax score of move d |
| MoveDriver.ConsiderMove | src/logic.rs:335-340 | a direction replaces the best move exactly when its score is strictly higher |
| MoveDriver.SelectMove | src/logic.rs:325-341 | the chosen direction has the highest score of all four, and every direction of lower rank scores strictly lower, so ties keep the earliest of Up, Down, Left, Right |
| MoveDriver.GetMove | src/logic.rs:290-350 | `get_move` always returns `Some(d)`, where d is the first direction, in the order Up, Down, Left, Right, with the greatest depth-2 score from the root node |

## Left out

- `info`, `start` and `end` (src/logic.rs:145-165) only return metadata or log.
- `print_board` and every `println!` in `get_move` are console output only. This includes the `voronoi(&node)` call whose result is only printed.
- The commented-out safe-move, random-choice and fruit code is dead, and so are the unused constants `HAS_FRUIT` and `DENSE_BOARD_SIZE`.
- The request types `Game`, `Board` and `Battlesnake` are not part of this model. The snapshot is passed as `turn`, `health` and `bodies: seq<seq<Coord>>`.
- GetMove: the source's panics become preconditions. These are more than two snakes (`heads[s]` out of bounds), a snake with no body (`body[0]`), a health above i32::MAX (`try_into().unwrap()`), a health of i32::MIN (the depth-2 search performs `our_health -= 1` at src/logic.rs:129 once), and i32 overflow of `turn + body.len()` or `turn + 1`. The model also requires a turn that is not negative, as a game's turns are.
- GetMove: body coordinates are required to lie on the 11x11 playing area, as the game guarantees. For coordinates outside the halo grid, the source's index arithmetic is not modelled.
- DenseBoard.GetXY: only coordinates from -1 to 11 are addressable. The source's unchecked aliasing of other coordinates onto neighbouring cells is not modelled. Every access the engine makes stays in this range.
- GameNode.SnakeCollision: the expression at src/logic.rs:116-119 reads the four neighbours and discards the result, so it has no effect and is not modelled.
- GameNode.ApplyMoveArray: the loop over snakes 2.. (src/logic.rs:125-127) is empty with two snakes, so it is not modelled.
- i32 wrap-around is not modelled. Values are unbounded integers, and the driver's preconditions rule out overflow on every path it takes.
- Board values are modelled as a value (`seq<int>`) rather than a fixed-size array updated in place. The source copies `DenseBoard` by value everywhere, so no aliasing is lost.
