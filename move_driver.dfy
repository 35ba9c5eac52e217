/**
 * `get_move`: builds the root search state from the game's snakes, then
 * scores each of our four moves with a depth-2 alpha-beta search and keeps
 * the first best one.
 *
 * The board is built in two passes. First every snake's body is stamped
 * with the turn at which each segment will have moved off (segment i of a
 * body of length L gets `turn + L - i`), and the head cell is then reset to
 * 0. Then the wall ring around the playing area is filled with i32::MAX.
 */
module MoveDriver {
  import opened DenseBoard
  import opened GameNode
  import opened Search

  datatype Option<T> = None | Some(value: T)

  /** Plies searched below each of our root moves. */
  const SearchDepth: nat := 2

  /** Every body segment the game reports lies on the playing area. */
  predicate BodiesOnBoard(bodies: seq<seq<Coord>>) {
    forall s, i :: 0 <= s < |bodies| && 0 <= i < |bodies[s]| ==> OnBoard(bodies[s][i])
  }

  /** Every snake has a head. */
  predicate BodiesNonEmpty(bodies: seq<seq<Coord>>) {
    forall s :: 0 <= s < |bodies| ==> |bodies[s]| > 0
  }

  /** Some segment of one of the first s snakes lies on cell c. */
  predicate Covers(bodies: seq<seq<Coord>>, s: nat, c: Coord)
    requires s <= |bodies|
  {
    exists t, i :: 0 <= t < s && 0 <= i < |bodies[t]| && bodies[t][i] == c
  }

  /**
   * The first i segments of a body stamped in order: segment j gets
   * `turn + |body| - j`. Cells the prefix does not cover keep their value.
   */
  function StampBody(g: Grid, turn: int, body: seq<Coord>, i: nat): (r: Grid)
    requires i <= |body|
    requires forall j :: 0 <= j < |body| ==> OnBoard(body[j])
    ensures forall c :: Addressable(c) && c !in body[..i] ==> GetCoord(r, c) == GetCoord(g, c)
  {
    if i == 0 then g
    else
      var p := StampBody(g, turn, body, i - 1);
      assert body[..i] == body[..i - 1] + [body[i - 1]];
      SetCoord(p, body[i - 1], turn + |body| - (i - 1))
  }

  /** The first s snakes stamped in order, each one's head reset to 0 afterwards. */
  function StampSnakes(g: Grid, turn: int, bodies: seq<seq<Coord>>, s: nat): (r: Grid)
    requires s <= |bodies| && BodiesOnBoard(bodies) && BodiesNonEmpty(bodies)
    ensures forall c :: Addressable(c) && !Covers(bodies, s, c) ==> GetCoord(r, c) == GetCoord(g, c)
  {
    if s == 0 then g
    else
      var body := bodies[s - 1];
      assert forall j :: 0 <= j < |body| ==> OnBoard(body[j]) by {
        forall j | 0 <= j < |body| ensures OnBoard(body[j]) {
          assert body[j] == bodies[s - 1][j];
        }
      }
      var p := StampSnakes(g, turn, bodies, s - 1);
      var r := SetCoord(StampBody(p, turn, body, |body|), body[0], 0);
      assert forall c :: Addressable(c) && !Covers(bodies, s, c) ==> GetCoord(r, c) == GetCoord(g, c) by {
        forall c | Addressable(c) && !Covers(bodies, s, c)
          ensures GetCoord(r, c) == GetCoord(g, c)
        {
          assert c != body[0];
          assert c !in body[..|body|];
          assert !Covers(bodies, s - 1, c);
        }
      }
      r
  }

  /** The source's wall loops: every ring cell becomes i32::MAX, every other cell is kept. */
  function WithWalls(g: Grid): (r: Grid)
    ensures forall x, y :: InGrid(x, y) ==> GetXY(r, x, y) == if OnRing(x, y) then I32Max else GetXY(g, x, y)
  {
    seq(169, i requires 0 <= i < 169 => if OnRing(i % Side - 1, i / Side - 1) then I32Max else g[i])
  }

  /** `heads`: snake s's first body segment, and (0, 0) for a snake that is absent. */
  function RootHeads(bodies: seq<seq<Coord>>): (h: seq<Coord>)
    requires |bodies| <= PlayerCount && BodiesNonEmpty(bodies)
    ensures |h| == PlayerCount
    ensures forall s :: 0 <= s < |bodies| ==> h[s] == bodies[s][0]
    ensures forall s :: |bodies| <= s < PlayerCount ==> h[s] == Coord(0, 0)
  {
    seq(PlayerCount, s requires 0 <= s < PlayerCount => if s < |bodies| then bodies[s][0] else Coord(0, 0))
  }

  function RootBoard(turn: int, bodies: seq<seq<Coord>>): Grid
    requires BodiesOnBoard(bodies) && BodiesNonEmpty(bodies)
  {
    WithWalls(StampSnakes(Init(0), turn, bodies, |bodies|))
  }

  /** The node `get_move` searches from. */
  function RootNode(turn: int, health: int, bodies: seq<seq<Coord>>): (n: Node)
    requires |bodies| <= PlayerCount && BodiesOnBoard(bodies) && BodiesNonEmpty(bodies)
    ensures Valid(n) && n.turn == turn && n.ourHealth == health && n.lengths == [0, 0]
  {
    var h := RootHeads(bodies);
    assert forall s :: 0 <= s < PlayerCount ==> OnBoard(h[s]) by {
      forall s | 0 <= s < PlayerCount ensures OnBoard(h[s]) {
        if s < |bodies| {
          assert h[s] == bodies[s][0];
        }
      }
    }
    NewNode(turn, RootBoard(turn, bodies), h, health)
  }

  /** The score `get_move` gives our move d: a depth-2 search of the opponents' replies. */
  function RootScore(root: Node, d: Direction, depth: nat): int
    requires Valid(root)
  {
    Minimax(ApplyMove(root, 0, d), depth, false)
  }

  /**
   * The last stamp of a cell within one body wins: when segment j is the
   * last of the first i segments on its cell, that cell holds
   * `turn + |body| - j`.
   */
  lemma {:induction false} StampBodyLast(g: Grid, turn: int, body: seq<Coord>, i: nat, j: nat)
    requires j < i <= |body|
    requires forall m :: 0 <= m < |body| ==> OnBoard(body[m])
    requires forall m :: j < m < i ==> body[m] != body[j]
    ensures GetCoord(StampBody(g, turn, body, i), body[j]) == turn + |body| - j
  {
    if i - 1 != j {
      StampBodyLast(g, turn, body, i - 1, j);
    }
  }

  /**
   * What the snake pass leaves on a covered cell: take the last snake
   * covering it and the last of that snake's segments on it. The cell holds
   * 0 when that segment shares the snake's head cell, and otherwise that
   * segment's stamp `turn + |body| - j`.
   */
  lemma {:induction false} StampSnakesLast(g: Grid, turn: int, bodies: seq<seq<Coord>>, s: nat, t: nat, j: nat)
    requires s <= |bodies| && BodiesOnBoard(bodies) && BodiesNonEmpty(bodies)
    requires t < s && j < |bodies[t]|
    requires forall m :: j < m < |bodies[t]| ==> bodies[t][m] != bodies[t][j]
    requires forall u, m :: t < u < s && 0 <= m < |bodies[u]| ==> bodies[u][m] != bodies[t][j]
    ensures GetCoord(StampSnakes(g, turn, bodies, s), bodies[t][j])
      == if bodies[t][j] == bodies[t][0] then 0 else turn + |bodies[t]| - j
  {
    var c := bodies[t][j];
    var body := bodies[s - 1];
    assert forall m :: 0 <= m < |body| ==> OnBoard(body[m]) by {
      forall m | 0 <= m < |body| ensures OnBoard(body[m]) {
        assert body[m] == bodies[s - 1][m];
      }
    }
    var p := StampSnakes(g, turn, bodies, s - 1);
    if s - 1 == t {
      StampBodyLast(p, turn, body, |body|, j);
    } else {
      StampSnakesLast(g, turn, bodies, s - 1, t, j);
      assert c !in body[..|body|] by {
        forall m | 0 <= m < |body| ensures body[m] != c {
          assert bodies[s - 1][m] != c;
        }
      }
      assert c != body[0] by {
        assert bodies[s - 1][0] != c;
      }
    }
  }

  /**
   * The root board: the wall ring holds i32::MAX, a cell of the playing
   * area no snake covers holds 0, and a covered cell holds the stamp
   * `StampSnakesLast` describes.
   */
  lemma RootBoardCells(turn: int, bodies: seq<seq<Coord>>)
    requires BodiesOnBoard(bodies) && BodiesNonEmpty(bodies)
    ensures forall x, y :: InGrid(x, y) && OnRing(x, y) ==> GetXY(RootBoard(turn, bodies), x, y) == I32Max
    ensures forall c :: OnBoard(c) && !Covers(bodies, |bodies|, c) ==> GetCoord(RootBoard(turn, bodies), c) == 0
  {
  }

  /**
   * A covered cell of the root board, under the walls: segment j of snake t,
   * when no later segment of that snake and no later snake lies on the same
   * cell, holds `turn + |body| - j`, or 0 if the cell is that snake's head.
   */
  lemma RootBoardStamp(turn: int, bodies: seq<seq<Coord>>, t: nat, j: nat)
    requires BodiesOnBoard(bodies) && BodiesNonEmpty(bodies)
    requires t < |bodies| && j < |bodies[t]|
    requires forall m :: j < m < |bodies[t]| ==> bodies[t][m] != bodies[t][j]
    requires forall u, m :: t < u < |bodies| && 0 <= m < |bodies[u]| ==> bodies[u][m] != bodies[t][j]
    ensures GetCoord(RootBoard(turn, bodies), bodies[t][j])
      == if bodies[t][j] == bodies[t][0] then 0 else turn + |bodies[t]| - j
  {
    StampSnakesLast(Init(0), turn, bodies, |bodies|, t, j);
    assert OnBoard(bodies[t][j]);
  }

  /**
   * The snake pass of `get_move`'s board building: each body stamped
   * segment by segment, then its head reset to 0, with the heads recorded.
   */
  method StampBoard(turn: int, bodies: seq<seq<Coord>>) returns (board: Grid, heads: seq<Coord>)
    requires |bodies| <= PlayerCount && BodiesOnBoard(bodies) && BodiesNonEmpty(bodies)
    ensures board == StampSnakes(Init(0), turn, bodies, |bodies|)
    ensures heads == RootHeads(bodies)
  {
    board := Init(0);
    heads := [Coord(0, 0), Coord(0, 0)];
    for s := 0 to |bodies|
      invariant board == StampSnakes(Init(0), turn, bodies, s)
      invariant |heads| == PlayerCount
      invariant forall u :: 0 <= u < s ==> heads[u] == bodies[u][0]
      invariant forall u :: s <= u < PlayerCount ==> heads[u] == Coord(0, 0)
    {
      var body := bodies[s];
      assert forall m :: 0 <= m < |body| ==> OnBoard(body[m]) by {
        forall m | 0 <= m < |body| ensures OnBoard(body[m]) {
          assert body[m] == bodies[s][m];
        }
      }
      ghost var before := board;
      for i := 0 to |body|
        invariant board == StampBody(before, turn, body, i)
      {
        board := SetCoord(board, body[i], turn + |body| - i);
      }
      heads := heads[s := body[0]];
      board := SetCoord(board, body[0], 0);
    }
  }

  /** The wall pass of `get_move`: rows -1 and 11, then columns -1 and 11, set to i32::MAX. */
  method StampWalls(g: Grid) returns (board: Grid)
    ensures board == WithWalls(g)
  {
    board := g;
    for x := -1 to BoardSize + 1
      invariant forall x', y' :: InGrid(x', y') ==>
        GetXY(board, x', y') == if (y' == -1 || y' == BoardSize) && x' < x then I32Max else GetXY(g, x', y')
    {
      board := SetXY(board, x, -1, I32Max);
      board := SetXY(board, x, BoardSize, I32Max);
    }
    for y := -1 to BoardSize + 1
      invariant forall x', y' :: InGrid(x', y') ==>
        GetXY(board, x', y') ==
          if y' == -1 || y' == BoardSize || ((x' == -1 || x' == BoardSize) && y' < y) then I32Max
          else GetXY(g, x', y')
    {
      board := SetXY(board, -1, y, I32Max);
      board := SetXY(board, BoardSize, y, I32Max);
    }
    GridExtensionality(board, WithWalls(g));
  }

  /** The board building of `get_move`: the snake pass, the wall pass, then `Node::new`. */
  method BuildRoot(turn: int, health: int, bodies: seq<seq<Coord>>) returns (root: Node)
    requires |bodies| <= PlayerCount && BodiesOnBoard(bodies) && BodiesNonEmpty(bodies)
    ensures root == RootNode(turn, health, bodies)
  {
    var board, heads := StampBoard(turn, bodies);
    board := StampWalls(board);
    root := NewNode(turn, board, heads, health);
  }

  /**
   * `get_move`. The root scores Up first, then Down, Left, Right and Up
   * again, and a later direction replaces the best only with a strictly
   * higher score. So the answer is always a move, its score is the
   * highest, and every direction tried before it scores strictly lower.
   */
  method GetMove(turn: int, health: int, bodies: seq<seq<Coord>>) returns (r: Option<Direction>)
    requires 0 <= turn < I32Max && I32Min < health <= I32Max
    requires |bodies| <= PlayerCount && BodiesOnBoard(bodies) && BodiesNonEmpty(bodies)
    requires forall s :: 0 <= s < |bodies| ==> turn + |bodies[s]| <= I32Max
    ensures r.Some?
    ensures forall d :: RootScore(RootNode(turn, health, bodies), d, SearchDepth) <= RootScore(RootNode(turn, health, bodies), r.value, SearchDepth)
    ensures forall d :: Rank(d) < Rank(r.value) ==>
      RootScore(RootNode(turn, health, bodies), d, SearchDepth) < RootScore(RootNode(turn, health, bodies), r.value, SearchDepth)
  {
    var root := BuildRoot(turn, health, bodies);
    var best := SelectMove(root, SearchDepth);
    r := Some(best);
  }

  /** The selection loop of `get_move`: the first direction, in rank order, with the highest score. */
  method SelectMove(root: Node, depth: nat) returns (best: Direction)
    requires Valid(root) && 0 <= root.turn < I32Max && depth <= SearchDepth
    ensures forall d :: RootScore(root, d, depth) <= RootScore(root, best, depth)
    ensures forall d :: Rank(d) < Rank(best) ==> RootScore(root, d, depth) < RootScore(root, best, depth)
  {
    best := Up;
    var bestScore := RootMoveScore(root, best, depth);
    var order := [Down, Left, Right, Up];
    for k := 0 to |order|
      invariant bestScore == RootScore(root, best, depth)
      invariant Rank(best) <= k
      invariant RootScore(root, Up, depth) <= bestScore
      invariant k >= 1 ==> RootScore(root, Down, depth) <= bestScore
      invariant k >= 2 ==> RootScore(root, Left, depth) <= bestScore
      invariant k >= 3 ==> RootScore(root, Right, depth) <= bestScore
      invariant Rank(best) > 0 ==> RootScore(root, Up, depth) < bestScore
      invariant Rank(best) > 1 ==> RootScore(root, Down, depth) < bestScore
      invariant Rank(best) > 2 ==> RootScore(root, Left, depth) < bestScore
    {
      best, bestScore := ConsiderMove(root, depth, order[k], best, bestScore);
    }
    forall d ensures RootScore(root, d, depth) <= bestScore {
      match d
      case Up =>
      case Down =>
      case Left =>
      case Right =>
    }
  }

  /**
   * One iteration of the selection loop: direction d replaces the best so
   * far exactly when it scores strictly higher.
   */
  method ConsiderMove(root: Node, depth: nat, d: Direction, best: Direction, bestScore: int)
    returns (best': Direction, bestScore': int)
    requires Valid(root) && 0 <= root.turn < I32Max && depth <= SearchDepth
    requires bestScore == RootScore(root, best, depth)
    ensures bestScore' == RootScore(root, best', depth) == Max(bestScore, RootScore(root, d, depth))
    ensures best' == if RootScore(root, d, depth) > bestScore then d else best
  {
    var score := RootMoveScore(root, d, depth);
    best', bestScore' := best, bestScore;
    if score > bestScore {
      best', bestScore' := d, score;
    }
  }

  /** `alphabeta(node.apply_move(0, d), 2, i32::MIN, i32::MAX, false)`: exactly the root score. */
  method RootMoveScore(root: Node, d: Direction, depth: nat) returns (score: int)
    requires Valid(root) && 0 <= root.turn < I32Max && depth <= SearchDepth
    ensures score == RootScore(root, d, depth)
  {
    var child := ApplyMove(root, 0, d);
    MinimaxInsideI32(child, depth, false);
    score := AlphaBeta(child, depth, I32Min, I32Max, false);
  }
}
