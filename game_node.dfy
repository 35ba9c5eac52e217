/**
 * The search state (`Node`): a turn counter, the board of vacate-at stamps,
 * one head per snake, per-snake lengths and the health of snake 0, which is
 * the snake being steered. Every operation returns a new state; nothing is
 * updated in place.
 */
module GameNode {
  import opened DenseBoard

  /** Number of snakes the engine tracks (snake 0 is ours). */
  const PlayerCount: nat := 2

  datatype Direction = Up | Down | Left | Right

  /** The order in which every loop of the engine tries the four directions. */
  const Directions: seq<Direction> := [Up, Down, Left, Right]

  /** Position of a direction in `Directions`. */
  function Rank(d: Direction): (k: nat)
    ensures k < 4 && Directions[k] == d
  {
    match d
    case Up => 0
    case Down => 1
    case Left => 2
    case Right => 3
  }

  datatype Node = Node(turn: int, board: Grid, heads: seq<Coord>, lengths: seq<int>, ourHealth: int)

  /** Inside the 11x11 playing area. */
  predicate OnBoard(c: Coord) {
    0 <= c.x < BoardSize && 0 <= c.y < BoardSize
  }

  /** Shape of a node: one head and one length per snake, every head on the board. */
  predicate Valid(n: Node) {
    && |n.heads| == PlayerCount
    && |n.lengths| == PlayerCount
    && forall i :: 0 <= i < PlayerCount ==> OnBoard(n.heads[i])
  }

  /** `Node::new`: the lengths always start, and stay, at zero. */
  function NewNode(turn: int, board: Grid, heads: seq<Coord>, health: int): (n: Node)
    requires |heads| == PlayerCount
    ensures n.lengths == [0, 0] && n.heads == heads && n.board == board
    ensures n.turn == turn && n.ourHealth == health
    ensures (forall i :: 0 <= i < PlayerCount ==> OnBoard(heads[i])) <==> Valid(n)
  {
    Node(turn, board, heads, seq(PlayerCount, _ => 0), health)
  }

  /**
   * `is_head_colliding_wall`: the head is on the outermost row or column of
   * the playing area, or beyond it (the bounds 0 and 10 are included).
   */
  predicate WallCollision(n: Node, i: nat)
    requires i < |n.heads|
  {
    var h := n.heads[i];
    h.x <= 0 || h.x >= BoardSize - 1 || h.y <= 0 || h.y >= BoardSize - 1
  }

  /** For a head on the board, the wall test holds exactly on the board's edge. */
  lemma WallCollisionIsEdge(n: Node, i: nat)
    requires Valid(n) && i < PlayerCount
    ensures WallCollision(n, i) <==>
      (n.heads[i].x in {0, BoardSize - 1} || n.heads[i].y in {0, BoardSize - 1})
  {
  }

  /** The cell one step away in direction d: Up is y - 1, Down y + 1, Left x - 1, Right x + 1. */
  function Step(c: Coord, d: Direction): Coord {
    match d
    case Up => c.(y := c.y - 1)
    case Down => c.(y := c.y + 1)
    case Left => c.(x := c.x - 1)
    case Right => c.(x := c.x + 1)
  }

  function Opposite(d: Direction): Direction {
    match d
    case Up => Down
    case Down => Up
    case Left => Right
    case Right => Left
  }

  /**
   * `apply_move`: a snake whose head already fails the wall test does not
   * move. Otherwise its head moves one cell, and the cell it leaves is
   * stamped `lengths[i] + turn`; nothing else changes.
   */
  function ApplyMove(n: Node, i: nat, d: Direction): (r: Node)
    requires Valid(n) && i < PlayerCount
    ensures Valid(r)
    ensures WallCollision(n, i) ==> r == n
    ensures !WallCollision(n, i) ==>
      && r.heads[i] == Step(n.heads[i], d)
      && (forall j :: 0 <= j < PlayerCount && j != i ==> r.heads[j] == n.heads[j])
      && r.turn == n.turn && r.lengths == n.lengths && r.ourHealth == n.ourHealth
  {
    if WallCollision(n, i) then n
    else
      var h := n.heads[i];
      n.(heads := n.heads[i := Step(h, d)], board := SetCoord(n.board, h, n.lengths[i] + n.turn))
  }

  /**
   * The board after a move that happens: the cell the head left now holds
   * `lengths[i] + turn` and every other cell, wall ring included, is as it was.
   */
  lemma ApplyMoveBoard(n: Node, i: nat, d: Direction)
    requires Valid(n) && i < PlayerCount && !WallCollision(n, i)
    ensures forall c :: Addressable(c) ==>
      GetCoord(ApplyMove(n, i, d).board, c)
        == if c == n.heads[i] then n.lengths[i] + n.turn else GetCoord(n.board, c)
  {
  }

  /**
   * A move followed by the opposite move brings the head back to where it
   * started, provided the wall test lets both moves happen. The board is
   * not restored: the trail keeps its stamps.
   */
  lemma OppositeMoveReturns(n: Node, i: nat, d: Direction)
    requires Valid(n) && i < PlayerCount
    requires !WallCollision(n, i) && !WallCollision(ApplyMove(n, i, d), i)
    ensures ApplyMove(ApplyMove(n, i, d), i, Opposite(d)).heads[i] == n.heads[i]
  {
  }

  /**
   * Because the lengths stay zero, the cell a head leaves is stamped with
   * the current turn, which already counts as free: the model's trail never
   * blocks the snake that left it, nor anyone else.
   */
  lemma TrailIsFree(n: Node, i: nat, d: Direction)
    requires Valid(n) && i < PlayerCount && n.lengths == [0, 0]
    requires !WallCollision(n, i)
    ensures GetCoord(ApplyMove(n, i, d).board, n.heads[i]) <= n.turn
  {
  }

  /**
   * `is_head_colliding_snake`: the wall test, or the head's cell still
   * carries a stamp later than the current turn (some body is there). The
   * source also computes the same comparison on the four neighbours and
   * throws the result away; that has no effect and is not modelled.
   */
  predicate SnakeCollision(n: Node, i: nat)
    requires Valid(n) && i < PlayerCount
  {
    WallCollision(n, i) || GetCoord(n.board, n.heads[i]) > n.turn
  }

  /**
   * Turning straight back onto the cell just left is never a body collision:
   * with lengths at zero that cell carries the current turn, so only the
   * wall test can fire there.
   */
  lemma ReversalIsNoBodyCollision(n: Node, i: nat, d: Direction)
    requires Valid(n) && i < PlayerCount && n.lengths == [0, 0]
    requires !WallCollision(n, i) && !WallCollision(ApplyMove(n, i, d), i)
    ensures var m := ApplyMove(ApplyMove(n, i, d), i, Opposite(d));
      SnakeCollision(m, i) <==> WallCollision(m, i)
  {
    var m1 := ApplyMove(n, i, d);
    var m := ApplyMove(m1, i, Opposite(d));
    OppositeMoveReturns(n, i, d);
    ApplyMoveBoard(n, i, d);
    ApplyMoveBoard(m1, i, Opposite(d));
    assert m1.heads[i] != n.heads[i] by {
      match d
      case Up =>
      case Down =>
      case Left =>
      case Right =>
    }
    assert GetCoord(m.board, n.heads[i]) == GetCoord(m1.board, n.heads[i]) == n.turn;
  }

  /**
   * `apply_move_array`: the opponents' joint reply. With two snakes only
   * snake 1 moves (by `directions[0]`); then the turn advances and our
   * health drops by one. The source's loop over snakes 2.. is empty for two
   * snakes.
   */
  function ApplyMoveArray(n: Node, directions: seq<Direction>): (r: Node)
    requires Valid(n) && |directions| == PlayerCount - 1
    ensures Valid(r)
    ensures r.turn == n.turn + 1 && r.ourHealth == n.ourHealth - 1
    ensures r.heads[0] == n.heads[0] && r.lengths == n.lengths
    ensures r.heads[1] == ApplyMove(n, 1, directions[0]).heads[1]
    ensures r.board == ApplyMove(n, 1, directions[0]).board
  {
    var m := ApplyMove(n, 1, directions[0]);
    m.(turn := m.turn + 1, ourHealth := m.ourHealth - 1)
  }
}
