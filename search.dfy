/**
 * Leaf evaluation and the depth-bounded alpha-beta search. `Minimax` is the
 * unpruned search over the same tree, with the same starting values of
 * -10000 and 10000 that the source uses in place of infinities; the method
 * `AlphaBeta` is proved to agree with it.
 */
module Search {
  import opened DenseBoard
  import opened GameNode
  import opened Territory

  /** Score of a lost position before the turn is added. */
  const LossScore: int := -1000000000

  /** Health at or below which snake 0 counts as starved. */
  const StarvedHealth: int := 2

  /** Starting value of a maximising ply. */
  const MaxStart: int := -10000

  /** Starting value of a minimising ply. */
  const MinStart: int := 10000

  function Max(a: int, b: int): int { if a >= b then a else b }

  function Min(a: int, b: int): int { if a <= b then a else b }

  /** `iter().sum()` */
  function Sum(s: seq<int>): int {
    if s == [] then 0 else s[0] + Sum(s[1..])
  }

  lemma SumPair(s: seq<int>)
    requires |s| == 2
    ensures Sum(s) == s[0] + s[1]
  {
    assert s[1..][1..] == [];
    assert Sum(s[1..][1..]) == 0;
    assert Sum(s[1..]) == s[1];
  }

  /** Snake 0 has lost: its head fails the wall test or sits on a body, or it is starved. */
  predicate IsLoss(n: Node)
    requires Valid(n)
  {
    WallCollision(n, 0) || SnakeCollision(n, 0) || n.ourHealth <= StarvedHealth
  }

  /**
   * `evaluate`: a loss scores -1000000000 plus the turn; otherwise the
   * territory of snake 0 minus that of snake 1, which lies in [-484, 484].
   */
  function Evaluation(n: Node): (r: int)
    requires Valid(n)
    ensures IsLoss(n) ==> r == LossScore + n.turn
    ensures !IsLoss(n) ==>
      && r == VoronoiScores(n)[0] - VoronoiScores(n)[1]
      && -4 * Area <= r <= 4 * Area
  {
    if IsLoss(n) then LossScore + n.turn
    else
      var v := VoronoiScores(n);
      SumPair(v);
      2 * v[0] - Sum(v)
  }

  /** Of two lost positions, the one lost at a later turn scores strictly higher. */
  lemma LaterLossScoresHigher(a: Node, b: Node)
    requires Valid(a) && Valid(b) && IsLoss(a) && IsLoss(b)
    requires a.turn < b.turn
    ensures Evaluation(a) < Evaluation(b)
  {
  }

  /** A loss before turn 999999516 scores below every position that is not lost. */
  lemma LossScoresBelowPlay(a: Node, b: Node)
    requires Valid(a) && Valid(b) && IsLoss(a) && !IsLoss(b)
    requires a.turn < -LossScore - 4 * Area
    ensures Evaluation(a) < Evaluation(b)
  {
  }

  /** `evaluate` as the source runs it: `voronoi` is computed twice, with the same result. */
  method Evaluate(n: Node) returns (score: int)
    requires Valid(n)
    ensures score == Evaluation(n)
  {
    if WallCollision(n, 0) || SnakeCollision(n, 0) || n.ourHealth <= StarvedHealth {
      score := LossScore + n.turn;
    } else {
      var first := Voronoi(n);
      var second := Voronoi(n);
      SumPair(second);
      score := 2 * first[0] - Sum(second);
    }
  }

  function Pow4(k: nat): (r: nat)
    ensures r >= 1
  {
    if k == 0 then 1 else 4 * Pow4(k - 1)
  }

  /** The four one-move extensions of a joint move, in the order Up, Down, Left, Right. */
  function Four(t: seq<Direction>): seq<seq<Direction>> {
    [t + [Up], t + [Down], t + [Left], t + [Right]]
  }

  /** Every joint move of `ts`, in order, extended by each direction in turn. */
  function Extend(ts: seq<seq<Direction>>): (r: seq<seq<Direction>>)
    ensures |r| == 4 * |ts|
  {
    if ts == [] then [] else Extend(ts[..|ts| - 1]) + Four(ts[|ts| - 1])
  }

  /** Entry 4a + b of the extension is entry a followed by direction b. */
  lemma {:induction false} ExtendAt(ts: seq<seq<Direction>>, a: nat, b: nat)
    requires a < |ts| && b < 4
    ensures Extend(ts)[4 * a + b] == ts[a] + [Directions[b]]
  {
    if a < |ts| - 1 {
      ExtendAt(ts[..|ts| - 1], a, b);
    }
  }

  /** The joint moves of k opponents, as the source enumerates them. */
  function JointMoves(k: nat): (r: seq<seq<Direction>>)
    ensures |r| == Pow4(k)
  {
    if k == 0 then [[]] else Extend(JointMoves(k - 1))
  }

  /** A joint move read as a base-4 numeral, first snake most significant, Up = 0 < Down < Left < Right. */
  function Encode(t: seq<Direction>): nat {
    if t == [] then 0 else 4 * Encode(t[..|t| - 1]) + Rank(t[|t| - 1])
  }

  /**
   * Entry j of the enumeration is the joint move whose numeral is j: the
   * entries are in increasing lexicographic order, each of length k.
   */
  lemma {:induction false} JointMovesNumbered(k: nat, j: nat)
    requires j < Pow4(k)
    ensures |JointMoves(k)[j]| == k && Encode(JointMoves(k)[j]) == j
  {
    if k > 0 {
      var a, b := j / 4, j % 4;
      JointMovesNumbered(k - 1, a);
      ExtendAt(JointMoves(k - 1), a, b);
      var t := JointMoves(k - 1)[a] + [Directions[b]];
      assert t[..|t| - 1] == JointMoves(k - 1)[a];
    }
  }

  /** Every joint move of length k appears in the enumeration, at the position its numeral gives. */
  lemma {:induction false} JointMovesComplete(t: seq<Direction>)
    ensures Encode(t) < Pow4(|t|) && JointMoves(|t|)[Encode(t)] == t
  {
    if t != [] {
      var front, d := t[..|t| - 1], t[|t| - 1];
      JointMovesComplete(front);
      ExtendAt(JointMoves(|front|), Encode(front), Rank(d));
      assert front + [d] == t;
    }
  }

  /** `enemy_turns` built step by step: the cartesian product over snakes 1 .. players - 1. */
  method EnemyTurns(players: nat) returns (turns: seq<seq<Direction>>)
    requires players >= 1
    ensures turns == JointMoves(players - 1)
  {
    turns := [[]];
    for i := 1 to players
      invariant turns == JointMoves(i - 1)
    {
      var next: seq<seq<Direction>> := [];
      for e := 0 to |turns|
        invariant next == Extend(turns[..e])
      {
        for m := 0 to 4
          invariant next == Extend(turns[..e]) + Four(turns[e])[..m]
        {
          next := next + [turns[e] + [Directions[m]]];
        }
        assert turns[..e + 1][..e] == turns[..e];
      }
      assert turns[..|turns|] == turns;
      turns := next;
    }
  }

  /** The opponents' replies searched at a minimising ply. */
  function Replies(): (r: seq<seq<Direction>>)
    ensures |r| == 4 && forall j :: 0 <= j < |r| ==> |r[j]| == PlayerCount - 1
  {
    forall j | 0 <= j < 4
      ensures |JointMoves(1)[j]| == 1
    {
      JointMovesNumbered(1, j);
    }
    JointMoves(PlayerCount - 1)
  }

  /**
   * Unpruned minimax over the tree `alphabeta` explores: depth 0 evaluates;
   * a maximising ply moves snake 0 in each direction, starting from -10000;
   * a minimising ply plays every joint reply, starting from 10000.
   */
  function Minimax(n: Node, depth: nat, maximising: bool): (r: int)
    requires Valid(n)
    ensures depth == 0 ==> r == Evaluation(n)
    ensures depth > 0 && maximising ==> r >= MaxStart
    ensures depth > 0 && !maximising ==> r <= MinStart
    decreases depth, 5
  {
    if depth == 0 then Evaluation(n)
    else if maximising then MaxPrefix(n, depth, 4)
    else MinPrefix(n, depth, 4)
  }

  /** Running value of a maximising ply after its first k directions. */
  function MaxPrefix(n: Node, depth: nat, k: nat): (r: int)
    requires Valid(n) && depth > 0 && k <= 4
    ensures r >= MaxStart
    decreases depth, k
  {
    if k == 0 then MaxStart
    else Max(MaxPrefix(n, depth, k - 1), Minimax(ApplyMove(n, 0, Directions[k - 1]), depth - 1, false))
  }

  /** Running value of a minimising ply after its first k joint replies. */
  function MinPrefix(n: Node, depth: nat, k: nat): (r: int)
    requires Valid(n) && depth > 0 && k <= 4
    ensures r <= MinStart
    decreases depth, k
  {
    if k == 0 then MinStart
    else Min(MinPrefix(n, depth, k - 1), Minimax(ApplyMoveArray(n, Replies()[k - 1]), depth - 1, true))
  }

  lemma {:induction false} MaxPrefixGrows(n: Node, depth: nat, j: nat, k: nat)
    requires Valid(n) && depth > 0 && j <= k <= 4
    ensures MaxPrefix(n, depth, j) <= MaxPrefix(n, depth, k)
    decreases k
  {
    if j < k {
      MaxPrefixGrows(n, depth, j, k - 1);
    }
  }

  lemma {:induction false} MinPrefixShrinks(n: Node, depth: nat, j: nat, k: nat)
    requires Valid(n) && depth > 0 && j <= k <= 4
    ensures MinPrefix(n, depth, k) <= MinPrefix(n, depth, j)
    decreases k
  {
    if j < k {
      MinPrefixShrinks(n, depth, j, k - 1);
    }
  }

  /** v restricted to the window [lo, hi]. */
  function Clamp(v: int, lo: int, hi: int): int {
    Min(Max(v, lo), hi)
  }

  /**
   * One step of a maximising ply keeps the clamped running value equal to
   * the clamped minimax prefix, when the child was searched with the
   * window (a, beta) the ply had at that point.
   */
  lemma ClampMaxStep(value: int, w: int, p: int, c: int, alpha: int, beta: int, a: int)
    requires Clamp(value, alpha, beta) == Clamp(p, alpha, beta)
    requires Clamp(w, a, beta) == Clamp(c, a, beta)
    requires (a == alpha && value == p) || (a == Max(alpha, value) && value < beta)
    ensures Clamp(Max(value, w), alpha, beta) == Clamp(Max(p, c), alpha, beta)
  {
  }

  /** The mirror image of `ClampMaxStep` for a minimising ply. */
  lemma ClampMinStep(value: int, w: int, p: int, c: int, alpha: int, beta: int, b: int)
    requires Clamp(value, alpha, beta) == Clamp(p, alpha, beta)
    requires Clamp(w, alpha, b) == Clamp(c, alpha, b)
    requires (b == beta && value == p) || (b == Min(beta, value) && value > alpha)
    ensures Clamp(Min(value, w), alpha, beta) == Clamp(Min(p, c), alpha, beta)
  {
  }

  /**
   * `alphabeta`, fail-soft. Whatever the window, the result and the minimax
   * value agree once both are clamped to it; in particular, when the minimax
   * value lies strictly inside the window the result is exactly that value.
   * The two kinds of ply are the two branches of the source's `if`.
   */
  method AlphaBeta(n: Node, depth: nat, alpha: int, beta: int, maximising: bool) returns (value: int)
    requires Valid(n)
    ensures Clamp(value, alpha, beta) == Clamp(Minimax(n, depth, maximising), alpha, beta)
    ensures alpha < Minimax(n, depth, maximising) < beta ==> value == Minimax(n, depth, maximising)
    ensures depth == 0 ==> value == Evaluation(n)
    ensures depth > 0 && maximising ==> value >= MaxStart
    ensures depth > 0 && !maximising ==> value <= MinStart
    decreases depth, 2
  {
    if depth == 0 {
      value := Evaluate(n);
    } else if maximising {
      value := MaximisingPly(n, depth, alpha, beta);
    } else {
      value := MinimisingPly(n, depth, alpha, beta);
    }
  }

  /**
   * Snake 0 tries Up, Down, Left, Right from -10000, keeping the maximum;
   * it stops once the value reaches beta and raises alpha after each move.
   */
  method MaximisingPly(n: Node, depth: nat, alpha: int, beta: int) returns (value: int)
    requires Valid(n) && depth > 0
    ensures Clamp(value, alpha, beta) == Clamp(MaxPrefix(n, depth, 4), alpha, beta)
    ensures value >= MaxStart
    decreases depth, 1
  {
    var a := alpha;
    value := MaxStart;
    for k := 0 to 4
      invariant Clamp(value, alpha, beta) == Clamp(MaxPrefix(n, depth, k), alpha, beta)
      invariant value >= MaxStart
      invariant k == 0 ==> value == MaxStart && a == alpha
      invariant k > 0 ==> a == Max(alpha, value) && value < beta
    {
      value := MaximisingChild(n, depth, k, alpha, beta, a, value);
      if value >= beta {
        MaxPrefixGrows(n, depth, k + 1, 4);
        break;
      }
      a := Max(a, value);
    }
  }

  /**
   * One iteration of the maximising ply: search the child reached by the
   * k-th direction with the window (a, beta) and fold its value in.
   */
  method MaximisingChild(n: Node, depth: nat, k: nat, alpha: int, beta: int, a: int, value: int)
    returns (next: int)
    requires Valid(n) && depth > 0 && k < 4
    requires Clamp(value, alpha, beta) == Clamp(MaxPrefix(n, depth, k), alpha, beta)
    requires (a == alpha && value == MaxPrefix(n, depth, k)) || (a == Max(alpha, value) && value < beta)
    ensures Clamp(next, alpha, beta) == Clamp(MaxPrefix(n, depth, k + 1), alpha, beta)
    ensures next >= value
    decreases depth, 0
  {
    var child := ApplyMove(n, 0, Directions[k]);
    var w := AlphaBeta(child, depth - 1, a, beta, false);
    ClampMaxStep(value, w, MaxPrefix(n, depth, k), Minimax(child, depth - 1, false), alpha, beta, a);
    next := Max(value, w);
  }

  /**
   * The opponents try every joint reply from 10000, keeping the minimum;
   * they stop once the value reaches alpha and lower beta after each reply.
   */
  method MinimisingPly(n: Node, depth: nat, alpha: int, beta: int) returns (value: int)
    requires Valid(n) && depth > 0
    ensures Clamp(value, alpha, beta) == Clamp(MinPrefix(n, depth, 4), alpha, beta)
    ensures value <= MinStart
    decreases depth, 1
  {
    var b := beta;
    value := MinStart;
    var replies := EnemyTurns(|n.heads|);
    assert replies == Replies();
    for k := 0 to |replies|
      invariant Clamp(value, alpha, beta) == Clamp(MinPrefix(n, depth, k), alpha, beta)
      invariant value <= MinStart
      invariant k == 0 ==> value == MinStart && b == beta
      invariant k > 0 ==> b == Min(beta, value) && value > alpha
    {
      value := MinimisingChild(n, depth, k, replies[k], alpha, beta, b, value);
      if value <= alpha {
        MinPrefixShrinks(n, depth, k + 1, 4);
        break;
      }
      b := Min(b, value);
    }
  }

  /**
   * One iteration of the minimising ply: search the child reached by the
   * k-th joint reply with the window (alpha, b) and fold its value in.
   */
  method MinimisingChild(n: Node, depth: nat, k: nat, reply: seq<Direction>, alpha: int, beta: int, b: int, value: int)
    returns (next: int)
    requires Valid(n) && depth > 0 && k < 4 && reply == Replies()[k]
    requires Clamp(value, alpha, beta) == Clamp(MinPrefix(n, depth, k), alpha, beta)
    requires (b == beta && value == MinPrefix(n, depth, k)) || (b == Min(beta, value) && value > alpha)
    ensures Clamp(next, alpha, beta) == Clamp(MinPrefix(n, depth, k + 1), alpha, beta)
    ensures next <= value
    decreases depth, 0
  {
    var child := ApplyMoveArray(n, reply);
    var w := AlphaBeta(child, depth - 1, alpha, b, true);
    ClampMinStep(value, w, MinPrefix(n, depth, k), Minimax(child, depth - 1, true), alpha, beta, b);
    next := Min(value, w);
  }

  /**
   * Bounds of the minimax value: never below the earlier of a loss at this
   * turn and -10000, never above the later of 10000 and a loss at the
   * deepest turn the search reaches.
   */
  lemma {:induction false} MinimaxBounds(n: Node, depth: nat, maximising: bool)
    requires Valid(n)
    ensures Min(LossScore + n.turn, MaxStart) <= Minimax(n, depth, maximising)
    ensures Minimax(n, depth, maximising) <= Max(MinStart, LossScore + n.turn + depth)
    decreases depth, 5
  {
    if depth > 0 {
      if maximising {
        MaxPrefixBounds(n, depth, 4);
      } else {
        MinPrefixBounds(n, depth, 4);
      }
    }
  }

  lemma {:induction false} MaxPrefixBounds(n: Node, depth: nat, k: nat)
    requires Valid(n) && depth > 0 && k <= 4
    ensures MaxPrefix(n, depth, k) <= Max(MinStart, LossScore + n.turn + depth)
    decreases depth, k
  {
    if k > 0 {
      MaxPrefixBounds(n, depth, k - 1);
      MinimaxBounds(ApplyMove(n, 0, Directions[k - 1]), depth - 1, false);
    }
  }

  lemma {:induction false} MinPrefixBounds(n: Node, depth: nat, k: nat)
    requires Valid(n) && depth > 0 && k <= 4
    ensures Min(LossScore + n.turn, MaxStart) <= MinPrefix(n, depth, k)
    decreases depth, k
  {
    if k > 0 {
      MinPrefixBounds(n, depth, k - 1);
      MinimaxBounds(ApplyMoveArray(n, Replies()[k - 1]), depth - 1, true);
    }
  }

  /**
   * From the window (i32::MIN, i32::MAX), for any turn that keeps the
   * scores inside i32, the search returns exactly the minimax value.
   */
  lemma MinimaxInsideI32(n: Node, depth: nat, maximising: bool)
    requires Valid(n)
    requires I32Min - LossScore < n.turn && n.turn + depth < I32Max - LossScore
    ensures I32Min < Minimax(n, depth, maximising) < I32Max
  {
    MinimaxBounds(n, depth, maximising);
  }
}
