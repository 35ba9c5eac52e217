/**
 * `voronoi`: a multi-source, round-synchronous flood fill that counts the
 * free cells each head claims. The functions below are the specification:
 * one test of one neighbour (`TestStep`), the four tests of a cell
 * (`TestsPrefix`), a sweep over the 121 cells in the source's scan order
 * (`SweepPrefix`, `Round`) and the repetition of rounds until one claims
 * nothing (`Fill`). The method `Voronoi` runs the source's loops and is
 * proved to compute `VoronoiScores`.
 */
module Territory {
  import opened DenseBoard
  import opened GameNode

  /** Marker for a cell no snake owns. */
  const NotOwned: int := -1

  /** Number of cells of the playing area, and of cells in one sweep. */
  const Area: nat := 121

  /** Every cell of an owner grid is unowned or owned by a snake index. */
  predicate OwnersOk(g: Grid) {
    forall i :: 0 <= i < Cells ==> NotOwned <= g[i] < PlayerCount
  }

  /**
   * The starting owner grid: unowned everywhere except the head cells of
   * the first k snakes, each owned by its snake (a later snake wins a shared
   * cell).
   */
  function HeadOwners(n: Node, k: nat): (g: Grid)
    requires Valid(n) && k <= PlayerCount
    ensures OwnersOk(g)
    ensures forall i :: 0 <= i < k ==> GetCoord(g, n.heads[i]) != NotOwned
    ensures forall i :: 0 <= i < k && (forall j :: i < j < k ==> n.heads[j] != n.heads[i]) ==>
      GetCoord(g, n.heads[i]) == i
    ensures forall c :: Addressable(c) && c !in n.heads[..k] ==> GetCoord(g, c) == NotOwned
    ensures forall c :: Addressable(c) && !OnBoard(c) ==> GetCoord(g, c) == NotOwned
  {
    if k == 0 then Init(NotOwned)
    else
      assert n.heads[..k] == n.heads[..k - 1] + [n.heads[k - 1]];
      SetCoord(HeadOwners(n, k - 1), n.heads[k - 1], k - 1)
  }

  /** The neighbours a cell tests, in the source's order: left, right, up, down. */
  function Tests(c: Coord): seq<Coord> {
    [Coord(c.x - 1, c.y), Coord(c.x + 1, c.y), Coord(c.x, c.y - 1), Coord(c.x, c.y + 1)]
  }

  /** A cell may be claimed: its stamp is not after the turn and nobody owns it yet. */
  predicate Claimable(n: Node, owned: Grid, c: Coord)
    requires OnBoard(c)
  {
    GetCoord(n.board, c) - n.turn <= 0 && GetCoord(owned, c) == NotOwned
  }

  /**
   * The state of one round: the owners written so far (`owned_by_new`), the
   * scores, and whether anything was claimed (`not_done`). During a round
   * the tests read only the owners of the previous round.
   */
  datatype Sweep = Sweep(owned: Grid, scores: seq<int>, changed: bool)

  /**
   * Test t of cell c: when c is claimable and neighbour t is owned, c is
   * given to that neighbour's owner and that owner scores one point.
   */
  function TestStep(n: Node, owned: Grid, s: Sweep, c: Coord, t: nat): (r: Sweep)
    requires Valid(n) && OwnersOk(owned) && OnBoard(c) && t < 4 && |s.scores| == PlayerCount
    ensures |r.scores| == PlayerCount
    ensures r.scores[0] >= s.scores[0] && r.scores[1] >= s.scores[1]
    ensures r.scores[0] + r.scores[1] <= s.scores[0] + s.scores[1] + 1
    ensures forall d :: Addressable(d) && d != c ==> GetCoord(r.owned, d) == GetCoord(s.owned, d)
    ensures r != s ==>
      r.changed && Claimable(n, owned, c) && GetCoord(r.owned, c) == GetCoord(owned, Tests(c)[t]) != NotOwned
  {
    var test := Tests(c)[t];
    if Claimable(n, owned, c) && GetCoord(owned, test) != NotOwned then
      var o := GetCoord(owned, test);
      Sweep(SetCoord(s.owned, c, o), s.scores[o := s.scores[o] + 1], true)
    else
      s
  }

  /** The first t tests of cell c, applied in order. */
  function TestsPrefix(n: Node, owned: Grid, s: Sweep, c: Coord, t: nat): (r: Sweep)
    requires Valid(n) && OwnersOk(owned) && OnBoard(c) && t <= 4 && |s.scores| == PlayerCount
    ensures |r.scores| == PlayerCount
  {
    if t == 0 then s else TestStep(n, owned, TestsPrefix(n, owned, s, c, t - 1), c, t - 1)
  }

  /** The k-th cell of the scan: x in the outer loop, y in the inner one. */
  function CellOf(k: nat): (c: Coord)
    requires k < Area
    ensures OnBoard(c)
  {
    Coord(k / BoardSize, k % BoardSize)
  }

  lemma CellOfInjective(j: nat, k: nat)
    requires j < Area && k < Area && j != k
    ensures CellOf(j) != CellOf(k)
  {
  }

  /** The round after its first k cells, starting from the previous round's owners. */
  function SweepPrefix(n: Node, owned: Grid, scores: seq<int>, k: nat): (r: Sweep)
    requires Valid(n) && OwnersOk(owned) && k <= Area && |scores| == PlayerCount
    ensures |r.scores| == PlayerCount
  {
    if k == 0 then Sweep(owned, scores, false)
    else TestsPrefix(n, owned, SweepPrefix(n, owned, scores, k - 1), CellOf(k - 1), 4)
  }

  /** One whole round over the playing area. */
  function Round(n: Node, owned: Grid, scores: seq<int>): Sweep
    requires Valid(n) && OwnersOk(owned) && |scores| == PlayerCount
  {
    SweepPrefix(n, owned, scores, Area)
  }

  /** Number of unowned cells among the first k cells of the scan. */
  function CountUnowned(g: Grid, k: nat): (r: nat)
    requires k <= Area
    ensures r <= k
  {
    if k == 0 then 0
    else CountUnowned(g, k - 1) + (if GetCoord(g, CellOf(k - 1)) == NotOwned then 1 else 0)
  }

  /** Unowned cells of the playing area: the measure that makes the fill terminate. */
  function Unowned(g: Grid): nat {
    CountUnowned(g, Area)
  }

  /** The count reads only the first k cells of the scan. */
  lemma {:induction false} CountFrame(a: Grid, b: Grid, k: nat)
    requires k <= Area
    requires forall j :: 0 <= j < k ==> GetCoord(a, CellOf(j)) == GetCoord(b, CellOf(j))
    ensures CountUnowned(a, k) == CountUnowned(b, k)
  {
    if k > 0 {
      CountFrame(a, b, k - 1);
    }
  }

  /**
   * What the tests of one cell can do: change that cell only, give it to a
   * snake when some test scores, and score at most one point per test.
   */
  lemma {:induction false} CellFacts(n: Node, owned: Grid, s: Sweep, c: Coord, t: nat)
    requires Valid(n) && OwnersOk(owned) && OnBoard(c) && t <= 4 && |s.scores| == PlayerCount
    requires OwnersOk(s.owned)
    ensures var r := TestsPrefix(n, owned, s, c, t);
      && OwnersOk(r.owned)
      && (forall d :: Addressable(d) && d != c ==> GetCoord(r.owned, d) == GetCoord(s.owned, d))
      && r.scores[0] >= s.scores[0] && r.scores[1] >= s.scores[1]
      && r.scores[0] + r.scores[1] <= s.scores[0] + s.scores[1] + t
      && (r.scores[0] + r.scores[1] == s.scores[0] + s.scores[1] ==> r == s)
      && (r.scores[0] + r.scores[1] > s.scores[0] + s.scores[1] ==>
            r.changed && Claimable(n, owned, c) && GetCoord(r.owned, c) != NotOwned)
  {
    if t > 0 {
      CellFacts(n, owned, s, c, t - 1);
    }
  }

  /** Cells k.. of the scan still hold their owners from the previous round. */
  predicate UntouchedFrom(owned: Grid, g: Grid, k: nat)
    requires k <= Area
  {
    forall j :: k <= j < Area ==> GetCoord(g, CellOf(j)) == GetCoord(owned, CellOf(j))
  }

  /** Every cell where g differs from `owned` was claimable and is now owned. */
  ghost predicate ClaimsOnly(n: Node, owned: Grid, g: Grid) {
    forall c :: Addressable(c) && GetCoord(g, c) != GetCoord(owned, c) ==>
      OnBoard(c) && Claimable(n, owned, c) && GetCoord(g, c) != NotOwned
  }

  /** The score and count bookkeeping of a round after its first k cells. */
  predicate Accounted(owned: Grid, scores: seq<int>, k: nat, s: Sweep)
    requires k <= Area && |scores| == PlayerCount && |s.scores| == PlayerCount
  {
    && s.scores[0] >= scores[0] && s.scores[1] >= scores[1]
    && s.scores[0] + s.scores[1] - scores[0] - scores[1]
         <= 4 * (CountUnowned(owned, k) - CountUnowned(s.owned, k))
    && (s.changed ==> CountUnowned(s.owned, k) < CountUnowned(owned, k))
    && (!s.changed ==> s == Sweep(owned, scores, false))
  }

  /** Processing cell k - 1 leaves the cells after it alone and claims only it. */
  lemma SweepStepFrame(n: Node, owned: Grid, p: Sweep, k: nat)
    requires Valid(n) && OwnersOk(owned) && 0 < k <= Area && |p.scores| == PlayerCount
    requires OwnersOk(p.owned) && UntouchedFrom(owned, p.owned, k - 1) && ClaimsOnly(n, owned, p.owned)
    ensures var s := TestsPrefix(n, owned, p, CellOf(k - 1), 4);
      OwnersOk(s.owned) && UntouchedFrom(owned, s.owned, k) && ClaimsOnly(n, owned, s.owned)
  {
    var c := CellOf(k - 1);
    CellFacts(n, owned, p, c, 4);
    var s := TestsPrefix(n, owned, p, c, 4);
    forall j | k <= j < Area
      ensures GetCoord(s.owned, CellOf(j)) == GetCoord(owned, CellOf(j))
    {
      CellOfInjective(j, k - 1);
    }
    assert GetCoord(p.owned, c) == GetCoord(owned, c);
  }

  /** Processing cell k - 1 keeps the bookkeeping of `Accounted`. */
  lemma SweepStepCount(n: Node, owned: Grid, scores: seq<int>, p: Sweep, k: nat)
    requires Valid(n) && OwnersOk(owned) && 0 < k <= Area && |scores| == PlayerCount
    requires |p.scores| == PlayerCount && OwnersOk(p.owned)
    requires UntouchedFrom(owned, p.owned, k - 1) && Accounted(owned, scores, k - 1, p)
    ensures Accounted(owned, scores, k, TestsPrefix(n, owned, p, CellOf(k - 1), 4))
  {
    var c := CellOf(k - 1);
    CellCountFrame(n, owned, p, k);
    CellFacts(n, owned, p, c, 4);
    var s := TestsPrefix(n, owned, p, c, 4);
    assert GetCoord(p.owned, c) == GetCoord(owned, c);
    CountStep(owned, scores, p, s, k);
  }

  /** Processing cell k - 1 leaves the count over the cells before it alone. */
  lemma CellCountFrame(n: Node, owned: Grid, p: Sweep, k: nat)
    requires Valid(n) && OwnersOk(owned) && 0 < k <= Area
    requires |p.scores| == PlayerCount && OwnersOk(p.owned)
    ensures CountUnowned(TestsPrefix(n, owned, p, CellOf(k - 1), 4).owned, k - 1) == CountUnowned(p.owned, k - 1)
  {
    var c := CellOf(k - 1);
    CellFacts(n, owned, p, c, 4);
    var s := TestsPrefix(n, owned, p, c, 4);
    forall j | 0 <= j < k - 1
      ensures GetCoord(s.owned, CellOf(j)) == GetCoord(p.owned, CellOf(j))
    {
      CellOfInjective(j, k - 1);
      var d := CellOf(j);
      assert Addressable(d) && d != c;
    }
    CountFrame(s.owned, p.owned, k - 1);
  }

  /**
   * The arithmetic of `SweepStepCount`: a cell step that scores claims an
   * unowned cell, so the unowned count falls by one while the scores grow
   * by at most four.
   */
  lemma CountStep(owned: Grid, scores: seq<int>, p: Sweep, s: Sweep, k: nat)
    requires 0 < k <= Area && |scores| == PlayerCount
    requires |p.scores| == PlayerCount && |s.scores| == PlayerCount
    requires Accounted(owned, scores, k - 1, p)
    requires GetCoord(p.owned, CellOf(k - 1)) == GetCoord(owned, CellOf(k - 1))
    requires CountUnowned(s.owned, k - 1) == CountUnowned(p.owned, k - 1)
    requires s.scores[0] >= p.scores[0] && s.scores[1] >= p.scores[1]
    requires s.scores[0] + s.scores[1] <= p.scores[0] + p.scores[1] + 4
    requires s.scores[0] + s.scores[1] == p.scores[0] + p.scores[1] ==> s == p
    requires s.scores[0] + s.scores[1] > p.scores[0] + p.scores[1] ==>
      s.changed && GetCoord(owned, CellOf(k - 1)) == NotOwned && GetCoord(s.owned, CellOf(k - 1)) != NotOwned
    ensures Accounted(owned, scores, k, s)
  {
  }

  /** What the first k cells of a round do, by induction on k. */
  lemma {:induction false} SweepFacts(n: Node, owned: Grid, scores: seq<int>, k: nat)
    requires Valid(n) && OwnersOk(owned) && k <= Area && |scores| == PlayerCount
    ensures var s := SweepPrefix(n, owned, scores, k);
      && OwnersOk(s.owned)
      && UntouchedFrom(owned, s.owned, k)
      && ClaimsOnly(n, owned, s.owned)
      && Accounted(owned, scores, k, s)
  {
    if k > 0 {
      var p := SweepPrefix(n, owned, scores, k - 1);
      SweepFacts(n, owned, scores, k - 1);
      SweepStepFrame(n, owned, p, k);
      SweepStepCount(n, owned, scores, p, k);
    }
  }

  /**
   * One round: owned cells keep their owner; a cell that changes was an
   * unowned cell of the playing area whose stamp is not after the turn; the
   * scores grow by at most four per claimed cell; a round that claims
   * anything leaves strictly fewer unowned cells, and one that claims
   * nothing changes nothing.
   */
  lemma RoundFacts(n: Node, owned: Grid, scores: seq<int>)
    requires Valid(n) && OwnersOk(owned) && |scores| == PlayerCount
    ensures var s := Round(n, owned, scores);
      && OwnersOk(s.owned) && |s.scores| == PlayerCount
      && (forall c :: Addressable(c) && GetCoord(owned, c) != NotOwned ==>
            GetCoord(s.owned, c) == GetCoord(owned, c))
      && (forall c :: Addressable(c) && GetCoord(s.owned, c) != GetCoord(owned, c) ==>
            OnBoard(c) && GetCoord(n.board, c) <= n.turn && GetCoord(owned, c) == NotOwned)
      && s.scores[0] >= scores[0] && s.scores[1] >= scores[1]
      && s.scores[0] + s.scores[1] <= scores[0] + scores[1] + 4 * (Unowned(owned) - Unowned(s.owned))
      && (s.changed ==> Unowned(s.owned) < Unowned(owned))
      && (!s.changed ==> s.owned == owned && s.scores == scores)
  {
    SweepFacts(n, owned, scores, Area);
  }

  /**
   * Rounds repeated until one claims nothing (the `while not_done` loop).
   * It terminates because every productive round claims a cell for good;
   * the scores only grow, and by at most four per claimable cell.
   */
  function Fill(n: Node, owned: Grid, scores: seq<int>): (r: seq<int>)
    requires Valid(n) && OwnersOk(owned) && |scores| == PlayerCount
    ensures |r| == PlayerCount
    ensures r[0] >= scores[0] && r[1] >= scores[1]
    ensures r[0] + r[1] <= scores[0] + scores[1] + 4 * Unowned(owned)
    decreases Unowned(owned)
  {
    var s := Round(n, owned, scores);
    RoundFacts(n, owned, scores);
    if s.changed then Fill(n, s.owned, s.scores) else s.scores
  }

  /**
   * The territory of each snake. Scores are non-negative and together at
   * most four points per cell of the playing area.
   */
  function VoronoiScores(n: Node): (r: seq<int>)
    requires Valid(n)
    ensures |r| == PlayerCount
    ensures r[0] >= 0 && r[1] >= 0
    ensures r[0] + r[1] <= 4 * Area
  {
    Fill(n, HeadOwners(n, PlayerCount), [0, 0])
  }

  /**
   * The four tests of one cell (the innermost loop of a pass). The tests
   * read `owned_by`; the writes go to `owned_by_new` and the scores.
   */
  method TestCell(n: Node, owned: Grid, coord: Coord, ownedNew: Grid, scores: seq<int>, notDone: bool)
    returns (ownedNew': Grid, scores': seq<int>, notDone': bool)
    requires Valid(n) && OwnersOk(owned) && OnBoard(coord) && |scores| == PlayerCount
    ensures Sweep(ownedNew', scores', notDone')
         == TestsPrefix(n, owned, Sweep(ownedNew, scores, notDone), coord, 4)
  {
    ownedNew', scores', notDone' := ownedNew, scores, notDone;
    var tests := Tests(coord);
    for t := 0 to 4
      invariant Sweep(ownedNew', scores', notDone')
             == TestsPrefix(n, owned, Sweep(ownedNew, scores, notDone), coord, t)
    {
      var test := tests[t];
      if GetCoord(n.board, coord) - n.turn <= 0
         && GetCoord(owned, test) != NotOwned
         && GetCoord(owned, coord) == NotOwned
      {
        ownedNew' := SetCoord(ownedNew', coord, GetCoord(owned, test));
        scores' := scores'[GetCoord(owned, test) := scores'[GetCoord(owned, test)] + 1];
        notDone' := true;
      }
    }
  }

  /**
   * One pass of the `while not_done` loop: the scan over x, then y, then the
   * four tests of each cell. `owned_by_new` starts the pass equal to
   * `owned_by`, which the pass only reads.
   */
  method SweepCells(n: Node, owned: Grid, scores: seq<int>) returns (ownedNew: Grid, after: seq<int>, notDone: bool)
    requires Valid(n) && OwnersOk(owned) && |scores| == PlayerCount
    ensures Sweep(ownedNew, after, notDone) == Round(n, owned, scores)
  {
    ownedNew, after, notDone := owned, scores, false;
    for x := 0 to BoardSize
      invariant Sweep(ownedNew, after, notDone) == SweepPrefix(n, owned, scores, x * BoardSize)
    {
      assert x * BoardSize + 0 == x * BoardSize;
      for y := 0 to BoardSize
        invariant Sweep(ownedNew, after, notDone) == SweepPrefix(n, owned, scores, x * BoardSize + y)
      {
        var coord := Coord(x, y);
        assert coord == CellOf(x * BoardSize + y);
        ownedNew, after, notDone := TestCell(n, owned, coord, ownedNew, after, notDone);
        assert SweepPrefix(n, owned, scores, x * BoardSize + y + 1)
            == TestsPrefix(n, owned, SweepPrefix(n, owned, scores, x * BoardSize + y), coord, 4);
      }
    }
  }

  /** `voronoi`: the source's loops, computing `VoronoiScores`. */
  method Voronoi(n: Node) returns (scores: seq<int>)
    requires Valid(n)
    ensures scores == VoronoiScores(n)
  {
    var owned := Init(NotOwned);
    var ownedNew := Init(NotOwned);
    scores := [0, 0];

    for i := 0 to PlayerCount
      invariant owned == ownedNew == HeadOwners(n, i)
    {
      owned := SetCoord(owned, n.heads[i], i);
      ownedNew := SetCoord(ownedNew, n.heads[i], i);
    }

    var notDone := true;
    while notDone
      invariant OwnersOk(owned) && ownedNew == owned && |scores| == PlayerCount
      invariant notDone ==> Fill(n, owned, scores) == VoronoiScores(n)
      invariant !notDone ==> scores == VoronoiScores(n)
      decreases Unowned(owned), notDone
    {
      ghost var start := scores;
      ownedNew, scores, notDone := SweepCells(n, owned, scores);
      RoundFacts(n, owned, start);
      owned := ownedNew;
    }
  }
}
