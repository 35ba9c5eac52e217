/**
 * The dense board: an 11x11 playing area stored row-major in a flat buffer
 * of 13x13 cells, so that a one-cell halo around the board can hold the
 * walls. The cell for (x, y) lives at index (y + 1) * 13 + (x + 1); every
 * coordinate from -1 to 11 on both axes is addressable.
 */
module DenseBoard {

  /** Side length of the playing area. */
  const BoardSize: int := 11
  /** Side length of the stored grid: the playing area plus the halo. */
  const Side: int := BoardSize + 2
  /** Number of stored cells. */
  const Cells: int := Side * Side

  const I32Min: int := -0x8000_0000
  const I32Max: int := 0x7fff_ffff

  datatype Coord = Coord(x: int, y: int)

  /** A flat buffer of exactly 169 cells. */
  type Grid = g: seq<int> | |g| == 169 witness seq(169, _ => 0)

  /** The coordinates the halo grid can address: -1 to 11 on both axes. */
  predicate InGrid(x: int, y: int) {
    -1 <= x <= BoardSize && -1 <= y <= BoardSize
  }

  /** The cells of the wall ring: x or y equal to -1 or 11. */
  predicate OnRing(x: int, y: int) {
    x == -1 || x == BoardSize || y == -1 || y == BoardSize
  }

  /**
   * Position of (x, y) in the buffer. It is always in range, and it can be
   * decoded back into (x, y), so distinct coordinates never share a cell.
   */
  function Index(x: int, y: int): (i: nat)
    requires InGrid(x, y)
    ensures i < Cells
    ensures i % Side == x + 1 && i / Side == y + 1
  {
    (y + 1) * Side + (x + 1)
  }

  /** Every buffer position is the index of exactly the coordinate it decodes to. */
  lemma IndexOnto(i: int)
    requires 0 <= i < Cells
    ensures InGrid(i % Side - 1, i / Side - 1)
    ensures Index(i % Side - 1, i / Side - 1) == i
  {
  }

  /** A grid with every cell, wall ring included, set to `default`. */
  function Init(default: int): (g: Grid)
    ensures forall x, y :: InGrid(x, y) ==> GetXY(g, x, y) == default
  {
    seq(169, _ => default)
  }

  function GetXY(g: Grid, x: int, y: int): int
    requires InGrid(x, y)
  {
    g[Index(x, y)]
  }

  /**
   * Writes `v` at (x, y): reading (x, y) back gives `v` and every other
   * addressable cell keeps its value.
   */
  function SetXY(g: Grid, x: int, y: int, v: int): (r: Grid)
    requires InGrid(x, y)
    ensures forall x', y' :: InGrid(x', y') ==>
      GetXY(r, x', y') == if x' == x && y' == y then v else GetXY(g, x', y')
  {
    g[Index(x, y) := v]
  }

  predicate Addressable(c: Coord) {
    InGrid(c.x, c.y)
  }

  /** `get_coord`: reading through a coordinate value. */
  function GetCoord(g: Grid, c: Coord): int
    requires Addressable(c)
  {
    GetXY(g, c.x, c.y)
  }

  /** `get_coord_mut`: writing through a coordinate value changes that cell only. */
  function SetCoord(g: Grid, c: Coord, v: int): (r: Grid)
    requires Addressable(c)
    ensures forall d :: Addressable(d) ==>
      GetCoord(r, d) == if d == c then v else GetCoord(g, d)
  {
    SetXY(g, c.x, c.y, v)
  }

  /** Two grids that agree on every addressable coordinate are the same grid. */
  lemma GridExtensionality(a: Grid, b: Grid)
    requires forall x, y :: InGrid(x, y) ==> GetXY(a, x, y) == GetXY(b, x, y)
    ensures a == b
  {
    forall i | 0 <= i < Cells
      ensures a[i] == b[i]
    {
      IndexOnto(i);
      assert GetXY(a, i % Side - 1, i / Side - 1) == GetXY(b, i % Side - 1, i / Side - 1);
    }
  }
}
