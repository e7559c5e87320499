/** The playing field: a fixed GridW x GridH board of integer cells and the
    two boundary policies ("wrap" re-enters from the opposite edge, "wall"
    is fatal). */
module Grid {

  /** Board size in cells (GRID_W, GRID_H). */
  const GridW: int := 30
  const GridH: int := 20

  /** A cell (x, y); it may lie off the board before the boundary policy is applied. */
  type Cell = (int, int)

  /** The difficulty option: "wrap" or "wall". */
  datatype Policy = Wrap | Wall

  /** The four headings, as (dx, dy) vectors; y grows downward. */
  const Up: Cell := (0, -1)
  const Down: Cell := (0, 1)
  const Left: Cell := (-1, 0)
  const Right: Cell := (1, 0)

  predicate IsHeading(d: Cell) {
    d == Up || d == Down || d == Left || d == Right
  }

  function Negate(d: Cell): Cell {
    (-d.0, -d.1)
  }

  predicate InGrid(c: Cell) {
    0 <= c.0 < GridW && 0 <= c.1 < GridH
  }

  /** The cell one step from c in heading d, before any boundary policy. */
  function Offset(c: Cell, d: Cell): Cell {
    (c.0 + d.0, c.1 + d.1)
  }

  /** Python's `%` with a positive divisor floors, which for a positive
      divisor agrees with Dafny's Euclidean `%`. The result is on the board,
      congruent to c on both axes, and c itself when c is already on it. */
  function WrapCell(c: Cell): (r: Cell)
    ensures InGrid(r)
    ensures (c.0 - r.0) % GridW == 0 && (c.1 - r.1) % GridH == 0
    ensures InGrid(c) ==> r == c
  {
    (c.0 % GridW, c.1 % GridH)
  }

  /** The head the snake moves to: wrapped under Wrap, the raw neighbour
      (possibly off the board) under Wall. */
  function NextHead(policy: Policy, head: Cell, d: Cell): (r: Cell)
    ensures policy == Wrap ==> InGrid(r)
    ensures InGrid(Offset(head, d)) ==> r == Offset(head, d)
  {
    match policy
    case Wrap => WrapCell(Offset(head, d))
    case Wall => Offset(head, d)
  }

  /** Under Wall, stepping off the board is death. Under either policy
      the boundary kills exactly when the head the snake moves to is off
      the board, so under Wrap it never kills. */
  predicate HitsWall(policy: Policy, head: Cell, d: Cell)
    ensures HitsWall(policy, head, d) <==> !InGrid(NextHead(policy, head, d))
  {
    policy == Wall && !InGrid(Offset(head, d))
  }

  /** Crossing any edge under Wrap re-enters at the opposite edge, on the
      same row or column. */
  lemma WrapEdges(x: int, y: int)
    requires 0 <= x < GridW && 0 <= y < GridH
    ensures NextHead(Wrap, (GridW - 1, y), Right) == (0, y)
    ensures NextHead(Wrap, (0, y), Left) == (GridW - 1, y)
    ensures NextHead(Wrap, (x, 0), Up) == (x, GridH - 1)
    ensures NextHead(Wrap, (x, GridH - 1), Down) == (x, 0)
  {
  }
}
