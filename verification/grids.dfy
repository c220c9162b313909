/** The crossword grid: a square matrix whose cells are either empty or hold
    exactly one letter, together with the coordinates and orientations that
    the placement engine works with. */
module Grids {

  /** An optional value. An empty cell is `None`, a filled cell `Some(letter)`. */
  datatype Option<+T> = None | Some(value: T)

  /** A (row, column) coordinate. Coordinates are unbounded integers: the
      crossing search computes anchors by subtracting letter indices, so they
      can be negative or past the edge before the validator rejects them. */
  datatype Pos = Pos(row: int, col: int)

  /** The orientation of a word. The source encodes Across as 0 (horizontal)
      and Down as 1 (vertical). */
  datatype Direction = Across | Down

  type Grid = seq<seq<Option<char>>>

  /** Every row has as many cells as there are rows. */
  predicate WellFormed(g: Grid) {
    forall r :: 0 <= r < |g| ==> |g[r]| == |g|
  }

  predicate InBounds(g: Grid, p: Pos) {
    0 <= p.row < |g| && 0 <= p.col < |g|
  }

  function Letter(g: Grid, p: Pos): Option<char>
    requires WellFormed(g) && InBounds(g, p)
  {
    g[p.row][p.col]
  }

  /** A cell inside the grid that holds a letter. Cells off the grid are never
      occupied, which is how every bounds-guarded neighbour read of the
      source (`r > 0 and grid[r - 1][c] is not None`) is expressed here. */
  predicate Occupied(g: Grid, p: Pos)
    requires WellFormed(g)
  {
    InBounds(g, p) && Letter(g, p).Some?
  }

  /** A fresh `n` by `n` grid with every cell empty. */
  function EmptyGrid(n: nat): (g: Grid)
    ensures WellFormed(g) && |g| == n
    ensures forall p :: InBounds(g, p) ==> Letter(g, p) == None
  {
    seq(n, _ => seq(n, _ => None))
  }

  /** The grid with cell `p` set to `v` and every other cell as before. */
  function Write(g: Grid, p: Pos, v: Option<char>): (h: Grid)
    requires WellFormed(g) && InBounds(g, p)
    ensures WellFormed(h) && |h| == |g|
    ensures forall q :: InBounds(h, q) ==> Letter(h, q) == if q == p then v else Letter(g, q)
  {
    g[p.row := g[p.row][p.col := v]]
  }
}
