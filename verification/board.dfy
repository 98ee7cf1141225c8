/** The 8x8 playing field of `BlockBlastGame`: cell states, coordinates and
    the grid primitives the other modules build on (game.js:5-8, 129). */
module Board {

  /** GRID_SIZE. */
  const Size: nat := 8

  /** Number of entries in COLORS; a filled cell remembers which entry. */
  const ColourCount: nat := 7

  /** A grid entry: `null`, the `'wall'` sentinel, or a colour. */
  datatype Cell = Empty | Wall | Filled(colour: nat)

  /** An absolute grid coordinate; it may lie outside the grid. */
  datatype Pos = Pos(r: int, c: int)

  type Grid = seq<seq<Cell>>

  predicate InBounds(p: Pos) {
    0 <= p.r < Size && 0 <= p.c < Size
  }

  predicate WellFormed(g: Grid) {
    |g| == Size && forall r :: 0 <= r < Size ==> |g[r]| == Size
  }

  /** A cell a block may be dropped on: inside the grid and `null`. */
  predicate Free(g: Grid, p: Pos)
    requires WellFormed(g)
  {
    InBounds(p) && g[p.r][p.c] == Empty
  }

  /** A cell that is not `null` (a wall or a colour). */
  predicate Occupied(g: Grid, r: int, c: int)
    requires WellFormed(g)
  {
    0 <= r < Size && 0 <= c < Size && g[r][c] != Empty
  }

  function EmptyGrid(): (g: Grid)
    ensures WellFormed(g)
  {
    seq(Size, _ => seq(Size, _ => Empty))
  }

  /** The grid with one in-bounds cell overwritten. */
  function SetCell(g: Grid, p: Pos, v: Cell): (g': Grid)
    requires WellFormed(g) && InBounds(p)
    ensures WellFormed(g')
    ensures g'[p.r][p.c] == v
    ensures forall r, c :: 0 <= r < Size && 0 <= c < Size && Pos(r, c) != p ==> g'[r][c] == g[r][c]
  {
    g[p.r := g[p.r][p.c := v]]
  }

  /** Every cell is a wall or holds a colour. */
  predicate Saturated(g: Grid)
    requires WellFormed(g)
  {
    forall r, c :: 0 <= r < Size && 0 <= c < Size ==> g[r][c] != Empty
  }

  /** No cell of the grid is a wall (endless mode). */
  predicate NoWalls(g: Grid)
    requires WellFormed(g)
  {
    forall r, c :: 0 <= r < Size && 0 <= c < Size ==> g[r][c] != Wall
  }
}
