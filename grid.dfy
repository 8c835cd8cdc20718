/**
 The playing field of the_snake.py: a 640 x 480 pixel screen split into
 20-pixel cells, the four movement directions, and the toroidal step that
 `Snake.move` takes. Positions are pixel coordinates, as in the source.
 */
module Grid {

  const ScreenWidth: int := 640
  const ScreenHeight: int := 480
  const GridSize: int := 20
  /** Number of cell columns (Python's `//` on positive numbers is Dafny's `/`). */
  const GridWidth: int := ScreenWidth / GridSize
  /** Number of cell rows. */
  const GridHeight: int := ScreenHeight / GridSize

  /** The four direction vectors UP = (0, -1), DOWN = (0, 1), LEFT = (-1, 0), RIGHT = (1, 0). */
  datatype Direction = Up | Down | Left | Right {
    function Dx(): int {
      match this
      case Left => -1
      case Right => 1
      case _ => 0
    }
    function Dy(): int {
      match this
      case Up => -1
      case Down => 1
      case _ => 0
    }
  }

  /** A pixel coordinate, the tuple `(x, y)` of the source. */
  datatype Pos = Pos(x: int, y: int)

  /** A cell index pair `(grid_x, grid_y)`. */
  datatype Cell = Cell(gx: int, gy: int) {
    predicate InGrid() {
      0 <= gx < GridWidth && 0 <= gy < GridHeight
    }
  }

  /** The 180-degree turn of a direction: the vector pointing the other way. */
  function Opposite(d: Direction): (r: Direction)
    ensures r.Dx() == -d.Dx() && r.Dy() == -d.Dy()
    ensures r != d
  {
    match d
    case Up => Down
    case Down => Up
    case Left => Right
    case Right => Left
  }

  /** A position inside the screen that is the corner of a cell. */
  predicate OnGrid(p: Pos) {
    0 <= p.x < ScreenWidth && 0 <= p.y < ScreenHeight
    && p.x % GridSize == 0 && p.y % GridSize == 0
  }

  predicate AllOnGrid(ps: seq<Pos>) {
    forall i :: 0 <= i < |ps| ==> OnGrid(ps[i])
  }

  /** The pixel position `(grid_x * GRID_SIZE, grid_y * GRID_SIZE)` of a cell. */
  function CellAt(c: Cell): (p: Pos)
    ensures c.InGrid() ==> OnGrid(p)
  {
    Pos(c.gx * GridSize, c.gy * GridSize)
  }

  /** The cell whose corner a grid-aligned position is. */
  function CellOf(p: Pos): (c: Cell)
    requires OnGrid(p)
    ensures c.InGrid() && CellAt(c) == p
  {
    Cell(p.x / GridSize, p.y / GridSize)
  }

  /**
   The head's next position in `Snake.move`: one cell along `d`, each axis
   taken modulo the screen size. Python's `%` with a positive divisor is
   never negative, like Dafny's.
   */
  function Step(p: Pos, d: Direction): (r: Pos)
    ensures 0 <= r.x < ScreenWidth && 0 <= r.y < ScreenHeight
  {
    Pos((p.x + d.Dx() * GridSize) % ScreenWidth, (p.y + d.Dy() * GridSize) % ScreenHeight)
  }

  /**
   Reference definition of wraparound on cell indices: one cell along `d`,
   re-entering at the opposite edge when the step leaves the grid.
   */
  function Neighbour(c: Cell, d: Direction): (r: Cell)
    requires c.InGrid()
    ensures r.InGrid()
  {
    match d
    case Up => Cell(c.gx, if c.gy == 0 then GridHeight - 1 else c.gy - 1)
    case Down => Cell(c.gx, if c.gy == GridHeight - 1 then 0 else c.gy + 1)
    case Left => Cell(if c.gx == 0 then GridWidth - 1 else c.gx - 1, c.gy)
    case Right => Cell(if c.gx == GridWidth - 1 then 0 else c.gx + 1, c.gy)
  }

  /** The pixel step of the source agrees with the cell-level wraparound. */
  lemma StepIsNeighbour(c: Cell, d: Direction)
    requires c.InGrid()
    ensures Step(CellAt(c), d) == CellAt(Neighbour(c, d))
  {
  }

  /** A step from a cell corner inside the screen lands on a cell corner inside the screen. */
  lemma StepOnGrid(p: Pos, d: Direction)
    requires OnGrid(p)
    ensures OnGrid(Step(p, d))
  {
  }

  /** Moving right from the rightmost column lands on column 0 of the same row. */
  lemma WrapRight(y: int)
    requires 0 <= y < ScreenHeight
    ensures Step(Pos(ScreenWidth - GridSize, y), Right) == Pos(0, y)
  {
  }

  /** Moving left from column 0 lands on the rightmost column of the same row. */
  lemma WrapLeft(y: int)
    requires 0 <= y < ScreenHeight
    ensures Step(Pos(0, y), Left) == Pos(ScreenWidth - GridSize, y)
  {
  }

  /** Moving up from the top row lands on the bottom row of the same column. */
  lemma WrapUp(x: int)
    requires 0 <= x < ScreenWidth
    ensures Step(Pos(x, 0), Up) == Pos(x, ScreenHeight - GridSize)
  {
  }

  /** Moving down from the bottom row lands on the top row of the same column. */
  lemma WrapDown(x: int)
    requires 0 <= x < ScreenWidth
    ensures Step(Pos(x, ScreenHeight - GridSize), Down) == Pos(x, 0)
  {
  }
}
