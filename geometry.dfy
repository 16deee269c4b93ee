/** Shared value types: optional values, grid positions, cell states and the
    occupancy view of a grid that every pathfinder reads. */
module Geometry {

  datatype Option<T> = None | Some(value: T)

  /** A cell coordinate `(x, y)`: `x` is the column, `y` the row. */
  datatype Pos = Pos(x: int, y: int)

  /** The four cell states of the configuration module (free, obstacle,
      start and end are the constants 0, 1, 2 and 3 there). */
  datatype Cell = Free | Obstacle | Start | End

  /** What a search sees of a grid: its dimensions and its column-major state
      table, indexed `states[x][y]`. */
  datatype Occupancy = Occupancy(cols: int, rows: int, states: seq<seq<Cell>>) {

    ghost predicate Valid() {
      && 0 <= cols && 0 <= rows
      && |states| == cols
      && forall x :: 0 <= x < cols ==> |states[x]| == rows
    }

    predicate InBounds(p: Pos) {
      0 <= p.x < cols && 0 <= p.y < rows
    }

    function At(p: Pos): Cell
      requires Valid() && InBounds(p)
    {
      states[p.x][p.y]
    }

    /** The same grid with the cell at `p` set to `c`. */
    function Set(p: Pos, c: Cell): (r: Occupancy)
      requires Valid() && InBounds(p)
      ensures r.Valid() && r.cols == cols && r.rows == rows
      ensures forall q :: r.InBounds(q) ==> r.At(q) == if q == p then c else At(q)
    {
      Occupancy(cols, rows, states[p.x := states[p.x][p.y := c]])
    }
  }

  /** A `cols` by `rows` grid of free cells. */
  function Blank(cols: nat, rows: nat): (r: Occupancy)
    ensures r.Valid() && r.cols == cols && r.rows == rows
    ensures forall q :: r.InBounds(q) ==> r.At(q) == Free
  {
    Occupancy(cols, rows, seq(cols, _ => seq(rows, _ => Free)))
  }

  /** Two grids of the same dimensions that agree on every cell are equal. */
  lemma SameCells(a: Occupancy, b: Occupancy)
    requires a.Valid() && b.Valid() && a.cols == b.cols && a.rows == b.rows
    requires forall q :: a.InBounds(q) ==> a.At(q) == b.At(q)
    ensures a == b
  {
    forall x | 0 <= x < a.cols
      ensures a.states[x] == b.states[x]
    {
      forall y | 0 <= y < a.rows
        ensures a.states[x][y] == b.states[x][y]
      {
        assert a.At(Pos(x, y)) == b.At(Pos(x, y));
      }
    }
  }
}
