/** The editable occupancy grid: its cell table, its start and end points,
    loading from decoded map data, editing, clearing and export. */
module Grids {
  import opened Geometry

  /** Window size and cell size, in pixels, from the configuration module. */
  const SCREEN_WIDTH: int := 1280
  const SCREEN_HEIGHT: int := 720
  const CELL_SIZE: int := 40

  /** A decoded map record: start, end and obstacle cells. An absent obstacle
      list is represented by the empty list. */
  datatype MapData = MapData(start: Pos, end: Pos, obstacles: seq<Pos>)

  /** The grid's observable state: the cell table and the two points. */
  datatype Layout = Layout(grid: Occupancy, start: Option<Pos>, end: Option<Pos>)

  /** The table has the grid's shape and each point, when set, is a cell. */
  ghost predicate LayoutOk(l: Layout) {
    && l.grid.Valid()
    && (l.start.Some? ==> l.grid.InBounds(l.start.value))
    && (l.end.Some? ==> l.grid.InBounds(l.end.value))
  }

  /** The editor's intended picture: both points set and distinct, and the
      START and END cells are exactly the start and end points. */
  ghost predicate Canonical(l: Layout) {
    && LayoutOk(l)
    && l.start.Some? && l.end.Some? && l.start != l.end
    && forall q :: l.grid.InBounds(q) ==>
         && (l.grid.At(q) == Start <==> Some(q) == l.start)
         && (l.grid.At(q) == End <==> Some(q) == l.end)
  }

  /** The cleared grid: all free, then START at column 1 and END at column
      `cols - 2`, both on row `rows / 2`, each only when that column exists;
      a point whose column does not exist keeps its previous value. */
  function ClearSpec(cols: nat, rows: nat, oldStart: Option<Pos>, oldEnd: Option<Pos>): Layout
    requires rows > 0
  {
    var y := rows / 2;
    var g0 := Blank(cols, rows);
    var startX := 1;
    var endX := cols - 2;
    var g1 := if 0 <= startX < cols then g0.Set(Pos(startX, y), Start) else g0;
    var start := if 0 <= startX < cols then Some(Pos(startX, y)) else oldStart;
    var g2 := if 0 <= endX < cols then g1.Set(Pos(endX, y), End) else g1;
    var end := if 0 <= endX < cols then Some(Pos(endX, y)) else oldEnd;
    Layout(g2, start, end)
  }

  /** Marks every in-bounds listed cell as an obstacle, in list order;
      out-of-bounds entries are ignored. */
  function ApplyObstacles(g: Occupancy, obstacles: seq<Pos>): (r: Occupancy)
    requires g.Valid()
    ensures r.Valid() && r.cols == g.cols && r.rows == g.rows
    ensures forall q :: r.InBounds(q) ==> r.At(q) == if q in obstacles then Obstacle else g.At(q)
    decreases |obstacles|
  {
    if obstacles == [] then g
    else
      var o := obstacles[0];
      assert forall q :: q in obstacles <==> q == o || q in obstacles[1..];
      ApplyObstacles(if g.InBounds(o) then g.Set(o, Obstacle) else g, obstacles[1..])
  }

  /** The remaining obstacles are applied one at a time. */
  lemma ApplyObstaclesStep(g: Occupancy, obstacles: seq<Pos>, i: nat)
    requires g.Valid() && i < |obstacles|
    ensures var o := obstacles[i];
      ApplyObstacles(g, obstacles[i..])
        == ApplyObstacles(if g.InBounds(o) then g.Set(o, Obstacle) else g, obstacles[i + 1..])
  {
    assert obstacles[i..][0] == obstacles[i] && obstacles[i..][1..] == obstacles[i + 1..];
  }

  /** The first half of loading with data: a free table with the start and
      end points placed, each only when in bounds. */
  function PlacePoints(cols: nat, rows: nat, d: MapData): Layout {
    var g0 := Blank(cols, rows);
    var g1 := if g0.InBounds(d.start) then g0.Set(d.start, Start) else g0;
    var start := if g0.InBounds(d.start) then Some(d.start) else None;
    var g2 := if g0.InBounds(d.end) then g1.Set(d.end, End) else g1;
    var end := if g0.InBounds(d.end) then Some(d.end) else None;
    Layout(g2, start, end)
  }

  /** Loading: without data the grid is cleared (from no points); with data
      the table starts all free, the start and end points are placed when in
      bounds, and then the in-bounds obstacles are applied over them. */
  function LoadSpec(cols: nat, rows: nat, data: Option<MapData>): Layout
    requires rows > 0
  {
    match data
    case None => ClearSpec(cols, rows, None, None)
    case Some(d) =>
      var placed := PlacePoints(cols, rows, d);
      Layout(ApplyObstacles(placed.grid, d.obstacles), placed.start, placed.end)
  }

  /** The obstacle cells of column `x` on rows `0 .. y - 1`, in row order. */
  function ColumnObstacles(g: Occupancy, x: int, y: nat): seq<Pos>
    requires g.Valid() && 0 <= x < g.cols && y <= g.rows
    decreases y
  {
    if y == 0 then []
    else ColumnObstacles(g, x, y - 1) + (if g.At(Pos(x, y - 1)) == Obstacle then [Pos(x, y - 1)] else [])
  }

  /** The obstacle cells of columns `0 .. x - 1`, column by column. */
  function ObstaclesBefore(g: Occupancy, x: nat): seq<Pos>
    requires g.Valid() && x <= g.cols
    decreases x
  {
    if x == 0 then []
    else ObstaclesBefore(g, x - 1) + ColumnObstacles(g, x - 1, g.rows)
  }

  /** A column's list holds exactly the obstacle cells of its scanned rows. */
  lemma {:induction false} ColumnObstaclesMembers(g: Occupancy, x: int, y: nat)
    requires g.Valid() && 0 <= x < g.cols && y <= g.rows
    ensures forall p :: p in ColumnObstacles(g, x, y) <==> p.x == x && 0 <= p.y < y && g.At(p) == Obstacle
    decreases y
  {
    if y > 0 {
      ColumnObstaclesMembers(g, x, y - 1);
    }
  }

  /** The list of the first `x` columns holds exactly their obstacle cells. */
  lemma {:induction false} ObstaclesBeforeMembers(g: Occupancy, x: nat)
    requires g.Valid() && x <= g.cols
    ensures forall p :: p in ObstaclesBefore(g, x) <==> 0 <= p.x < x && 0 <= p.y < g.rows && g.At(p) == Obstacle
    decreases x
  {
    if x > 0 {
      ObstaclesBeforeMembers(g, x - 1);
      ColumnObstaclesMembers(g, x - 1, g.rows);
    }
  }

  /** The exported obstacle list. */
  function ObstacleList(g: Occupancy): seq<Pos>
    requires g.Valid()
  {
    ObstaclesBefore(g, g.cols)
  }

  /** Column-major order: by column, then by row. */
  predicate Before(a: Pos, b: Pos) {
    a.x < b.x || (a.x == b.x && a.y < b.y)
  }

  predicate Ordered(s: seq<Pos>) {
    forall i, j :: 0 <= i < j < |s| ==> Before(s[i], s[j])
  }

  lemma {:induction false} ColumnObstaclesOrdered(g: Occupancy, x: int, y: nat)
    requires g.Valid() && 0 <= x < g.cols && y <= g.rows
    ensures Ordered(ColumnObstacles(g, x, y))
    decreases y
  {
    if y > 0 {
      ColumnObstaclesOrdered(g, x, y - 1);
      ColumnObstaclesMembers(g, x, y - 1);
      var prefix := ColumnObstacles(g, x, y - 1);
      var r := ColumnObstacles(g, x, y);
      forall i, j | 0 <= i < j < |r|
        ensures Before(r[i], r[j])
      {
        assert r[i] == prefix[i];
        if j < |prefix| {
          assert r[j] == prefix[j];
        } else {
          assert r[j] == Pos(x, y - 1);
          assert prefix[i] in prefix;
        }
      }
    }
  }

  /** The exported obstacle list is strictly ordered by column, then row (so
      it also has no repeated cell). */
  lemma {:induction false} ObstacleListOrdered(g: Occupancy, x: nat)
    requires g.Valid() && x <= g.cols
    ensures Ordered(ObstaclesBefore(g, x))
    decreases x
  {
    if x > 0 {
      ObstacleListOrdered(g, x - 1);
      ColumnObstaclesOrdered(g, x - 1, g.rows);
      ObstaclesBeforeMembers(g, x - 1);
      ColumnObstaclesMembers(g, x - 1, g.rows);
      var prefix := ObstaclesBefore(g, x - 1);
      var column := ColumnObstacles(g, x - 1, g.rows);
      var r := prefix + column;
      forall i, j | 0 <= i < j < |r|
        ensures Before(r[i], r[j])
      {
        if j < |prefix| {
          assert r[i] == prefix[i] && r[j] == prefix[j];
        } else if i >= |prefix| {
          assert r[i] == column[i - |prefix|] && r[j] == column[j - |prefix|];
        } else {
          assert r[i] == prefix[i] && prefix[i] in prefix;
          assert r[j] == column[j - |prefix|] && column[j - |prefix|] in column;
        }
      }
    }
  }

  /** The export: both points and the obstacle list. */
  function ExportSpec(l: Layout): MapData
    requires l.grid.Valid() && l.start.Some? && l.end.Some?
  {
    MapData(l.start.value, l.end.value, ObstacleList(l.grid))
  }

  /** Toggling: START and END cells stay, a free cell becomes an obstacle and
      any other cell becomes free. */
  function Toggled(c: Cell): Cell {
    if c == Start || c == End then c
    else if c == Free then Obstacle
    else Free
  }

  function ToggleAt(g: Occupancy, p: Pos): Occupancy
    requires g.Valid() && g.InBounds(p)
  {
    g.Set(p, Toggled(g.At(p)))
  }

  /** Toggling the same cell twice restores the grid; a toggle changes no
      other cell, and swaps free and obstacle at its own. */
  lemma ToggleTwiceRestores(g: Occupancy, p: Pos)
    requires g.Valid() && g.InBounds(p)
    ensures ToggleAt(ToggleAt(g, p), p) == g
    ensures forall q :: g.InBounds(q) && q != p ==> ToggleAt(g, p).At(q) == g.At(q)
    ensures g.At(p) == Free <==> ToggleAt(g, p).At(p) == Obstacle
    ensures g.At(p) == Obstacle <==> ToggleAt(g, p).At(p) == Free
  {
    SameCells(ToggleAt(ToggleAt(g, p), p), g);
  }

  /** Whether a move reaches the update of a point that must then exist. */
  predicate MoveBlocked(l: Layout, p: Pos)
    requires l.grid.Valid() && l.grid.InBounds(p)
  {
    l.grid.At(p) == Obstacle || Some(p) == l.end || Some(p) == l.start
  }

  ghost predicate MoveDefined(l: Layout, kind: string, p: Pos)
    requires l.grid.Valid() && l.grid.InBounds(p)
  {
    MoveBlocked(l, p) || ((kind == "start" ==> l.start.Some?) && (kind == "end" ==> l.end.Some?))
  }

  /** Moving a point: nothing happens on an obstacle or on either point;
      otherwise the old cell of the moved point becomes free, the point moves
      and its new cell is marked. Any other kind of point changes nothing. */
  function MoveSpec(l: Layout, kind: string, p: Pos): Layout
    requires LayoutOk(l) && l.grid.InBounds(p) && MoveDefined(l, kind, p)
  {
    if MoveBlocked(l, p) then l
    else if kind == "start" then Layout(l.grid.Set(l.start.value, Free).Set(p, Start), Some(p), l.end)
    else if kind == "end" then Layout(l.grid.Set(l.end.value, Free).Set(p, End), l.start, Some(p))
    else l
  }

  /** Moving a point keeps the editor's picture. */
  lemma MoveKeepsCanonical(l: Layout, kind: string, p: Pos)
    requires Canonical(l) && l.grid.InBounds(p)
    ensures MoveDefined(l, kind, p)
    ensures Canonical(MoveSpec(l, kind, p))
    ensures MoveBlocked(l, p) ==> MoveSpec(l, kind, p) == l
    ensures !MoveBlocked(l, p) && kind == "start" ==> MoveSpec(l, kind, p).start == Some(p)
    ensures !MoveBlocked(l, p) && kind == "end" ==> MoveSpec(l, kind, p).end == Some(p)
  {
  }

  /** Toggling keeps the editor's picture. */
  lemma ToggleKeepsCanonical(l: Layout, p: Pos)
    requires Canonical(l) && l.grid.InBounds(p)
    ensures Canonical(Layout(ToggleAt(l.grid, p), l.start, l.end))
  {
  }

  /** On a grid of two columns, or of four or more, clearing gives the
      editor's picture: START at (1, rows / 2), END at (cols - 2, rows / 2),
      every other cell free. */
  lemma ClearIsCanonical(cols: nat, rows: nat, oldStart: Option<Pos>, oldEnd: Option<Pos>)
    requires cols >= 2 && cols != 3 && rows > 0
    ensures var l := ClearSpec(cols, rows, oldStart, oldEnd);
      && Canonical(l)
      && l.start == Some(Pos(1, rows / 2)) && l.end == Some(Pos(cols - 2, rows / 2))
      && forall q :: l.grid.InBounds(q) && Some(q) != l.start && Some(q) != l.end ==> l.grid.At(q) == Free
  {
  }

  /** On a three-column grid the two default points coincide: the end point
      overwrites the start point's cell. */
  lemma ClearThreeColumns(rows: nat, oldStart: Option<Pos>, oldEnd: Option<Pos>)
    requires rows > 0
    ensures var l := ClearSpec(3, rows, oldStart, oldEnd);
      && l.start == l.end == Some(Pos(1, rows / 2))
      && l.grid.At(Pos(1, rows / 2)) == End
      && !Canonical(l)
  {
  }

  /** What loading puts in each cell: listed in-bounds obstacles win, then
      the end point, then the start point; everything else is free. A point
      is set exactly when it is in bounds. */
  lemma LoadSpecCells(cols: nat, rows: nat, d: MapData)
    requires rows > 0
    ensures var l := LoadSpec(cols, rows, Some(d));
      && LayoutOk(l)
      && l.grid.cols == cols && l.grid.rows == rows
      && (l.start.Some? <==> l.grid.InBounds(d.start)) && (l.start.Some? ==> l.start.value == d.start)
      && (l.end.Some? <==> l.grid.InBounds(d.end)) && (l.end.Some? ==> l.end.value == d.end)
      && forall q :: l.grid.InBounds(q) ==>
           l.grid.At(q) == (if q in d.obstacles then Obstacle
                            else if q == d.end then End
                            else if q == d.start then Start
                            else Free)
  {
  }

  /** Loading what was exported restores the grid, for any grid in the
      editor's picture. */
  lemma LoadAfterExport(l: Layout)
    requires Canonical(l) && l.grid.rows > 0
    ensures LoadSpec(l.grid.cols, l.grid.rows, Some(ExportSpec(l))) == l
  {
    var d := ExportSpec(l);
    var r := LoadSpec(l.grid.cols, l.grid.rows, Some(d));
    LoadSpecCells(l.grid.cols, l.grid.rows, d);
    ObstaclesBeforeMembers(l.grid, l.grid.cols);
    forall q | r.grid.InBounds(q)
      ensures r.grid.At(q) == l.grid.At(q)
    {
      assert q in d.obstacles <==> l.grid.At(q) == Obstacle;
    }
    SameCells(r.grid, l.grid);
  }

  class Grid {
    const cols: int
    const rows: int
    var states: seq<seq<Cell>>
    var startPos: Option<Pos>
    var endPos: Option<Pos>

    /** The occupancy a pathfinder reads. */
    function View(): Occupancy
      reads this
    {
      Occupancy(cols, rows, states)
    }

    function Current(): Layout
      reads this
    {
      Layout(View(), startPos, endPos)
    }

    ghost predicate Valid()
      reads this
    {
      cols > 0 && rows > 0 && LayoutOk(Current())
    }

    /** Missing (zero) dimensions fall back to the window size in cells; the
        grid then starts cleared. */
    constructor(cols: nat, rows: nat)
      ensures Valid()
      ensures this.cols == (if cols != 0 && rows != 0 then cols else SCREEN_WIDTH / CELL_SIZE)
      ensures this.rows == (if cols != 0 && rows != 0 then rows else SCREEN_HEIGHT / CELL_SIZE)
      ensures Current() == ClearSpec(this.cols, this.rows, None, None)
    {
      if cols != 0 && rows != 0 {
        this.cols := cols;
        this.rows := rows;
      } else {
        this.cols := SCREEN_WIDTH / CELL_SIZE;
        this.rows := SCREEN_HEIGHT / CELL_SIZE;
      }
      states := [];
      startPos := None;
      endPos := None;
      new;
      Clear();
    }

    /** Loads an already decoded map record, or clears the grid when there is
        none. */
    method LoadMap(data: Option<MapData>)
      requires Valid()
      modifies this
      ensures Valid()
      ensures Current() == LoadSpec(cols, rows, data)
    {
      states := Blank(cols, rows).states;
      startPos := None;
      endPos := None;
      if data.None? {
        Clear();
        return;
      }
      var d := data.value;
      ghost var placed := PlacePoints(cols, rows, d);
      ghost var g0 := Blank(cols, rows);
      assert View() == g0;
      if 0 <= d.start.x < cols && 0 <= d.start.y < rows {
        startPos := Some(d.start);
        states := View().Set(d.start, Start).states;
      }
      ghost var g1 := View();
      assert g1 == if g0.InBounds(d.start) then g0.Set(d.start, Start) else g0;
      if 0 <= d.end.x < cols && 0 <= d.end.y < rows {
        endPos := Some(d.end);
        states := View().Set(d.end, End).states;
      }
      assert View() == if g0.InBounds(d.end) then g1.Set(d.end, End) else g1;
      assert Current() == placed;
      MarkObstacles(d.obstacles);
    }

    /** The obstacle loop of loading: each in-bounds entry marks its cell. */
    method MarkObstacles(obstacles: seq<Pos>)
      requires View().Valid()
      modifies this`states
      ensures View() == ApplyObstacles(old(View()), obstacles)
    {
      ghost var start := View();
      var i := 0;
      while i < |obstacles|
        invariant 0 <= i <= |obstacles|
        invariant View().Valid()
        invariant ApplyObstacles(start, obstacles) == ApplyObstacles(View(), obstacles[i..])
      {
        var o := obstacles[i];
        ApplyObstaclesStep(View(), obstacles, i);
        if 0 <= o.x < cols && 0 <= o.y < rows {
          states := View().Set(o, Obstacle).states;
        }
        i := i + 1;
      }
      assert obstacles[i..] == [];
    }

    /** The cell under a pixel, when it is inside the grid. */
    function CellFromPosition(px: int, py: int, cellSize: int): (r: Option<Pos>)
      requires cellSize > 0
      ensures r.Some? <==> 0 <= px < cols * cellSize && 0 <= py < rows * cellSize
      ensures r.Some? ==> 0 <= r.value.x < cols && 0 <= r.value.y < rows
      ensures r.Some? ==> (r.value.x * cellSize <= px < (r.value.x + 1) * cellSize &&
                           r.value.y * cellSize <= py < (r.value.y + 1) * cellSize)
    {
      var x := px / cellSize;
      var y := py / cellSize;
      DivisionBounds(px, cellSize, cols);
      DivisionBounds(py, cellSize, rows);
      if 0 <= x < cols && 0 <= y < rows then Some(Pos(x, y)) else None
    }

    /** Swaps a cell between free and obstacle, leaving START and END cells. */
    method ToggleObstacle(p: Pos)
      requires Valid() && View().InBounds(p)
      modifies this
      ensures Valid()
      ensures View() == ToggleAt(old(View()), p)
      ensures startPos == old(startPos) && endPos == old(endPos)
    {
      var x, y := p.x, p.y;
      if states[x][y] == Start || states[x][y] == End {
        SameCells(ToggleAt(View(), p), View());
        return;
      }
      if states[x][y] == Free {
        states := states[x := states[x][y := Obstacle]];
      } else {
        states := states[x := states[x][y := Free]];
      }
    }

    /** Moves the start (`kind == "start"`) or end (`kind == "end"`) point
        to cell `p`. */
    method MovePoint(kind: string, p: Pos)
      requires Valid() && View().InBounds(p) && MoveDefined(Current(), kind, p)
      modifies this
      ensures Valid()
      ensures Current() == MoveSpec(old(Current()), kind, p)
    {
      var x, y := p.x, p.y;
      if states[x][y] == Obstacle || Some(p) == endPos || Some(p) == startPos {
        return;
      }
      if kind == "start" {
        var old_ := startPos.value;
        states := states[old_.x := states[old_.x][old_.y := Free]];
        startPos := Some(p);
        states := states[x := states[x][y := Start]];
      } else if kind == "end" {
        var old_ := endPos.value;
        states := states[old_.x := states[old_.x][old_.y := Free]];
        endPos := Some(p);
        states := states[x := states[x][y := End]];
      }
    }

    /** Frees every cell and places the default start and end points. */
    method Clear()
      requires cols > 0 && rows > 0
      requires startPos.Some? ==> View().InBounds(startPos.value)
      requires endPos.Some? ==> View().InBounds(endPos.value)
      modifies this`states, this`startPos, this`endPos
      ensures Valid()
      ensures Current() == ClearSpec(cols, rows, old(startPos), old(endPos))
    {
      states := Blank(cols, rows).states;
      var startX := 1;
      var endX := cols - 2;
      var y := rows / 2;
      if 0 <= startX < cols {
        startPos := Some(Pos(startX, y));
        states := states[startX := states[startX][y := Start]];
      }
      if 0 <= endX < cols {
        endPos := Some(Pos(endX, y));
        states := states[endX := states[endX][y := End]];
      }
    }

    /** The map record of the current grid: both points and the obstacle
        cells listed column by column. */
    method GetMapData() returns (data: MapData)
      requires Valid() && startPos.Some? && endPos.Some?
      ensures data == ExportSpec(Current())
    {
      ghost var g := View();
      var obstacles: seq<Pos> := [];
      var x := 0;
      while x < cols
        invariant 0 <= x <= cols
        invariant obstacles == ObstaclesBefore(g, x)
      {
        var y := 0;
        while y < rows
          invariant 0 <= y <= rows
          invariant obstacles == ObstaclesBefore(g, x) + ColumnObstacles(g, x, y)
        {
          if states[x][y] == Obstacle {
            obstacles := obstacles + [Pos(x, y)];
          }
          assert ColumnObstacles(g, x, y + 1) == ColumnObstacles(g, x, y) + (if g.At(Pos(x, y)) == Obstacle then [Pos(x, y)] else []);
          y := y + 1;
        }
        assert ObstaclesBefore(g, x + 1) == ObstaclesBefore(g, x) + ColumnObstacles(g, x, rows);
        x := x + 1;
      }
      data := MapData(startPos.value, endPos.value, obstacles);
    }
  }

  /** Multiplying by a positive number keeps order. */
  lemma MulMonotone(a: int, b: int, d: int)
    requires d > 0
    ensures a <= b ==> a * d <= b * d
  {
    if a <= b {
      assert b * d - a * d == (b - a) * d;
    }
  }

  /** For a positive divisor, `n / d` lies in `[0, bound)` exactly when `n`
      lies in `[0, bound * d)`, and `n` lies in the `n / d`-th block of `d`. */
  lemma DivisionBounds(n: int, d: int, bound: int)
    requires d > 0
    ensures (0 <= n / d < bound) <==> (0 <= n < bound * d)
    ensures (n / d) * d <= n < (n / d + 1) * d
  {
    var q := n / d;
    assert n == q * d + n % d && 0 <= n % d < d;
    assert (q + 1) * d == q * d + d;
    assert -1 * d == -d;
    MulMonotone(q, -1, d);
    MulMonotone(bound, q, d);
    MulMonotone(q + 1, bound, d);
    MulMonotone(0, q, d);
  }
}
