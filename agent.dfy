/** The player-controlled agent: its position, its trail and its step
    count. */
module Agents {
  import opened Geometry
  import opened Grids

  /** Where a move by `(dx, dy)` from `p` leads, when it stays on the grid and
      off obstacles. */
  function MoveTarget(g: Occupancy, p: Pos, dx: int, dy: int): (r: Option<Pos>)
    requires g.Valid()
    ensures r.Some? <==> g.InBounds(Pos(p.x + dx, p.y + dy)) && g.At(Pos(p.x + dx, p.y + dy)) != Obstacle
    ensures r.Some? ==> r.value.x - p.x == dx && r.value.y - p.y == dy
  {
    var target := Pos(p.x + dx, p.y + dy);
    if g.InBounds(target) && g.At(target) != Obstacle then Some(target) else None
  }

  class Agent {
    var position: Pos
    var path: seq<Pos>
    var steps: nat
    var finished: bool

    /** The trail has one entry per step plus the start, and ends where the
        agent stands. */
    ghost predicate Valid()
      reads this
    {
      |path| == steps + 1 && path[|path| - 1] == position
    }

    constructor(start: Pos)
      ensures Valid()
      ensures position == start && path == [start] && steps == 0 && !finished
    {
      position := start;
      path := [start];
      steps := 0;
      finished := false;
    }

    /** Moves by `(dx, dy)` unless the agent is finished or the target cell is
        off the grid or an obstacle. */
    method Move(dx: int, dy: int, grid: Grid)
      requires grid.Valid()
      modifies this
      ensures old(Valid()) ==> Valid()
      ensures finished == old(finished)
      ensures var target := MoveTarget(grid.View(), old(position), dx, dy);
        if old(finished) || target.None? then
          position == old(position) && path == old(path) && steps == old(steps)
        else
          position == target.value && steps == old(steps) + 1 && path == old(path) + [target.value]
    {
      if finished {
        return;
      }
      var newX := position.x + dx;
      var newY := position.y + dy;
      if 0 <= newX < grid.cols && 0 <= newY < grid.rows {
        if grid.states[newX][newY] != Obstacle {
          position := Pos(newX, newY);
          steps := steps + 1;
          path := path + [position];
        }
      }
    }
  }
}
