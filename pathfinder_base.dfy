/** The neighbour generator shared by the four pathfinders. */
module PathfinderBase {
  import opened Geometry

  /** A move `(dx, dy)`. */
  type Offset = (int, int)

  /** `math.sqrt(2)` as an exact real; IEEE rounding is not modelled. */
  const SQRT2: real := 1.4142135623730951

  /** Up, down, left, right. */
  const BasicMoves: seq<Offset> := [(0, -1), (0, 1), (-1, 0), (1, 0)]

  const DiagonalMoves: seq<Offset> := [(-1, -1), (-1, 1), (1, -1), (1, 1)]

  /** The offsets tried, in the order they are tried. */
  function Moves(allowDiagonal: bool): seq<Offset> {
    if allowDiagonal then BasicMoves + DiagonalMoves else BasicMoves
  }

  function Abs(n: int): nat {
    if n < 0 then -n else n
  }

  /** A move whose two components add up to 2 in absolute value is diagonal. */
  function MoveCost(d: Offset): real {
    if Abs(d.0) + Abs(d.1) == 2 then SQRT2 else 1.0
  }

  function Shift(p: Pos, d: Offset): Pos {
    Pos(p.x + d.0, p.y + d.1)
  }

  /** The cost of moving from `a` to an adjacent `b`. */
  function StepCost(a: Pos, b: Pos): real {
    MoveCost((b.x - a.x, b.y - a.y))
  }

  /** One entry `(new_position, cost)` of the generator's result. */
  datatype Neighbor = Neighbor(pos: Pos, cost: real)

  /** Offset `d` from `p` stays on the grid and does not hit an obstacle. */
  predicate Accepts(occ: Occupancy, p: Pos, d: Offset)
    requires occ.Valid()
  {
    var q := Shift(p, d);
    occ.InBounds(q) && occ.At(q) != Obstacle
  }

  /** The accepted offsets of `moves`, in order, with their costs. */
  function Scan(occ: Occupancy, p: Pos, moves: seq<Offset>): seq<Neighbor>
    requires occ.Valid()
    decreases |moves|
  {
    if moves == [] then []
    else
      var d := moves[|moves| - 1];
      Scan(occ, p, moves[..|moves| - 1])
        + (if Accepts(occ, p, d) then [Neighbor(Shift(p, d), MoveCost(d))] else [])
  }

  /** The neighbours of `p` with their move costs. */
  function Neighbors(occ: Occupancy, p: Pos, allowDiagonal: bool): seq<Neighbor>
    requires occ.Valid()
  {
    Scan(occ, p, Moves(allowDiagonal))
  }

  /** `q` is one of the positions the generator returns for `p`. */
  ghost predicate IsNeighbor(occ: Occupancy, allowDiagonal: bool, p: Pos, q: Pos)
    requires occ.Valid()
  {
    exists k :: 0 <= k < |Neighbors(occ, p, allowDiagonal)| && Neighbors(occ, p, allowDiagonal)[k].pos == q
  }

  /** The loop of the generator: tries each offset in order, skips those that
      leave the grid or hit an obstacle, and appends the rest with their cost. */
  method GetNeighborsAndCosts(occ: Occupancy, p: Pos, allowDiagonal: bool) returns (neighbors: seq<Neighbor>)
    requires occ.Valid()
    ensures neighbors == Neighbors(occ, p, allowDiagonal)
  {
    neighbors := [];
    var moves := BasicMoves;
    if allowDiagonal {
      moves := moves + DiagonalMoves;
    }
    var i := 0;
    while i < |moves|
      invariant moves == Moves(allowDiagonal)
      invariant 0 <= i <= |moves|
      invariant neighbors == Scan(occ, p, moves[..i])
    {
      var (dx, dy) := moves[i];
      assert moves[..i + 1][..i] == moves[..i];
      var nx, ny := p.x + dx, p.y + dy;
      i := i + 1;
      if !(0 <= nx < occ.cols && 0 <= ny < occ.rows) {
        continue;
      }
      if occ.states[nx][ny] == Obstacle {
        continue;
      }
      var cost: real;
      if Abs(dx) + Abs(dy) == 2 {
        cost := SQRT2;
      } else {
        cost := 1.0;
      }
      neighbors := neighbors + [Neighbor(Pos(nx, ny), cost)];
    }
    assert moves[..i] == moves;
  }

  /** The indices into `moves` of the offsets that `Scan` accepts. */
  ghost function Origins(occ: Occupancy, p: Pos, moves: seq<Offset>): seq<nat>
    requires occ.Valid()
    decreases |moves|
  {
    if moves == [] then []
    else
      var d := moves[|moves| - 1];
      Origins(occ, p, moves[..|moves| - 1]) + (if Accepts(occ, p, d) then [|moves| - 1] else [])
  }

  /** `Scan` returns exactly the accepted offsets, each once, in the order
      they are tried. */
  lemma {:induction false} ScanIsOrderedFilter(occ: Occupancy, p: Pos, moves: seq<Offset>)
    requires occ.Valid()
    ensures var r, o := Scan(occ, p, moves), Origins(occ, p, moves);
      && |o| == |r|
      && (forall k :: 0 <= k < |r| ==>
            && o[k] < |moves| && Accepts(occ, p, moves[o[k]])
            && r[k] == Neighbor(Shift(p, moves[o[k]]), MoveCost(moves[o[k]])))
      && (forall k, l :: 0 <= k < l < |r| ==> o[k] < o[l])
      && (forall i :: 0 <= i < |moves| && Accepts(occ, p, moves[i]) ==> i in o)
    decreases |moves|
  {
    if moves != [] {
      var m := moves[..|moves| - 1];
      ScanIsOrderedFilter(occ, p, m);
      var o := Origins(occ, p, m);
      assert forall k :: 0 <= k < |o| ==> moves[o[k]] == m[o[k]];
    }
  }

  /** The result follows the offset order (0,-1), (0,1), (-1,0), (1,0) and then
      (-1,-1), (-1,1), (1,-1), (1,1), skipping the rejected offsets. */
  lemma NeighborsFollowOffsetOrder(occ: Occupancy, p: Pos, allowDiagonal: bool)
    requires occ.Valid()
    ensures var r, m, o := Neighbors(occ, p, allowDiagonal), Moves(allowDiagonal), Origins(occ, p, Moves(allowDiagonal));
      && |o| == |r|
      && (forall k :: 0 <= k < |r| ==> o[k] < |m| && r[k].pos == Shift(p, m[o[k]]))
      && (forall k, l :: 0 <= k < l < |r| ==> o[k] < o[l])
      && (forall i :: 0 <= i < |m| && Accepts(occ, p, m[i]) ==> i in o)
  {
    ScanIsOrderedFilter(occ, p, Moves(allowDiagonal));
  }

  lemma {:induction false} ScanLength(occ: Occupancy, p: Pos, moves: seq<Offset>)
    requires occ.Valid()
    ensures |Scan(occ, p, moves)| <= |moves|
    decreases |moves|
  {
    if moves != [] {
      ScanLength(occ, p, moves[..|moves| - 1]);
    }
  }

  /** At most 4 neighbours without diagonals, at most 8 with them. */
  lemma NeighborsCount(occ: Occupancy, p: Pos, allowDiagonal: bool)
    requires occ.Valid()
    ensures |Neighbors(occ, p, allowDiagonal)| <= if allowDiagonal then 8 else 4
  {
    ScanLength(occ, p, Moves(allowDiagonal));
  }

  /** Every neighbour is on the grid, free of obstacles, adjacent to `p`
      (8-adjacent, or 4-adjacent without diagonals), and costs √2 exactly when
      the move is diagonal and 1 otherwise. */
  lemma NeighborsSound(occ: Occupancy, p: Pos, allowDiagonal: bool)
    requires occ.Valid()
    ensures forall nb :: nb in Neighbors(occ, p, allowDiagonal) ==>
      && occ.InBounds(nb.pos) && occ.At(nb.pos) != Obstacle
      && nb.pos != p && Abs(nb.pos.x - p.x) <= 1 && Abs(nb.pos.y - p.y) <= 1
      && (!allowDiagonal ==> nb.pos.x == p.x || nb.pos.y == p.y)
      && nb.cost == StepCost(p, nb.pos)
      && (nb.cost == SQRT2 <==> nb.pos.x != p.x && nb.pos.y != p.y)
      && (nb.cost != SQRT2 ==> nb.cost == 1.0)
  {
    var m := Moves(allowDiagonal);
    ScanIsOrderedFilter(occ, p, m);
    var r, o := Neighbors(occ, p, allowDiagonal), Origins(occ, p, m);
    forall nb | nb in r
      ensures && occ.InBounds(nb.pos) && occ.At(nb.pos) != Obstacle
              && nb.pos != p && Abs(nb.pos.x - p.x) <= 1 && Abs(nb.pos.y - p.y) <= 1
              && (!allowDiagonal ==> nb.pos.x == p.x || nb.pos.y == p.y)
              && nb.cost == StepCost(p, nb.pos)
              && (nb.cost == SQRT2 <==> nb.pos.x != p.x && nb.pos.y != p.y)
              && (nb.cost != SQRT2 ==> nb.cost == 1.0)
    {
      var k :| 0 <= k < |r| && r[k] == nb;
      var d := m[o[k]];
      assert d in m;
      MoveShape(p, d, allowDiagonal);
    }
  }

  /** Each tried offset leads to a different, adjacent cell, straight unless
      diagonals are allowed, at cost √2 exactly when diagonal. */
  lemma MoveShape(p: Pos, d: Offset, allowDiagonal: bool)
    requires d in Moves(allowDiagonal)
    ensures var q := Shift(p, d);
      && q != p && Abs(q.x - p.x) <= 1 && Abs(q.y - p.y) <= 1
      && (!allowDiagonal ==> q.x == p.x || q.y == p.y)
      && MoveCost(d) == StepCost(p, q)
      && (MoveCost(d) == SQRT2 <==> q.x != p.x && q.y != p.y)
      && (MoveCost(d) != SQRT2 ==> MoveCost(d) == 1.0)
  {
    var q := Shift(p, d);
    assert (q.x - p.x, q.y - p.y) == d;
  }

  /** Every free in-bounds cell adjacent to `p` along an allowed offset is
      returned. */
  lemma NeighborsComplete(occ: Occupancy, p: Pos, allowDiagonal: bool, q: Pos)
    requires occ.Valid()
    requires occ.InBounds(q) && occ.At(q) != Obstacle
    requires q != p && Abs(q.x - p.x) <= 1 && Abs(q.y - p.y) <= 1
    requires allowDiagonal || q.x == p.x || q.y == p.y
    ensures IsNeighbor(occ, allowDiagonal, p, q)
  {
    var m := Moves(allowDiagonal);
    var d: Offset := (q.x - p.x, q.y - p.y);
    assert Shift(p, d) == q;
    var i := OffsetIndex(d, allowDiagonal);
    ScanIsOrderedFilter(occ, p, m);
    var o := Origins(occ, p, m);
    assert i in o;
    var k :| 0 <= k < |o| && o[k] == i;
    assert Neighbors(occ, p, allowDiagonal)[k].pos == q;
  }

  /** Every non-zero offset of components in -1..1, straight unless
      diagonals are allowed, is tried. */
  lemma OffsetIndex(d: Offset, allowDiagonal: bool) returns (i: nat)
    requires d != (0, 0) && Abs(d.0) <= 1 && Abs(d.1) <= 1
    requires allowDiagonal || d.0 == 0 || d.1 == 0
    ensures i < |Moves(allowDiagonal)| && Moves(allowDiagonal)[i] == d
  {
    if d == (0, -1) { i := 0; }
    else if d == (0, 1) { i := 1; }
    else if d == (-1, 0) { i := 2; }
    else if d == (1, 0) { i := 3; }
    else if d == (-1, -1) { i := 4; }
    else if d == (-1, 1) { i := 5; }
    else if d == (1, -1) { i := 6; }
    else { i := 7; }
  }
}
