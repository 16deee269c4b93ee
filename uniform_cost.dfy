/** The uniform-cost pathfinder: selection on g; a neighbour already open is
    relaxed in place when it is reached more cheaply. */
module UniformCost {
  import opened Geometry
  import opened PathfinderBase
  import opened SearchNodes
  import opened SearchSpec

  class UniformCostPathfinder {
    const occ: Occupancy
    const allowDiagonal: bool
    var openList: seq<Node>
    var closedList: seq<Node>
    var startPos: Option<Pos>
    var goalPos: Option<Pos>
    var path: Option<seq<Pos>>
    var finished: bool

    /** The state a snapshot copies. */
    function Snap(): Snapshot
      reads this
    {
      Snapshot(openList, closedList, path, finished)
    }

    /** Before the first initialisation nothing is open; afterwards the state
        satisfies the search invariant for the recorded start and goal. */
    ghost predicate Valid()
      reads this
    {
      && occ.Valid()
      && (startPos.None? <==> goalPos.None?)
      && (goalPos.None? ==> openList == [] && closedList == [] && path.None? && !finished)
      && (goalPos.Some? ==> WellFormed(UniformCostPolicy, occ, allowDiagonal, startPos.value, goalPos.value, Snap()))
    }

    constructor(occ: Occupancy, allowDiagonal: bool)
      requires occ.Valid()
      ensures Valid()
      ensures this.occ == occ && this.allowDiagonal == allowDiagonal
      ensures openList == [] && closedList == [] && path.None? && !finished
      ensures startPos.None? && goalPos.None?
    {
      this.occ := occ;
      this.allowDiagonal := allowDiagonal;
      openList := [];
      closedList := [];
      startPos := None;
      goalPos := None;
      path := None;
      finished := false;
    }

    /** Open holds only the start node, with zero scores. */
    method InitializeSearch(start: Pos, goal: Pos)
      requires occ.Valid()
      modifies this
      ensures Valid()
      ensures startPos == Some(start) && goalPos == Some(goal)
      ensures Snap() == InitialSnapshot(UniformCostPolicy, start, goal)
      ensures openList == [Node(start, None, 0.0, 0.0, 0.0)] && closedList == []
      ensures path.None? && !finished
    {
      startPos := Some(start);
      goalPos := Some(goal);
      openList := [Node(start, None, 0.0, 0.0, 0.0)];
      closedList := [];
      path := None;
      finished := false;
      InitialWellFormed(UniformCostPolicy, occ, allowDiagonal, start, goal);
    }

    /** One expansion; `false` and no change when nothing is open or the
        search is finished. */
    method Step() returns (progressed: bool)
      requires Valid()
      modifies this
      ensures Valid()
      ensures startPos == old(startPos) && goalPos == old(goalPos)
      ensures progressed <==> old(openList) != [] && !old(finished)
      ensures !progressed ==> Snap() == old(Snap())
      ensures goalPos.Some? ==> Snap() == StepSpec(UniformCostPolicy, occ, allowDiagonal, goalPos.value, old(Snap()))
    {
      if openList == [] || finished {
        return false;
      }
      ghost var before := Snap();
      CloseKeepsLinked(UniformCostPolicy, occ, allowDiagonal, startPos.value, goalPos.value, before);
      var current := CloseFirstMinimum();
      ghost var closing := Snap();
      if current.pos == goalPos.value {
        var walked := ReconstructPath(closedList, |closedList| - 1);
        path := Some(walked);
        finished := true;
      } else {
        ProcessNeighbors();
      }
      assert Snap() == ExpandOrFinish(UniformCostPolicy, occ, allowDiagonal, goalPos.value, closing);
      progressed := true;
      StepKeepsWellFormed(UniformCostPolicy, occ, allowDiagonal, startPos.value, goalPos.value, before);
    }

    /** The selection scan, then the move of the selected entry from the open
        list to the end of the closed list. */
    method CloseFirstMinimum() returns (current: Node)
      requires openList != []
      modifies this`openList, this`closedList
      ensures Snap() == CloseSelected(UniformCostPolicy, old(Snap()))
      ensures current == closedList[|closedList| - 1]
    {
      var k := SelectFirstMin(UniformCostPolicy, openList);
      current := openList[k];
      openList := openList[..k] + openList[k + 1..];
      closedList := closedList + [current];
    }

    /** Scores each neighbour of the node just closed with g = f = the
        parent's g plus the move cost. A neighbour whose position is closed is
        skipped; the first open entry at its position takes the new g, f and
        parent when they are strictly cheaper; otherwise it is appended. */
    method ProcessNeighbors()
      requires occ.Valid() && |closedList| > 0 && goalPos.Some?
      modifies this`openList
      ensures openList == ExpandLast(UniformCostPolicy, occ, allowDiagonal, goalPos.value, closedList, old(openList))
    {
      var current := closedList[|closedList| - 1];
      var goal := goalPos.value;
      var nbrs := GetNeighborsAndCosts(occ, current.pos, allowDiagonal);
      var i := 0;
      while i < |nbrs|
        invariant 0 <= i <= |nbrs|
        invariant Expand(UniformCostPolicy, goal, closedList, old(openList), nbrs)
               == Expand(UniformCostPolicy, goal, closedList, openList, nbrs[i..])
      {
        var nb := nbrs[i];
        ExpandStep(UniformCostPolicy, goal, closedList, openList, nbrs, i);
        if !HasPos(closedList, nb.pos) {
          var g := current.g + nb.cost;
          var neighbor := Node(nb.pos, Some(|closedList| - 1), g, 0.0, g);
          assert neighbor == Candidate(UniformCostPolicy, goal, closedList, nb);
          var existing := FindExisting(openList, neighbor.pos);
          if existing.Some? {
            var k := existing.value;
            if neighbor.g < openList[k].g {
              openList := openList[k := openList[k].(g := neighbor.g, f := neighbor.f, parent := neighbor.parent)];
            }
          } else {
            openList := openList + [neighbor];
          }
        }
        i := i + 1;
      }
    }

    /** Overwrites the open list, closed list, path and finished flag with a
        snapshot's. */
    method Restore(s: Snapshot)
      requires Valid() && goalPos.Some?
      requires WellFormed(UniformCostPolicy, occ, allowDiagonal, startPos.value, goalPos.value, s)
      modifies this
      ensures Valid() && Snap() == s
      ensures startPos == old(startPos) && goalPos == old(goalPos)
    {
      openList, closedList, path, finished := s.open, s.closed, s.path, s.finished;
    }

    /** Runs steps from a fresh initialisation until the goal is reached or
        the open list is exhausted; this always ends, since every expansion
        closes a position not closed before. */
    method FindPath(start: Pos, goal: Pos) returns (result: Option<seq<Pos>>)
      requires occ.Valid()
      modifies this
      ensures Valid() && startPos == Some(start) && goalPos == Some(goal)
      ensures Snap() == RunToEnd(UniformCostPolicy, occ, allowDiagonal, start, goal, InitialSnapshot(UniformCostPolicy, start, goal))
      ensures result == path
      ensures result.None? ==> openList == []
      ensures result.Some? ==> finished && |result.value| > 0 && result.value[0] == start
                               && result.value[|result.value| - 1] == goal
                               && ValidPath(occ, allowDiagonal, result.value)
    {
      InitializeSearch(start, goal);
      while openList != [] && !finished
        invariant Valid() && startPos == Some(start) && goalPos == Some(goal)
        invariant RunToEnd(UniformCostPolicy, occ, allowDiagonal, start, goal, InitialSnapshot(UniformCostPolicy, start, goal))
               == RunToEnd(UniformCostPolicy, occ, allowDiagonal, start, goal, Snap())
        decreases Universe(occ, start) - ClosedPositions(closedList)
      {
        StepShrinksUnexplored(UniformCostPolicy, occ, allowDiagonal, start, goal, Snap());
        var progressed := Step();
        if !progressed {
          break;
        }
      }
      result := path;
      if finished {
        FinishedPathIsValid(UniformCostPolicy, occ, allowDiagonal, start, goal, Snap());
      }
    }
  }

  /** The linear search of the open list for the first entry at `p`. */
  method FindExisting(open: seq<Node>, p: Pos) returns (r: Option<nat>)
    ensures r == FindAt(open, p)
  {
    var i := 0;
    while i < |open|
      invariant 0 <= i <= |open|
      invariant forall j :: 0 <= j < i ==> open[j].pos != p
    {
      if open[i].pos == p {
        r := Some(i);
        FirstAtUnique(open, p, i);
        return;
      }
      i := i + 1;
    }
    r := None;
    FindAtFirst(open, p);
  }

  /** An index whose entry is at `p`, with none before it, is the first. */
  lemma FirstAtUnique(open: seq<Node>, p: Pos, i: nat)
    requires i < |open| && open[i].pos == p
    requires forall j :: 0 <= j < i ==> open[j].pos != p
    ensures FindAt(open, p) == Some(i)
  {
    var r := FindAt(open, p);
    FindAtFirst(open, p);
    assert r.Some?;
    assert !(r.value < i) && !(i < r.value);
  }
}
