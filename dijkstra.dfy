/** Dijkstra's pathfinder: no heuristic, so f = g; a neighbour is discarded
    when an open entry at its position has g no worse. */
module Dijkstra {
  import opened Geometry
  import opened PathfinderBase
  import opened SearchNodes
  import opened SearchSpec

  class DijkstraPathfinder {
    const occ: Occupancy
    const allowDiagonal: bool
    var openList: seq<Node>
    var closedList: seq<Node>
    var startPos: Option<Pos>
    var goalPos: Option<Pos>
    var path: Option<seq<Pos>>
    var finished: bool
    var iterations: nat

    /** The state a snapshot copies. */
    function Snap(): Snapshot
      reads this
    {
      Snapshot(openList, closedList, path, finished)
    }

    /** Before the first initialisation nothing is open; afterwards the state
        satisfies the search invariant for the recorded start and goal. */
    ghost predicate Valid()
      reads this
    {
      && occ.Valid()
      && (startPos.None? <==> goalPos.None?)
      && (goalPos.None? ==> openList == [] && closedList == [] && path.None? && !finished)
      && (goalPos.Some? ==> WellFormed(DijkstraPolicy, occ, allowDiagonal, startPos.value, goalPos.value, Snap()))
    }

    constructor(occ: Occupancy, allowDiagonal: bool)
      requires occ.Valid()
      ensures Valid()
      ensures this.occ == occ && this.allowDiagonal == allowDiagonal
      ensures openList == [] && closedList == [] && path.None? && !finished
      ensures startPos.None? && goalPos.None? && iterations == 0
    {
      this.occ := occ;
      this.allowDiagonal := allowDiagonal;
      openList := [];
      closedList := [];
      startPos := None;
      goalPos := None;
      path := None;
      finished := false;
      iterations := 0;
    }

    /** Open holds only the start node, with zero scores. */
    method InitializeSearch(start: Pos, goal: Pos)
      requires occ.Valid()
      modifies this
      ensures Valid()
      ensures startPos == Some(start) && goalPos == Some(goal)
      ensures Snap() == InitialSnapshot(DijkstraPolicy, start, goal)
      ensures openList == [Node(start, None, 0.0, 0.0, 0.0)] && closedList == []
      ensures path.None? && !finished && iterations == 0
    {
      startPos := Some(start);
      goalPos := Some(goal);
      openList := [Node(start, None, 0.0, 0.0, 0.0)];
      closedList := [];
      path := None;
      finished := false;
      iterations := 0;
      InitialWellFormed(DijkstraPolicy, occ, allowDiagonal, start, goal);
    }

    /** One expansion; `false` and no change when nothing is open or the
        search is finished. On reaching the goal the path and the flag are
        assigned twice, to the same values. */
    method Step() returns (progressed: bool)
      requires Valid()
      modifies this
      ensures Valid()
      ensures startPos == old(startPos) && goalPos == old(goalPos)
      ensures progressed <==> old(openList) != [] && !old(finished)
      ensures iterations == old(iterations) + (if progressed then 1 else 0)
      ensures !progressed ==> Snap() == old(Snap())
      ensures goalPos.Some? ==> Snap() == StepSpec(DijkstraPolicy, occ, allowDiagonal, goalPos.value, old(Snap()))
    {
      if openList == [] || finished {
        return false;
      }
      ghost var before := Snap();
      CloseKeepsLinked(DijkstraPolicy, occ, allowDiagonal, startPos.value, goalPos.value, before);
      iterations := iterations + 1;
      var current := CloseFirstMinimum();
      ghost var closing := Snap();
      if current.pos == goalPos.value {
        var walked := ReconstructPath(closedList, |closedList| - 1);
        path := Some(walked);
        finished := true;
        walked := ReconstructPath(closedList, |closedList| - 1);
        path := Some(walked);
        finished := true;
      } else {
        ProcessNeighbors();
      }
      assert Snap() == ExpandOrFinish(DijkstraPolicy, occ, allowDiagonal, goalPos.value, closing);
      progressed := true;
      StepKeepsWellFormed(DijkstraPolicy, occ, allowDiagonal, startPos.value, goalPos.value, before);
    }

    /** The selection scan, then the move of the selected entry from the open
        list to the end of the closed list. */
    method CloseFirstMinimum() returns (current: Node)
      requires openList != []
      modifies this`openList, this`closedList
      ensures Snap() == CloseSelected(DijkstraPolicy, old(Snap()))
      ensures current == closedList[|closedList| - 1]
    {
      var k := SelectFirstMin(DijkstraPolicy, openList);
      current := openList[k];
      openList := openList[..k] + openList[k + 1..];
      closedList := closedList + [current];
    }

    /** Scores each neighbour of the node just closed (h = 0, f = g) and
        appends it unless its position is closed or an open entry there has g
        no worse. */
    method ProcessNeighbors()
      requires occ.Valid() && |closedList| > 0 && goalPos.Some?
      modifies this`openList
      ensures openList == ExpandLast(DijkstraPolicy, occ, allowDiagonal, goalPos.value, closedList, old(openList))
    {
      var current := closedList[|closedList| - 1];
      var goal := goalPos.value;
      var nbrs := GetNeighborsAndCosts(occ, current.pos, allowDiagonal);
      var i := 0;
      while i < |nbrs|
        invariant 0 <= i <= |nbrs|
        invariant Expand(DijkstraPolicy, goal, closedList, old(openList), nbrs)
               == Expand(DijkstraPolicy, goal, closedList, openList, nbrs[i..])
      {
        var nb := nbrs[i];
        ExpandStep(DijkstraPolicy, goal, closedList, openList, nbrs, i);
        if !HasPos(closedList, nb.pos) {
          var g := current.g + nb.cost;
          var h := 0.0;
          var neighbor := Node(nb.pos, Some(|closedList| - 1), g, h, g + h);
          assert neighbor == Candidate(DijkstraPolicy, goal, closedList, nb);
          if !(exists j :: 0 <= j < |openList| && openList[j].pos == neighbor.pos && neighbor.g >= openList[j].g) {
            openList := openList + [neighbor];
          }
        }
        i := i + 1;
      }
    }

    /** Overwrites the open list, closed list, path and finished flag with a
        snapshot's; the iteration counter is left as it is. */
    method Restore(s: Snapshot)
      requires Valid() && goalPos.Some?
      requires WellFormed(DijkstraPolicy, occ, allowDiagonal, startPos.value, goalPos.value, s)
      modifies this
      ensures Valid() && Snap() == s
      ensures startPos == old(startPos) && goalPos == old(goalPos) && iterations == old(iterations)
    {
      openList, closedList, path, finished := s.open, s.closed, s.path, s.finished;
    }

    /** Runs steps from a fresh initialisation until the goal is reached, the
        open list is exhausted, or `maxSteps` steps were taken. */
    method FindPath(start: Pos, goal: Pos, maxSteps: nat) returns (result: Option<seq<Pos>>)
      requires occ.Valid()
      modifies this
      ensures Valid() && startPos == Some(start) && goalPos == Some(goal)
      ensures Snap() == Steps(DijkstraPolicy, occ, allowDiagonal, goal, InitialSnapshot(DijkstraPolicy, start, goal), iterations)
      ensures result == path && iterations <= maxSteps
      ensures iterations < maxSteps ==> openList == [] || finished
      ensures result.None? ==> openList == [] || iterations == maxSteps
      ensures result.Some? ==> finished && |result.value| > 0 && result.value[0] == start
                               && result.value[|result.value| - 1] == goal
                               && ValidPath(occ, allowDiagonal, result.value)
    {
      InitializeSearch(start, goal);
      while openList != [] && !finished && iterations < maxSteps
        invariant Valid() && startPos == Some(start) && goalPos == Some(goal)
        invariant iterations <= maxSteps
        invariant Snap() == Steps(DijkstraPolicy, occ, allowDiagonal, goal, InitialSnapshot(DijkstraPolicy, start, goal), iterations)
        decreases maxSteps - iterations
      {
        ghost var before := Snap();
        ghost var n := iterations;
        var _ := Step();
        StepsAdvance(DijkstraPolicy, occ, allowDiagonal, goal, InitialSnapshot(DijkstraPolicy, start, goal), n, iterations, before, Snap());
      }
      result := path;
      if finished {
        FinishedPathIsValid(DijkstraPolicy, occ, allowDiagonal, start, goal, Snap());
      }
    }
  }
}
