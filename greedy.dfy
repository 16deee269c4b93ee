/** The greedy best-first pathfinder: f = h, the squared Euclidean distance to
    the goal, with g tracked only for the record; a neighbour is discarded when
    an open entry at its position has f no worse. */
module Greedy {
  import opened Geometry
  import opened PathfinderBase
  import opened SearchNodes
  import opened SearchSpec

  class GreedyPathfinder {
    const occ: Occupancy
    const allowDiagonal: bool
    var openList: seq<Node>
    var closedList: seq<Node>
    var startPos: Option<Pos>
    var goalPos: Option<Pos>
    var path: Option<seq<Pos>>
    var finished: bool
    var iterations: nat

    /** The state a snapshot copies. */
    function Snap(): Snapshot
      reads this
    {
      Snapshot(openList, closedList, path, finished)
    }

    /** Before the first initialisation nothing is open; afterwards the state
        satisfies the search invariant for the recorded start and goal. */
    ghost predicate Valid()
      reads this
    {
      && occ.Valid()
      && (startPos.None? <==> goalPos.None?)
      && (goalPos.None? ==> openList == [] && closedList == [] && path.None? && !finished)
      && (goalPos.Some? ==> WellFormed(GreedyPolicy, occ, allowDiagonal, startPos.value, goalPos.value, Snap()))
    }

    constructor(occ: Occupancy, allowDiagonal: bool)
      requires occ.Valid()
      ensures Valid()
      ensures this.occ == occ && this.allowDiagonal == allowDiagonal
      ensures openList == [] && closedList == [] && path.None? && !finished
      ensures startPos.None? && goalPos.None? && iterations == 0
    {
      this.occ := occ;
      this.allowDiagonal := allowDiagonal;
      openList := [];
      closedList := [];
      startPos := None;
      goalPos := None;
      path := None;
      finished := false;
      iterations := 0;
    }

    /** Open holds only the start node, scored with its distance to the goal. */
    method InitializeSearch(start: Pos, goal: Pos)
      requires occ.Valid()
      modifies this
      ensures Valid()
      ensures startPos == Some(start) && goalPos == Some(goal)
      ensures Snap() == InitialSnapshot(GreedyPolicy, start, goal)
      ensures openList == [Node(start, None, 0.0, SquaredDistance(start, goal) as real, SquaredDistance(start, goal) as real)]
      ensures closedList == []
      ensures path.None? && !finished && iterations == 0
    {
      startPos := Some(start);
      goalPos := Some(goal);
      var h := SquaredDistance(start, goal) as real;
      openList := [Node(start, None, 0.0, h, h)];
      closedList := [];
      path := None;
      finished := false;
      iterations := 0;
      InitialWellFormed(GreedyPolicy, occ, allowDiagonal, start, goal);
    }

    /** One expansion; `false` and no change when nothing is open or the
        search is finished. */
    method Step() returns (progressed: bool)
      requires Valid()
      modifies this
      ensures Valid()
      ensures startPos == old(startPos) && goalPos == old(goalPos)
      ensures progressed <==> old(openList) != [] && !old(finished)
      ensures iterations == old(iterations) + (if progressed then 1 else 0)
      ensures !progressed ==> Snap() == old(Snap())
      ensures goalPos.Some? ==> Snap() == StepSpec(GreedyPolicy, occ, allowDiagonal, goalPos.value, old(Snap()))
    {
      if openList == [] || finished {
        return false;
      }
      ghost var before := Snap();
      CloseKeepsLinked(GreedyPolicy, occ, allowDiagonal, startPos.value, goalPos.value, before);
      iterations := iterations + 1;
      var current := CloseFirstMinimum();
      ghost var closing := Snap();
      if current.pos == goalPos.value {
        var walked := ReconstructPath(closedList, |closedList| - 1);
        path := Some(walked);
        finished := true;
      } else {
        ProcessNeighbors();
      }
      assert Snap() == ExpandOrFinish(GreedyPolicy, occ, allowDiagonal, goalPos.value, closing);
      progressed := true;
      StepKeepsWellFormed(GreedyPolicy, occ, allowDiagonal, startPos.value, goalPos.value, before);
    }

    /** The selection scan, then the move of the selected entry from the open
        list to the end of the closed list. */
    method CloseFirstMinimum() returns (current: Node)
      requires openList != []
      modifies this`openList, this`closedList
      ensures Snap() == CloseSelected(GreedyPolicy, old(Snap()))
      ensures current == closedList[|closedList| - 1]
    {
      var k := SelectFirstMin(GreedyPolicy, openList);
      current := openList[k];
      openList := openList[..k] + openList[k + 1..];
      closedList := closedList + [current];
    }

    /** Scores each neighbour of the node just closed and appends it unless
        its position is closed or an open entry there has f no worse. */
    method ProcessNeighbors()
      requires occ.Valid() && |closedList| > 0 && goalPos.Some?
      modifies this`openList
      ensures openList == ExpandLast(GreedyPolicy, occ, allowDiagonal, goalPos.value, closedList, old(openList))
    {
      var current := closedList[|closedList| - 1];
      var goal := goalPos.value;
      var nbrs := GetNeighborsAndCosts(occ, current.pos, allowDiagonal);
      var i := 0;
      while i < |nbrs|
        invariant 0 <= i <= |nbrs|
        invariant Expand(GreedyPolicy, goal, closedList, old(openList), nbrs)
               == Expand(GreedyPolicy, goal, closedList, openList, nbrs[i..])
      {
        var nb := nbrs[i];
        ExpandStep(GreedyPolicy, goal, closedList, openList, nbrs, i);
        if !HasPos(closedList, nb.pos) {
          var h := SquaredDistance(nb.pos, goal) as real;
          var g := current.g + nb.cost;
          var neighbor := Node(nb.pos, Some(|closedList| - 1), g, h, h);
          assert neighbor == Candidate(GreedyPolicy, goal, closedList, nb);
          if !(exists j :: 0 <= j < |openList| && openList[j].pos == neighbor.pos && neighbor.f >= openList[j].f) {
            openList := openList + [neighbor];
          }
        }
        i := i + 1;
      }
    }

    /** Overwrites the open list, closed list, path and finished flag with a
        snapshot's; the iteration counter is left as it is. */
    method Restore(s: Snapshot)
      requires Valid() && goalPos.Some?
      requires WellFormed(GreedyPolicy, occ, allowDiagonal, startPos.value, goalPos.value, s)
      modifies this
      ensures Valid() && Snap() == s
      ensures startPos == old(startPos) && goalPos == old(goalPos) && iterations == old(iterations)
    {
      openList, closedList, path, finished := s.open, s.closed, s.path, s.finished;
    }

    /** Runs steps from a fresh initialisation until the goal is reached or
        the open list is exhausted; this always ends, since every expansion
        closes a position not closed before. */
    method FindPath(start: Pos, goal: Pos) returns (result: Option<seq<Pos>>)
      requires occ.Valid()
      modifies this
      ensures Valid() && startPos == Some(start) && goalPos == Some(goal)
      ensures Snap() == RunToEnd(GreedyPolicy, occ, allowDiagonal, start, goal, InitialSnapshot(GreedyPolicy, start, goal))
      ensures result == path
      ensures result.None? ==> openList == []
      ensures result.Some? ==> finished && |result.value| > 0 && result.value[0] == start
                               && result.value[|result.value| - 1] == goal
                               && ValidPath(occ, allowDiagonal, result.value)
    {
      InitializeSearch(start, goal);
      while openList != [] && !finished
        invariant Valid() && startPos == Some(start) && goalPos == Some(goal)
        invariant RunToEnd(GreedyPolicy, occ, allowDiagonal, start, goal, InitialSnapshot(GreedyPolicy, start, goal))
               == RunToEnd(GreedyPolicy, occ, allowDiagonal, start, goal, Snap())
        decreases Universe(occ, start) - ClosedPositions(closedList)
      {
        StepShrinksUnexplored(GreedyPolicy, occ, allowDiagonal, start, goal, Snap());
        var progressed := Step();
        if !progressed {
          break;
        }
      }
      result := path;
      if finished {
        FinishedPathIsValid(GreedyPolicy, occ, allowDiagonal, start, goal, Snap());
      }
    }
  }
}
