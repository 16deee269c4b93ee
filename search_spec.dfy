/** What one expansion step does, as a function of the exposed state, and the
    invariants every step keeps. */
module SearchSpec {
  import opened Geometry
  import opened PathfinderBase
  import opened SearchNodes

  /** The node built for neighbour `nb` of the node just closed (the last
      closed entry), with the variant's scores. */
  function Candidate(policy: Policy, goal: Pos, closed: seq<Node>, nb: Neighbor): Node
    requires |closed| > 0
  {
    var parent := Some(|closed| - 1);
    var g := closed[|closed| - 1].g + nb.cost;
    match policy
    case AStarPolicy =>
      var h := SquaredDistance(nb.pos, goal) as real;
      Node(nb.pos, parent, g, h, g + h)
    case DijkstraPolicy => Node(nb.pos, parent, g, 0.0, g + 0.0)
    case GreedyPolicy =>
      var h := SquaredDistance(nb.pos, goal) as real;
      Node(nb.pos, parent, g, h, h)
    case UniformCostPolicy => Node(nb.pos, parent, g, 0.0, g)
  }

  /** Membership by position (`vecino in lista_cerrada`). */
  predicate HasPos(nodes: seq<Node>, p: Pos) {
    exists i :: 0 <= i < |nodes| && nodes[i].pos == p
  }

  /** Some open entry at the candidate's position is at least as good: on `g`
      for A* and Dijkstra, on `f` for Greedy. */
  predicate Dominated(policy: Policy, open: seq<Node>, cand: Node) {
    exists i :: 0 <= i < |open| && open[i].pos == cand.pos &&
      (if policy == GreedyPolicy then cand.f >= open[i].f else cand.g >= open[i].g)
  }

  /** The index of the first entry at position `p`, if any. */
  function FindAt(nodes: seq<Node>, p: Pos): (r: Option<nat>)
    ensures r.Some? ==> r.value < |nodes| && nodes[r.value].pos == p
    decreases |nodes|
  {
    if nodes == [] then None
    else if nodes[0].pos == p then Some(0)
    else match FindAt(nodes[1..], p)
      case None => None
      case Some(k) => Some(k + 1)
  }

  /** `FindAt` finds the first entry at `p`, and finds none exactly when no
      entry is at `p`. */
  lemma {:induction false} FindAtFirst(nodes: seq<Node>, p: Pos)
    ensures var r := FindAt(nodes, p);
      && (r.Some? ==> forall j :: 0 <= j < r.value ==> nodes[j].pos != p)
      && (r.None? <==> !HasPos(nodes, p))
    decreases |nodes|
  {
    if nodes != [] && nodes[0].pos != p {
      FindAtFirst(nodes[1..], p);
      assert forall j :: 0 < j < |nodes| ==> nodes[j] == nodes[1..][j - 1];
    }
  }

  /** How one neighbour changes the open list: ignored when closed; for
      Uniform-Cost, relaxes the open entry at that position in place or is
      appended when there is none; for the others, appended unless dominated. */
  function Consider(policy: Policy, goal: Pos, closed: seq<Node>, open: seq<Node>, nb: Neighbor): seq<Node>
    requires |closed| > 0
  {
    if HasPos(closed, nb.pos) then open
    else
      var cand := Candidate(policy, goal, closed, nb);
      if policy == UniformCostPolicy then
        match FindAt(open, nb.pos)
        case None => open + [cand]
        case Some(k) =>
          if cand.g < open[k].g then open[k := open[k].(g := cand.g, f := cand.f, parent := cand.parent)]
          else open
      else if Dominated(policy, open, cand) then open
      else open + [cand]
  }

  /** The neighbours considered one after another, in order. */
  function Expand(policy: Policy, goal: Pos, closed: seq<Node>, open: seq<Node>, nbrs: seq<Neighbor>): seq<Node>
    requires |closed| > 0
    decreases |nbrs|
  {
    if nbrs == [] then open
    else Expand(policy, goal, closed, Consider(policy, goal, closed, open, nbrs[0]), nbrs[1..])
  }

  /** The neighbours of the node just closed (the last closed entry),
      considered in order. */
  function ExpandLast(policy: Policy, occ: Occupancy, diag: bool, goal: Pos, closed: seq<Node>, open: seq<Node>): seq<Node>
    requires occ.Valid() && |closed| > 0
  {
    Expand(policy, goal, closed, open, Neighbors(occ, closed[|closed| - 1].pos, diag))
  }

  /** One neighbour of the remaining ones is considered first. */
  lemma ExpandStep(policy: Policy, goal: Pos, closed: seq<Node>, open: seq<Node>, nbrs: seq<Neighbor>, i: nat)
    requires |closed| > 0 && i < |nbrs|
    ensures Expand(policy, goal, closed, open, nbrs[i..])
         == Expand(policy, goal, closed, Consider(policy, goal, closed, open, nbrs[i]), nbrs[i + 1..])
  {
    assert nbrs[i..][0] == nbrs[i] && nbrs[i..][1..] == nbrs[i + 1..];
  }

  /** The state after initialisation: only the start node is open. Greedy
      scores the start node with its heuristic; the others with zeros. */
  function InitialSnapshot(policy: Policy, start: Pos, goal: Pos): Snapshot {
    var h := if policy == GreedyPolicy then SquaredDistance(start, goal) as real else 0.0;
    Snapshot([Node(start, None, 0.0, h, h)], [], None, false)
  }

  /** The first open entry of minimal key moved to the end of the closed
      list. */
  function CloseSelected(policy: Policy, s: Snapshot): (r: Snapshot)
    requires s.open != []
    ensures |r.closed| == |s.closed| + 1
  {
    var k := MinIndex(policy, s.open);
    Snapshot(s.open[..k] + s.open[k + 1..], s.closed + [s.open[k]], s.path, s.finished)
  }

  /** What follows the move: when the entry just closed is at the goal, the
      path is rebuilt from it and the search is finished; otherwise its
      neighbours are considered. */
  function ExpandOrFinish(policy: Policy, occ: Occupancy, diag: bool, goal: Pos, s: Snapshot): Snapshot
    requires occ.Valid() && |s.closed| > 0
  {
    var last := |s.closed| - 1;
    if s.closed[last].pos == goal then Snapshot(s.open, s.closed, Some(Chain(s.closed, last)), true)
    else Snapshot(ExpandLast(policy, occ, diag, goal, s.closed, s.open), s.closed, s.path, s.finished)
  }

  /** One step: a no-op when nothing is open or the search is finished;
      otherwise the selected entry is closed and then expanded or found to be
      the goal. */
  function StepSpec(policy: Policy, occ: Occupancy, diag: bool, goal: Pos, s: Snapshot): Snapshot
    requires occ.Valid()
  {
    if s.open == [] || s.finished then s
    else ExpandOrFinish(policy, occ, diag, goal, CloseSelected(policy, s))
  }

  /** Sum of the move costs along a path. */
  function PathCost(path: seq<Pos>): real
    decreases |path|
  {
    if |path| <= 1 then 0.0
    else PathCost(path[..|path| - 1]) + StepCost(path[|path| - 2], path[|path| - 1])
  }

  /** Each position after the first is a neighbour of the one before it. */
  ghost predicate ValidPath(occ: Occupancy, diag: bool, path: seq<Pos>)
    requires occ.Valid()
  {
    forall i :: 0 < i < |path| ==> IsNeighbor(occ, diag, path[i - 1], path[i])
  }

  /** The variant's scores. A* leaves the start node at zero. */
  ghost predicate Scored(policy: Policy, goal: Pos, n: Node) {
    match policy
    case AStarPolicy =>
      if n.parent.None? then n.h == 0.0 && n.f == 0.0
      else n.h == SquaredDistance(n.pos, goal) as real && n.f == n.g + n.h
    case DijkstraPolicy => n.h == 0.0 && n.f == n.g
    case GreedyPolicy => n.h == SquaredDistance(n.pos, goal) as real && n.f == n.h
    case UniformCostPolicy => n.h == 0.0 && n.f == n.g
  }

  /** A node is rooted at the start with `g = 0`, or it is a neighbour of its
      closed parent whose `g` is the parent's plus the move cost. */
  ghost predicate NodeOk(policy: Policy, occ: Occupancy, diag: bool, start: Pos, goal: Pos, closed: seq<Node>, n: Node)
    requires occ.Valid()
  {
    && n.g >= 0.0
    && (n.parent.None? ==> n.pos == start && n.g == 0.0)
    && (n.parent.Some? ==>
          && n.parent.value < |closed|
          && IsNeighbor(occ, diag, closed[n.parent.value].pos, n.pos)
          && n.g == closed[n.parent.value].g + StepCost(closed[n.parent.value].pos, n.pos))
    && Scored(policy, goal, n)
  }

  ghost predicate DistinctPositions(nodes: seq<Node>) {
    forall i, j :: 0 <= i < j < |nodes| ==> nodes[i].pos != nodes[j].pos
  }

  ghost predicate DisjointPositions(a: seq<Node>, b: seq<Node>) {
    forall i, j :: 0 <= i < |a| && 0 <= j < |b| ==> a[i].pos != b[j].pos
  }

  /** The variants that never hold two entries for one position. */
  predicate UniquePositions(policy: Policy) {
    policy == UniformCostPolicy || policy == GreedyPolicy
  }

  /** Every closed node is consistent. */
  ghost predicate ClosedOk(policy: Policy, occ: Occupancy, diag: bool, start: Pos, goal: Pos, closed: seq<Node>)
    requires occ.Valid()
  {
    forall i {:trigger NodeOk(policy, occ, diag, start, goal, closed, closed[i])} ::
      0 <= i < |closed| ==> NodeOk(policy, occ, diag, start, goal, closed, closed[i])
  }

  /** Every open node is consistent, and where the variant keeps positions
      unique, the open positions are distinct and none of them is closed. */
  ghost predicate OpenOk(policy: Policy, occ: Occupancy, diag: bool, start: Pos, goal: Pos,
                         closed: seq<Node>, open: seq<Node>)
    requires occ.Valid()
  {
    && (forall i {:trigger NodeOk(policy, occ, diag, start, goal, closed, open[i])} ::
          0 <= i < |open| ==> NodeOk(policy, occ, diag, start, goal, closed, open[i]))
    && (UniquePositions(policy) ==> DistinctPositions(open) && DisjointPositions(open, closed))
  }

  /** The invariant of a search state. */
  ghost predicate WellFormed(policy: Policy, occ: Occupancy, diag: bool, start: Pos, goal: Pos, s: Snapshot) {
    && occ.Valid()
    && Linked(s.closed)
    && ClosedOk(policy, occ, diag, start, goal, s.closed)
    && OpenOk(policy, occ, diag, start, goal, s.closed, s.open)
    && (UniquePositions(policy) ==> DistinctPositions(s.closed))
    && (s.finished <==> s.path.Some?)
    && (s.path.Some? ==>
          && |s.closed| > 0 && s.closed[|s.closed| - 1].pos == goal
          && s.path.value == Chain(s.closed, |s.closed| - 1))
  }

  /** Initialisation establishes the invariant. */
  lemma InitialWellFormed(policy: Policy, occ: Occupancy, diag: bool, start: Pos, goal: Pos)
    requires occ.Valid()
    ensures WellFormed(policy, occ, diag, start, goal, InitialSnapshot(policy, start, goal))
  {
  }

  /** Appending closed entries keeps a node consistent. */
  lemma NodeOkExtend(policy: Policy, occ: Occupancy, diag: bool, start: Pos, goal: Pos,
                     closed: seq<Node>, more: seq<Node>, n: Node)
    requires occ.Valid()
    requires NodeOk(policy, occ, diag, start, goal, closed, n)
    ensures NodeOk(policy, occ, diag, start, goal, closed + more, n)
  {
    if n.parent.Some? {
      assert (closed + more)[n.parent.value] == closed[n.parent.value];
    }
  }

  /** The candidate built for a neighbour of the last closed node is
      consistent. */
  lemma CandidateOk(policy: Policy, occ: Occupancy, diag: bool, start: Pos, goal: Pos,
                    closed: seq<Node>, nb: Neighbor)
    requires occ.Valid() && |closed| > 0 && closed[|closed| - 1].g >= 0.0
    requires nb in Neighbors(occ, closed[|closed| - 1].pos, diag)
    ensures NodeOk(policy, occ, diag, start, goal, closed, Candidate(policy, goal, closed, nb))
  {
    var p := closed[|closed| - 1].pos;
    NeighborsSound(occ, p, diag);
    var r := Neighbors(occ, p, diag);
    var k :| 0 <= k < |r| && r[k] == nb;
    assert r[k].pos == nb.pos;
  }

  lemma ConsiderKeepsOpenOk(policy: Policy, occ: Occupancy, diag: bool, start: Pos, goal: Pos,
                            closed: seq<Node>, open: seq<Node>, nb: Neighbor)
    requires occ.Valid() && |closed| > 0 && closed[|closed| - 1].g >= 0.0
    requires nb in Neighbors(occ, closed[|closed| - 1].pos, diag)
    requires OpenOk(policy, occ, diag, start, goal, closed, open)
    ensures OpenOk(policy, occ, diag, start, goal, closed, Consider(policy, goal, closed, open, nb))
  {
    if !HasPos(closed, nb.pos) {
      var cand := Candidate(policy, goal, closed, nb);
      CandidateOk(policy, occ, diag, start, goal, closed, nb);
      if policy == UniformCostPolicy {
        FindAtFirst(open, nb.pos);
        match FindAt(open, nb.pos)
        case None =>
          assert forall j :: 0 <= j < |closed| ==> closed[j].pos != cand.pos;
        case Some(k) =>
          if cand.g < open[k].g {
            RelaxKeepsOpenOk(occ, diag, start, goal, closed, open, k, cand);
          }
      } else if !Dominated(policy, open, cand) {
        if policy == GreedyPolicy {
          forall i | 0 <= i < |open|
            ensures open[i].pos != cand.pos
          {
            assert NodeOk(policy, occ, diag, start, goal, closed, open[i]);
          }
          assert forall j :: 0 <= j < |closed| ==> closed[j].pos != cand.pos;
        }
      }
    }
  }

  /** Uniform-Cost's relaxation of open entry `k` by a consistent candidate
      at the same position keeps the open list consistent. */
  lemma RelaxKeepsOpenOk(occ: Occupancy, diag: bool, start: Pos, goal: Pos,
                         closed: seq<Node>, open: seq<Node>, k: nat, cand: Node)
    requires occ.Valid() && k < |open| && open[k].pos == cand.pos
    requires OpenOk(UniformCostPolicy, occ, diag, start, goal, closed, open)
    requires NodeOk(UniformCostPolicy, occ, diag, start, goal, closed, cand)
    ensures OpenOk(UniformCostPolicy, occ, diag, start, goal, closed,
                   open[k := open[k].(g := cand.g, f := cand.f, parent := cand.parent)])
  {
    var open' := open[k := open[k].(g := cand.g, f := cand.f, parent := cand.parent)];
    assert forall i :: 0 <= i < |open| ==> open'[i].pos == open[i].pos;
    assert NodeOk(UniformCostPolicy, occ, diag, start, goal, closed, open[k]);
    assert open'[k] == cand;
    forall i | 0 <= i < |open'|
      ensures NodeOk(UniformCostPolicy, occ, diag, start, goal, closed, open'[i])
    {
      if i != k {
        assert open'[i] == open[i];
        assert NodeOk(UniformCostPolicy, occ, diag, start, goal, closed, open[i]);
      }
    }
  }

  lemma {:induction false} ExpandKeepsOpenOk(policy: Policy, occ: Occupancy, diag: bool, start: Pos, goal: Pos,
                                             closed: seq<Node>, open: seq<Node>, nbrs: seq<Neighbor>)
    requires occ.Valid() && |closed| > 0 && closed[|closed| - 1].g >= 0.0
    requires forall nb :: nb in nbrs ==> nb in Neighbors(occ, closed[|closed| - 1].pos, diag)
    requires OpenOk(policy, occ, diag, start, goal, closed, open)
    ensures OpenOk(policy, occ, diag, start, goal, closed, Expand(policy, goal, closed, open, nbrs))
    decreases |nbrs|
  {
    if nbrs != [] {
      assert nbrs[0] in nbrs;
      ConsiderKeepsOpenOk(policy, occ, diag, start, goal, closed, open, nbrs[0]);
      assert forall nb :: nb in nbrs[1..] ==> nb in nbrs;
      ExpandKeepsOpenOk(policy, occ, diag, start, goal, closed, Consider(policy, goal, closed, open, nbrs[0]), nbrs[1..]);
    }
  }

  /** Moving open entry `k` to the end of the closed list keeps every node
      consistent and the positions distinct where the variant keeps them so. */
  lemma CloseKeepsNodes(policy: Policy, occ: Occupancy, diag: bool, start: Pos, goal: Pos, s: Snapshot, k: nat)
    requires WellFormed(policy, occ, diag, start, goal, s)
    requires k < |s.open|
    ensures OpenOk(policy, occ, diag, start, goal, s.closed + [s.open[k]], s.open[..k] + s.open[k + 1..])
    ensures ClosedOk(policy, occ, diag, start, goal, s.closed + [s.open[k]])
    ensures UniquePositions(policy) ==> DistinctPositions(s.closed + [s.open[k]])
  {
    var current := s.open[k];
    var open := s.open[..k] + s.open[k + 1..];
    var closed := s.closed + [current];
    assert forall i :: 0 <= i < |open| ==> open[i] == s.open[if i < k then i else i + 1];
    forall i | 0 <= i < |open|
      ensures NodeOk(policy, occ, diag, start, goal, closed, open[i])
    {
      var j := if i < k then i else i + 1;
      assert NodeOk(policy, occ, diag, start, goal, s.closed, s.open[j]);
      NodeOkExtend(policy, occ, diag, start, goal, s.closed, [current], open[i]);
    }
    forall i | 0 <= i < |closed|
      ensures NodeOk(policy, occ, diag, start, goal, closed, closed[i])
    {
      if i < |s.closed| {
        assert NodeOk(policy, occ, diag, start, goal, s.closed, s.closed[i]);
      } else {
        assert NodeOk(policy, occ, diag, start, goal, s.closed, s.open[k]);
      }
      NodeOkExtend(policy, occ, diag, start, goal, s.closed, [current], closed[i]);
    }
  }

  /** Closing the selected entry keeps the closed list linked, since the
      entry's parent is already closed. */
  lemma CloseKeepsLinked(policy: Policy, occ: Occupancy, diag: bool, start: Pos, goal: Pos, s: Snapshot)
    requires WellFormed(policy, occ, diag, start, goal, s)
    requires s.open != []
    ensures Linked(CloseSelected(policy, s).closed)
  {
    var k := MinIndex(policy, s.open);
    assert NodeOk(policy, occ, diag, start, goal, s.closed, s.open[k]);
    assert forall i :: 0 <= i < |s.closed| ==> (s.closed + [s.open[k]])[i] == s.closed[i];
  }

  /** Every step keeps the invariant. */
  lemma StepKeepsWellFormed(policy: Policy, occ: Occupancy, diag: bool, start: Pos, goal: Pos, s: Snapshot)
    requires WellFormed(policy, occ, diag, start, goal, s)
    ensures WellFormed(policy, occ, diag, start, goal, StepSpec(policy, occ, diag, goal, s))
  {
    if s.open != [] && !s.finished {
      var k := MinIndex(policy, s.open);
      var current := s.open[k];
      var open := s.open[..k] + s.open[k + 1..];
      var closed := s.closed + [current];
      CloseKeepsNodes(policy, occ, diag, start, goal, s, k);
      CloseKeepsLinked(policy, occ, diag, start, goal, s);
      if current.pos == goal {
        assert StepSpec(policy, occ, diag, goal, s) == Snapshot(open, closed, Some(Chain(closed, |closed| - 1)), true);
      } else {
        var nbrs := Neighbors(occ, current.pos, diag);
        assert NodeOk(policy, occ, diag, start, goal, closed, closed[|closed| - 1]);
        ExpandKeepsOpenOk(policy, occ, diag, start, goal, closed, open, nbrs);
        assert StepSpec(policy, occ, diag, goal, s) == Snapshot(Expand(policy, goal, closed, open, nbrs), closed, s.path, s.finished);
      }
    }
  }

  /** Every node's scores are ordered as the variant promises: `g` is never
      negative, and for A* `f = g + h >= g`. */
  lemma ScoresNonNegative(policy: Policy, occ: Occupancy, diag: bool, start: Pos, goal: Pos, s: Snapshot, n: Node)
    requires WellFormed(policy, occ, diag, start, goal, s)
    requires n in s.open || n in s.closed
    ensures 0.0 <= n.g && 0.0 <= n.h
    ensures policy == AStarPolicy ==> n.g <= n.f
    ensures policy != GreedyPolicy ==> n.g <= n.f
  {
    if n in s.open {
      var i :| 0 <= i < |s.open| && s.open[i] == n;
      assert NodeOk(policy, occ, diag, start, goal, s.closed, s.open[i]);
    } else {
      var i :| 0 <= i < |s.closed| && s.closed[i] == n;
      assert NodeOk(policy, occ, diag, start, goal, s.closed, s.closed[i]);
    }
  }

  /** The positions of the parent chain of a closed node form a path from the
      start to that node through grid neighbours, and their move costs add up
      to the node's `g`. */
  lemma {:induction false} ChainIsValidPath(policy: Policy, occ: Occupancy, diag: bool, start: Pos, goal: Pos,
                                            closed: seq<Node>, i: nat)
    requires occ.Valid() && Linked(closed) && i < |closed|
    requires ClosedOk(policy, occ, diag, start, goal, closed)
    ensures var path := Chain(closed, i);
      && |path| > 0 && path[0] == start && path[|path| - 1] == closed[i].pos
      && ValidPath(occ, diag, path)
      && PathCost(path) == closed[i].g
    decreases i
  {
    var n := closed[i];
    assert NodeOk(policy, occ, diag, start, goal, closed, n);
    if n.parent.Some? {
      var j := n.parent.value;
      ChainIsValidPath(policy, occ, diag, start, goal, closed, j);
      ExtendPath(occ, diag, Chain(closed, j), n.pos);
    }
  }

  /** A path extended by a neighbour of its last position stays valid, and
      its cost grows by the move's cost. */
  lemma ExtendPath(occ: Occupancy, diag: bool, prefix: seq<Pos>, q: Pos)
    requires occ.Valid() && |prefix| > 0 && ValidPath(occ, diag, prefix)
    requires IsNeighbor(occ, diag, prefix[|prefix| - 1], q)
    ensures ValidPath(occ, diag, prefix + [q])
    ensures PathCost(prefix + [q]) == PathCost(prefix) + StepCost(prefix[|prefix| - 1], q)
  {
    var path := prefix + [q];
    assert path[..|path| - 1] == prefix;
    assert forall k :: 0 <= k < |prefix| ==> path[k] == prefix[k];
  }

  /** A finished search holds a valid start-to-goal path whose cost is the
      goal node's `g`; every position after the start is in bounds and free of
      obstacles. */
  lemma FinishedPathIsValid(policy: Policy, occ: Occupancy, diag: bool, start: Pos, goal: Pos, s: Snapshot)
    requires WellFormed(policy, occ, diag, start, goal, s)
    requires s.finished
    ensures s.path.Some?
    ensures var path := s.path.value;
      && |path| > 0 && path[0] == start && path[|path| - 1] == goal
      && ValidPath(occ, diag, path)
      && PathCost(path) == s.closed[|s.closed| - 1].g
      && forall k :: 0 < k < |path| ==> occ.InBounds(path[k]) && occ.At(path[k]) != Obstacle
  {
    ChainIsValidPath(policy, occ, diag, start, goal, s.closed, |s.closed| - 1);
    ValidPathOnFreeCells(occ, diag, s.path.value);
  }

  /** Every position after the first of a path through grid neighbours is in
      bounds and free of obstacles. */
  lemma ValidPathOnFreeCells(occ: Occupancy, diag: bool, path: seq<Pos>)
    requires occ.Valid() && ValidPath(occ, diag, path)
    ensures forall k :: 0 < k < |path| ==> occ.InBounds(path[k]) && occ.At(path[k]) != Obstacle
  {
    forall k | 0 < k < |path|
      ensures occ.InBounds(path[k]) && occ.At(path[k]) != Obstacle
    {
      assert IsNeighbor(occ, diag, path[k - 1], path[k]);
      NeighborsSound(occ, path[k - 1], diag);
    }
  }

  /** Greedy's score depends only on the position, so a neighbour already
      open is always discarded by the duplicate test. */
  lemma GreedyRejectsOpenPosition(occ: Occupancy, diag: bool, start: Pos, goal: Pos,
                                  closed: seq<Node>, open: seq<Node>, nb: Neighbor)
    requires occ.Valid() && |closed| > 0
    requires forall i :: 0 <= i < |open| ==> NodeOk(GreedyPolicy, occ, diag, start, goal, closed, open[i])
    requires HasPos(open, nb.pos)
    ensures Consider(GreedyPolicy, goal, closed, open, nb) == open
  {
    var i :| 0 <= i < |open| && open[i].pos == nb.pos;
    assert NodeOk(GreedyPolicy, occ, diag, start, goal, closed, open[i]);
  }

  /** The positions a search can ever close: the start and the grid cells. */
  function Universe(occ: Occupancy, start: Pos): (u: set<Pos>)
    ensures start in u
    ensures forall p :: occ.InBounds(p) ==> p in u
  {
    var cells := set x: int, y: int | 0 <= x < occ.cols && 0 <= y < occ.rows :: Pos(x, y);
    assert forall p :: occ.InBounds(p) ==> Pos(p.x, p.y) in cells;
    {start} + cells
  }

  function ClosedPositions(closed: seq<Node>): (c: set<Pos>)
    ensures forall i :: 0 <= i < |closed| ==> closed[i].pos in c
    ensures forall p :: p in c ==> exists i :: 0 <= i < |closed| && closed[i].pos == p
  {
    set i | 0 <= i < |closed| :: closed[i].pos
  }

  /** Every node stands on the start or on a grid cell. */
  lemma NodeInUniverse(policy: Policy, occ: Occupancy, diag: bool, start: Pos, goal: Pos, closed: seq<Node>, n: Node)
    requires occ.Valid()
    requires NodeOk(policy, occ, diag, start, goal, closed, n)
    ensures n.pos in Universe(occ, start)
  {
    if n.parent.Some? {
      NeighborsSound(occ, closed[n.parent.value].pos, diag);
    }
  }

  /** An expanding step appends the selected open entry to the closed list. */
  lemma StepClosesSelected(policy: Policy, occ: Occupancy, diag: bool, goal: Pos, s: Snapshot)
    requires occ.Valid()
    requires s.open != [] && !s.finished
    ensures StepSpec(policy, occ, diag, goal, s).closed == s.closed + [s.open[MinIndex(policy, s.open)]]
  {
  }

  /** Closing a position not closed before shrinks what is left to close. */
  lemma ClosingNewShrinks(u: set<Pos>, closed: seq<Node>, n: Node)
    requires n.pos in u && !HasPos(closed, n.pos)
    ensures u - ClosedPositions(closed + [n]) < u - ClosedPositions(closed)
  {
    assert n.pos in u - ClosedPositions(closed);
    forall p | p in ClosedPositions(closed)
      ensures p in ClosedPositions(closed + [n])
    {
      var i :| 0 <= i < |closed| && closed[i].pos == p;
      assert (closed + [n])[i] == closed[i];
    }
    assert (closed + [n])[|closed|] == n;
  }

  /** For the variants that keep positions unique, a step that expands
      closes a position not closed before, so the set of positions still to
      close shrinks: running steps until none expands terminates. */
  lemma StepShrinksUnexplored(policy: Policy, occ: Occupancy, diag: bool, start: Pos, goal: Pos, s: Snapshot)
    requires WellFormed(policy, occ, diag, start, goal, s)
    requires UniquePositions(policy)
    requires s.open != [] && !s.finished
    ensures var s' := StepSpec(policy, occ, diag, goal, s);
      Universe(occ, start) - ClosedPositions(s'.closed) < Universe(occ, start) - ClosedPositions(s.closed)
  {
    var k := MinIndex(policy, s.open);
    var current := s.open[k];
    StepClosesSelected(policy, occ, diag, goal, s);
    assert NodeOk(policy, occ, diag, start, goal, s.closed, current);
    NodeInUniverse(policy, occ, diag, start, goal, s.closed, current);
    ClosingNewShrinks(Universe(occ, start), s.closed, current);
  }

  /** The selected entry is the first open entry of minimal key; it leaves
      the open list (which shrinks by one before the expansion) and becomes the
      last closed entry. */
  lemma StepMovesFirstMinimum(policy: Policy, occ: Occupancy, diag: bool, goal: Pos, s: Snapshot)
    requires occ.Valid()
    requires s.open != [] && !s.finished
    ensures var s' := StepSpec(policy, occ, diag, goal, s);
      exists k :: IsFirstMin(policy, s.open, k) && s'.closed == s.closed + [s.open[k]] &&
        var rest := s.open[..k] + s.open[k + 1..];
        |rest| == |s.open| - 1 &&
        if s.open[k].pos == goal then s'.open == rest && s'.finished
        else !s'.finished && s'.open == Expand(policy, goal, s'.closed, rest, Neighbors(occ, s.open[k].pos, diag))
  {
    var k := MinIndex(policy, s.open);
    MinIndexIsFirstMin(policy, s.open);
  }

  /** Except for Uniform-Cost, considering neighbours only appends: the old
      open list is a prefix of the new one, and each appended entry is the
      candidate of one of the neighbours, at a position not closed. */
  lemma {:induction false} ExpandOnlyAppends(policy: Policy, goal: Pos, closed: seq<Node>, open: seq<Node>, nbrs: seq<Neighbor>)
    requires |closed| > 0 && policy != UniformCostPolicy
    ensures var r := Expand(policy, goal, closed, open, nbrs);
      && |open| <= |r| && r[..|open|] == open
      && forall j :: |open| <= j < |r| ==>
           !HasPos(closed, r[j].pos) && exists k :: 0 <= k < |nbrs| && r[j] == Candidate(policy, goal, closed, nbrs[k])
    decreases |nbrs|
  {
    if nbrs != [] {
      var open' := Consider(policy, goal, closed, open, nbrs[0]);
      ExpandOnlyAppends(policy, goal, closed, open', nbrs[1..]);
      var r := Expand(policy, goal, closed, open, nbrs);
      var r' := Expand(policy, goal, closed, open', nbrs[1..]);
      assert r == r';
      assert open'[..|open|] == open;
      assert r[..|open|] == r[..|open'|][..|open|];
      forall j | |open| <= j < |r|
        ensures !HasPos(closed, r[j].pos) && exists k :: 0 <= k < |nbrs| && r[j] == Candidate(policy, goal, closed, nbrs[k])
      {
        if j < |open'| {
          assert r[j] == open'[j];
          assert r[j] == Candidate(policy, goal, closed, nbrs[0]);
        } else {
          assert !HasPos(closed, r'[j].pos) && exists k :: 0 <= k < |nbrs[1..]| && r'[j] == Candidate(policy, goal, closed, nbrs[1..][k]);
          var k :| 0 <= k < |nbrs[1..]| && r'[j] == Candidate(policy, goal, closed, nbrs[1..][k]);
          assert r[j] == Candidate(policy, goal, closed, nbrs[k + 1]);
        }
      }
    }
  }

  /** Uniform-Cost's relaxation keeps every open entry at its position and
      never raises its `g`; new entries are only appended. */
  lemma {:induction false} RelaxationOnlyLowers(goal: Pos, closed: seq<Node>, open: seq<Node>, nbrs: seq<Neighbor>)
    requires |closed| > 0
    ensures var r := Expand(UniformCostPolicy, goal, closed, open, nbrs);
      && |open| <= |r|
      && forall i :: 0 <= i < |open| ==> r[i].pos == open[i].pos && r[i].g <= open[i].g
    decreases |nbrs|
  {
    if nbrs != [] {
      var open' := Consider(UniformCostPolicy, goal, closed, open, nbrs[0]);
      RelaxationOnlyLowers(goal, closed, open', nbrs[1..]);
      assert |open| <= |open'|;
      assert forall i :: 0 <= i < |open| ==> open'[i].pos == open[i].pos && open'[i].g <= open[i].g;
    }
  }

  /** Steps until nothing is open or the search is finished; for the variants
      that keep positions unique this always ends. */
  function RunToEnd(policy: Policy, occ: Occupancy, diag: bool, start: Pos, goal: Pos, s: Snapshot): (r: Snapshot)
    requires WellFormed(policy, occ, diag, start, goal, s)
    requires UniquePositions(policy)
    ensures WellFormed(policy, occ, diag, start, goal, r)
    ensures r.open == [] || r.finished
    decreases Universe(occ, start) - ClosedPositions(s.closed)
  {
    if s.open == [] || s.finished then s
    else
      StepKeepsWellFormed(policy, occ, diag, start, goal, s);
      StepShrinksUnexplored(policy, occ, diag, start, goal, s);
      RunToEnd(policy, occ, diag, start, goal, StepSpec(policy, occ, diag, goal, s))
  }

  /** `f` applied `n` times to `s`. */
  function Iterate<T>(f: T -> T, s: T, n: nat): T
    decreases n
  {
    if n == 0 then s else f(Iterate(f, s, n - 1))
  }

  lemma IterateNext<T>(f: T -> T, s: T, n: nat, m: nat)
    requires m == n + 1
    ensures Iterate(f, s, m) == f(Iterate(f, s, n))
  {
  }

  /** One step, as a function value. */
  function StepFunction(policy: Policy, occ: Occupancy, diag: bool, goal: Pos): Snapshot -> Snapshot
    requires occ.Valid()
  {
    s => StepSpec(policy, occ, diag, goal, s)
  }

  /** The state after `n` steps from `s` (a step of an exhausted or finished
      search changes nothing). */
  function Steps(policy: Policy, occ: Occupancy, diag: bool, goal: Pos, s: Snapshot, n: nat): Snapshot
    requires occ.Valid()
  {
    Iterate(StepFunction(policy, occ, diag, goal), s, n)
  }

  /** A property `f` preserves holds after any number of applications. */
  lemma {:induction false} IterateKeeps<T>(f: T -> T, inv: T -> bool, s: T, n: nat)
    requires inv(s)
    requires forall x :: inv(x) ==> inv(f(x))
    ensures inv(Iterate(f, s, n))
    decreases n
  {
    if n > 0 {
      IterateKeeps(f, inv, s, n - 1);
    }
  }

  /** Each entry after the first is `f` of the entry before it. */
  ghost predicate Orbit<T>(f: T -> T, h: seq<T>) {
    forall j :: 0 <= j < |h| - 1 ==> f(h[j]) == h[j + 1]
  }

  /** A property `f` preserves holds along an orbit that starts in it. */
  lemma {:induction false} OrbitKeeps<T>(f: T -> T, inv: T -> bool, h: seq<T>, i: nat)
    requires Orbit(f, h) && i < |h| && inv(h[0])
    requires forall x :: inv(x) ==> inv(f(x))
    ensures inv(h[i])
    decreases i
  {
    if i > 0 {
      OrbitKeeps(f, inv, h, i - 1);
      assert f(h[i - 1]) == h[i];
    }
  }

  /** Cutting an orbit after entry `c` and appending `f` of that entry gives
      an orbit. */
  lemma OrbitExtends<T>(f: T -> T, h: seq<T>, c: nat, next: T)
    requires Orbit(f, h) && c < |h| && next == f(h[c])
    ensures Orbit(f, h[..c + 1] + [next])
  {
    var h' := h[..c + 1] + [next];
    forall j | 0 <= j < |h'| - 1
      ensures f(h'[j]) == h'[j + 1]
    {
      assert h'[j] == h[j];
      if j < c {
        assert h'[j + 1] == h[j + 1];
      }
    }
  }

  /** Any number of steps keeps the invariant. */
  lemma StepsKeepWellFormed(policy: Policy, occ: Occupancy, diag: bool, start: Pos, goal: Pos, s: Snapshot, n: nat)
    requires WellFormed(policy, occ, diag, start, goal, s)
    ensures WellFormed(policy, occ, diag, start, goal, Steps(policy, occ, diag, goal, s, n))
  {
    var f := StepFunction(policy, occ, diag, goal);
    var inv := (x: Snapshot) => WellFormed(policy, occ, diag, start, goal, x);
    forall x | inv(x)
      ensures inv(f(x))
    {
      StepKeepsWellFormed(policy, occ, diag, start, goal, x);
    }
    IterateKeeps(f, inv, s, n);
  }

  /** A step from the state after `n` steps is the state after `m = n + 1`. */
  lemma StepsAdvance(policy: Policy, occ: Occupancy, diag: bool, goal: Pos, s: Snapshot, n: nat, m: nat,
                     before: Snapshot, after: Snapshot)
    requires occ.Valid() && m == n + 1
    requires before == Steps(policy, occ, diag, goal, s, n)
    requires after == StepSpec(policy, occ, diag, goal, before)
    ensures after == Steps(policy, occ, diag, goal, s, m)
  {
    var f := StepFunction(policy, occ, diag, goal);
    IterateNext(f, s, n, m);
    assert f(before) == after;
  }
}
