/** The step-by-step testing scene's history: snapshots of the selected
    pathfinder, a cursor into them, stepping forward (discarding any future
    beyond the cursor) and stepping back (restoring the pathfinder). */
module Testing {
  import opened Geometry
  import opened SearchNodes
  import opened SearchSpec
  import opened Grids
  import opened AStar
  import opened Dijkstra
  import opened Greedy
  import opened UniformCost

  /** An iteration counter after one call to `step`: it grows by one when
      the call progressed; a pathfinder without a counter stays without. */
  function Bump(count: Option<nat>, progressed: bool): (r: Option<nat>)
    ensures r.Some? == count.Some?
    ensures r.Some? ==> r.value == count.value + (if progressed then 1 else 0)
  {
    match count
    case None => None
    case Some(n) => Some(if progressed then n + 1 else n)
  }

  /** The selected pathfinder, one of the four. */
  datatype Algorithm =
    | AStarAlgo(astar: AStarPathfinder)
    | DijkstraAlgo(dijkstra: DijkstraPathfinder)
    | GreedyAlgo(greedy: GreedyPathfinder)
    | UniformCostAlgo(uniformCost: UniformCostPathfinder)
  {
    function Obj(): object {
      match this
      case AStarAlgo(p) => p
      case DijkstraAlgo(p) => p
      case GreedyAlgo(p) => p
      case UniformCostAlgo(p) => p
    }

    function Kind(): Policy {
      match this
      case AStarAlgo(_) => AStarPolicy
      case DijkstraAlgo(_) => DijkstraPolicy
      case GreedyAlgo(_) => GreedyPolicy
      case UniformCostAlgo(_) => UniformCostPolicy
    }

    function Occ(): Occupancy {
      match this
      case AStarAlgo(p) => p.occ
      case DijkstraAlgo(p) => p.occ
      case GreedyAlgo(p) => p.occ
      case UniformCostAlgo(p) => p.occ
    }

    function Diag(): bool {
      match this
      case AStarAlgo(p) => p.allowDiagonal
      case DijkstraAlgo(p) => p.allowDiagonal
      case GreedyAlgo(p) => p.allowDiagonal
      case UniformCostAlgo(p) => p.allowDiagonal
    }

    function Start(): Option<Pos>
      reads Obj()
    {
      match this
      case AStarAlgo(p) => p.startPos
      case DijkstraAlgo(p) => p.startPos
      case GreedyAlgo(p) => p.startPos
      case UniformCostAlgo(p) => p.startPos
    }

    function Goal(): Option<Pos>
      reads Obj()
    {
      match this
      case AStarAlgo(p) => p.goalPos
      case DijkstraAlgo(p) => p.goalPos
      case GreedyAlgo(p) => p.goalPos
      case UniformCostAlgo(p) => p.goalPos
    }

    /** The iteration counter; Uniform-Cost keeps none. */
    function Iterations(): Option<nat>
      reads Obj()
    {
      match this
      case AStarAlgo(p) => Some(p.iterations)
      case DijkstraAlgo(p) => Some(p.iterations)
      case GreedyAlgo(p) => Some(p.iterations)
      case UniformCostAlgo(p) => None
    }

    /** Open list, closed list, path and finished flag: what a snapshot
        copies. */
    function Snap(): Snapshot
      reads Obj()
    {
      match this
      case AStarAlgo(p) => p.Snap()
      case DijkstraAlgo(p) => p.Snap()
      case GreedyAlgo(p) => p.Snap()
      case UniformCostAlgo(p) => p.Snap()
    }

    ghost predicate Valid()
      reads Obj()
    {
      match this
      case AStarAlgo(p) => p.Valid()
      case DijkstraAlgo(p) => p.Valid()
      case GreedyAlgo(p) => p.Valid()
      case UniformCostAlgo(p) => p.Valid()
    }

    /** The pathfinder has been initialised (its state is then well formed,
        as `Valid` requires). */
    ghost predicate Searching()
      reads Obj()
    {
      Valid() && Occ().Valid() && Start().Some? && Goal().Some?
    }

    method InitializeSearch(start: Pos, goal: Pos)
      requires Occ().Valid()
      modifies Obj()
      ensures Searching() && Start() == Some(start) && Goal() == Some(goal)
      ensures Snap() == InitialSnapshot(Kind(), start, goal)
      ensures Iterations() == if UniformCostAlgo? then None else Some(0)
    {
      match this
      case AStarAlgo(p) => p.InitializeSearch(start, goal);
      case DijkstraAlgo(p) => p.InitializeSearch(start, goal);
      case GreedyAlgo(p) => p.InitializeSearch(start, goal);
      case UniformCostAlgo(p) => p.InitializeSearch(start, goal);
    }

    method Step()
      requires Searching()
      modifies Obj()
      ensures Searching() && Start() == old(Start()) && Goal() == old(Goal())
      ensures Snap() == StepSpec(Kind(), Occ(), Diag(), Goal().value, old(Snap()))
      ensures Iterations() == Bump(old(Iterations()), old(Snap()).open != [] && !old(Snap()).finished)
    {
      ghost var count, before := Iterations(), Snap();
      ghost var progressed := before.open != [] && !before.finished;
      match this
      case AStarAlgo(p) =>
        var _ := p.Step();
        assert p.iterations == count.value + (if progressed then 1 else 0);
      case DijkstraAlgo(p) =>
        var _ := p.Step();
        assert p.iterations == count.value + (if progressed then 1 else 0);
      case GreedyAlgo(p) =>
        var _ := p.Step();
        assert p.iterations == count.value + (if progressed then 1 else 0);
      case UniformCostAlgo(p) =>
        var _ := p.Step();
    }

    /** Overwrites the open list, closed list, path and finished flag with a
        snapshot's; the iteration counter is left as it is. */
    method Restore(s: Snapshot)
      requires Searching()
      requires WellFormed(Kind(), Occ(), Diag(), Start().value, Goal().value, s)
      modifies Obj()
      ensures Searching() && Start() == old(Start()) && Goal() == old(Goal())
      ensures Snap() == s && Iterations() == old(Iterations())
    {
      match this
      case AStarAlgo(p) => p.Restore(s);
      case DijkstraAlgo(p) => p.Restore(s);
      case GreedyAlgo(p) => p.Restore(s);
      case UniformCostAlgo(p) => p.Restore(s);
    }
  }

  /** A history starts at initialisation and each entry is one step from the
      entry before it. */
  ghost predicate Trace(policy: Policy, occ: Occupancy, diag: bool, start: Pos, goal: Pos, history: seq<Snapshot>)
    requires occ.Valid()
  {
    && |history| > 0
    && history[0] == InitialSnapshot(policy, start, goal)
    && Orbit(StepFunction(policy, occ, diag, goal), history)
  }

  /** Every recorded state is well formed. */
  lemma TraceWellFormed(policy: Policy, occ: Occupancy, diag: bool, start: Pos, goal: Pos,
                        history: seq<Snapshot>, i: nat)
    requires occ.Valid() && Trace(policy, occ, diag, start, goal, history) && i < |history|
    ensures WellFormed(policy, occ, diag, start, goal, history[i])
  {
    var f := StepFunction(policy, occ, diag, goal);
    var inv := (x: Snapshot) => WellFormed(policy, occ, diag, start, goal, x);
    InitialWellFormed(policy, occ, diag, start, goal);
    forall x | inv(x)
      ensures inv(f(x))
    {
      StepKeepsWellFormed(policy, occ, diag, start, goal, x);
    }
    OrbitKeeps(f, inv, history, i);
  }

  /** Keeping the entries up to `c` and appending one step from entry `c`
      gives a history of the same kind. */
  lemma TraceExtends(policy: Policy, occ: Occupancy, diag: bool, start: Pos, goal: Pos,
                     history: seq<Snapshot>, c: nat, next: Snapshot)
    requires occ.Valid() && Trace(policy, occ, diag, start, goal, history) && c < |history|
    requires next == StepSpec(policy, occ, diag, goal, history[c])
    ensures Trace(policy, occ, diag, start, goal, history[..c + 1] + [next])
  {
    var f := StepFunction(policy, occ, diag, goal);
    assert next == f(history[c]);
    OrbitExtends(f, history, c, next);
  }

  class TestingScene {
    const grid: Grid
    const pathfinder: Algorithm
    var history: seq<Snapshot>
    var currentStep: int

    /** After a reset: the cursor is inside the history, entry `i` is the
        state after `i` steps, and the pathfinder shows the entry at the
        cursor. */
    ghost predicate Ready()
      reads this, grid, pathfinder.Obj()
    {
      && OnOwnGrid()
      && pathfinder.Searching()
      && 0 <= currentStep < |history|
      && Trace(pathfinder.Kind(), pathfinder.Occ(), pathfinder.Diag(),
               pathfinder.Start().value, pathfinder.Goal().value, history)
      && pathfinder.Snap() == history[currentStep]
    }

    /** The pathfinder searches this scene's own grid. */
    ghost predicate OnOwnGrid()
      reads grid
    {
      pathfinder.Occ() == grid.View()
    }

    constructor(grid: Grid, pathfinder: Algorithm)
      requires pathfinder.Occ() == grid.View()
      ensures OnOwnGrid()
      ensures this.grid == grid && this.pathfinder == pathfinder
      ensures history == [] && currentStep == -1
    {
      this.grid := grid;
      this.pathfinder := pathfinder;
      history := [];
      currentStep := -1;
    }

    /** Initialises the pathfinder on the grid's start and end points and
        keeps only its initial snapshot. */
    method ResetSearch()
      requires grid.startPos.Some? && grid.endPos.Some?
      requires OnOwnGrid() && grid.View().Valid()
      modifies this, pathfinder.Obj()
      ensures Ready()
      ensures pathfinder.Start() == grid.startPos && pathfinder.Goal() == grid.endPos
      ensures currentStep == 0
      ensures history == [InitialSnapshot(pathfinder.Kind(), grid.startPos.value, grid.endPos.value)]
      ensures pathfinder.Iterations() == if pathfinder.UniformCostAlgo? then None else Some(0)
    {
      history := [];
      currentStep := 0;
      pathfinder.InitializeSearch(grid.startPos.value, grid.endPos.value);
      history := history + [pathfinder.Snap()];
    }

    /** Unless the search is finished: drops the history after the cursor,
        performs one step and records its snapshot at the new cursor. */
    method StepForward()
      requires Ready()
      modifies this, pathfinder.Obj()
      ensures Ready()
      ensures pathfinder.Start() == old(pathfinder.Start()) && pathfinder.Goal() == old(pathfinder.Goal())
      ensures pathfinder.Iterations() ==
                Bump(old(pathfinder.Iterations()), old(pathfinder.Snap()).open != [] && !old(pathfinder.Snap()).finished)
      ensures old(pathfinder.Snap().finished) ==>
                history == old(history) && currentStep == old(currentStep) && pathfinder.Snap() == old(pathfinder.Snap())
      ensures !old(pathfinder.Snap().finished) ==>
                && currentStep == old(currentStep) + 1 == |history| - 1
                && history == old(history[..currentStep + 1]) +
                     [StepSpec(pathfinder.Kind(), pathfinder.Occ(), pathfinder.Diag(), pathfinder.Goal().value,
                               old(history[currentStep]))]
    {
      if pathfinder.Snap().finished {
        return;
      }
      Advance();
    }

    /** The unfinished case of stepping forward. */
    method Advance()
      requires Ready() && !pathfinder.Snap().finished
      modifies this, pathfinder.Obj()
      ensures Ready()
      ensures pathfinder.Start() == old(pathfinder.Start()) && pathfinder.Goal() == old(pathfinder.Goal())
      ensures pathfinder.Iterations() == Bump(old(pathfinder.Iterations()), old(pathfinder.Snap()).open != [])
      ensures currentStep == old(currentStep) + 1 == |history| - 1
      ensures history == old(history[..currentStep + 1]) +
                [StepSpec(pathfinder.Kind(), pathfinder.Occ(), pathfinder.Diag(), pathfinder.Goal().value,
                          old(history[currentStep]))]
    {
      ghost var policy, occ, diag := pathfinder.Kind(), pathfinder.Occ(), pathfinder.Diag();
      ghost var start, goal := pathfinder.Start().value, pathfinder.Goal().value;
      ghost var c := currentStep;
      ghost var before := history;
      assert pathfinder.Obj() != this;
      if currentStep < |history| - 1 {
        history := history[..currentStep + 1];
      }
      assert history == before[..c + 1];
      TraceWellFormed(policy, occ, diag, start, goal, before, c);
      pathfinder.Step();
      TraceExtends(policy, occ, diag, start, goal, before, c, pathfinder.Snap());
      history := history + [pathfinder.Snap()];
      currentStep := currentStep + 1;
    }

    /** Moves the cursor back by one, when it can, and restores the
        pathfinder to the snapshot there; the history is kept. */
    method StepBack()
      requires Ready()
      modifies this, pathfinder.Obj()
      ensures Ready()
      ensures pathfinder.Start() == old(pathfinder.Start()) && pathfinder.Goal() == old(pathfinder.Goal())
      ensures history == old(history)
      ensures currentStep == if old(currentStep) > 0 then old(currentStep) - 1 else old(currentStep)
      ensures old(currentStep) == 0 ==> pathfinder.Snap() == old(pathfinder.Snap())
      ensures pathfinder.Iterations() == old(pathfinder.Iterations())
    {
      if currentStep > 0 {
        currentStep := currentStep - 1;
        TraceWellFormed(pathfinder.Kind(), pathfinder.Occ(), pathfinder.Diag(),
                        pathfinder.Start().value, pathfinder.Goal().value, history, currentStep);
        pathfinder.Restore(history[currentStep]);
      }
    }
  }
}
