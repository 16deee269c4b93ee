/** Search nodes, the minimum-key scan and path reconstruction, which the four
    pathfinders share. */
module SearchNodes {
  import opened Geometry

  /** A search node. `parent` is the index, in the closed list, of the node
      this one was reached from (`None` for the start node): a node's parent
      is always the node being expanded, which has just been appended to the
      closed list and is never changed afterwards. Two nodes are "the same"
      for the algorithms when their positions are equal. */
  datatype Node = Node(pos: Pos, parent: Option<nat>, g: real, h: real, f: real)

  /** The state a pathfinder exposes and a history entry copies. */
  datatype Snapshot = Snapshot(open: seq<Node>, closed: seq<Node>, path: Option<seq<Pos>>, finished: bool)

  /** The four cost policies. */
  datatype Policy = AStarPolicy | DijkstraPolicy | GreedyPolicy | UniformCostPolicy

  /** The key the selection scan compares: `f`, except for Uniform-Cost,
      which compares `g`. */
  function Key(policy: Policy, n: Node): real {
    if policy == UniformCostPolicy then n.g else n.f
  }

  /** `k` is the first index of an entry whose key is minimal. */
  predicate IsFirstMin(policy: Policy, open: seq<Node>, k: int) {
    && 0 <= k < |open|
    && (forall j :: 0 <= j < |open| ==> Key(policy, open[k]) <= Key(policy, open[j]))
    && (forall j :: 0 <= j < k ==> Key(policy, open[k]) < Key(policy, open[j]))
  }

  /** The index the selection scan picks. */
  function MinIndex(policy: Policy, open: seq<Node>): (k: nat)
    requires |open| > 0
    ensures k < |open|
    decreases |open|
  {
    if |open| == 1 then 0
    else
      var k := MinIndex(policy, open[..|open| - 1]);
      if Key(policy, open[|open| - 1]) < Key(policy, open[k]) then |open| - 1 else k
  }

  /** The scan picks the first entry of minimal key. */
  lemma {:induction false} MinIndexIsFirstMin(policy: Policy, open: seq<Node>)
    requires |open| > 0
    ensures IsFirstMin(policy, open, MinIndex(policy, open))
    decreases |open|
  {
    if |open| > 1 {
      var init := open[..|open| - 1];
      MinIndexIsFirstMin(policy, init);
      assert forall j :: 0 <= j < |init| ==> init[j] == open[j];
    }
  }

  /** The selection scan: start with entry 0 and replace the incumbent by
      every entry whose key is strictly smaller. */
  method SelectFirstMin(policy: Policy, open: seq<Node>) returns (k: nat)
    requires |open| > 0
    ensures IsFirstMin(policy, open, k)
    ensures k == MinIndex(policy, open)
  {
    k := 0;
    var i := 0;
    while i < |open|
      invariant 0 <= i <= |open| && k <= i && k < |open|
      invariant forall j :: 0 <= j < i ==> Key(policy, open[k]) <= Key(policy, open[j])
      invariant forall j :: 0 <= j < k ==> Key(policy, open[k]) < Key(policy, open[j])
    {
      if Key(policy, open[i]) < Key(policy, open[k]) {
        k := i;
      }
      i := i + 1;
    }
    MinIndexIsFirstMin(policy, open);
    FirstMinUnique(policy, open, k, MinIndex(policy, open));
  }

  lemma FirstMinUnique(policy: Policy, open: seq<Node>, k1: int, k2: int)
    requires IsFirstMin(policy, open, k1) && IsFirstMin(policy, open, k2)
    ensures k1 == k2
  {
    assert Key(policy, open[k1]) == Key(policy, open[k2]);
  }

  /** Every parent index points to an earlier closed entry. */
  ghost predicate Linked(closed: seq<Node>) {
    forall i :: 0 <= i < |closed| && closed[i].parent.Some? ==> closed[i].parent.value < i
  }

  /** The positions from the root of the parent chain of `closed[i]` to
      `closed[i]` itself. The walk also stops at a parent index that does
      not point backwards, which never happens in a `Linked` list. */
  function Chain(closed: seq<Node>, i: int): seq<Pos>
    requires 0 <= i < |closed|
    decreases i
  {
    var n := closed[i];
    if n.parent.Some? && n.parent.value < i then Chain(closed, n.parent.value) + [n.pos] else [n.pos]
  }

  /** `s[::-1]`. */
  function Reverse<T>(s: seq<T>): (r: seq<T>)
    ensures |r| == |s|
    ensures forall i :: 0 <= i < |s| ==> r[i] == s[|s| - 1 - i]
    decreases |s|
  {
    if s == [] then [] else [s[|s| - 1]] + Reverse(s[..|s| - 1])
  }

  /** Walks the parent links from `closed[i]`, collecting positions, and
      reverses them. */
  method ReconstructPath(closed: seq<Node>, i: int) returns (path: seq<Pos>)
    requires Linked(closed) && 0 <= i < |closed|
    ensures path == Chain(closed, i)
  {
    var walked: seq<Pos> := [];
    var current: Option<nat> := Some(i);
    while current.Some?
      invariant current.Some? ==> current.value <= i
      invariant Chain(closed, i) == (if current.Some? then Chain(closed, current.value) else []) + Reverse(walked)
      decreases if current.Some? then current.value + 1 else 0
    {
      var n := closed[current.value];
      assert (walked + [n.pos])[..|walked|] == walked;
      walked := walked + [n.pos];
      current := n.parent;
    }
    path := Reverse(walked);
  }

  /** The squared Euclidean distance `dx² + dy²` used as heuristic by A* and
      Greedy. */
  function SquaredDistance(a: Pos, b: Pos): (d: int)
    ensures d >= 0
    ensures d == 0 <==> a == b
  {
    SquareFacts(a.x - b.x);
    SquareFacts(a.y - b.y);
    (a.x - b.x) * (a.x - b.x) + (a.y - b.y) * (a.y - b.y)
  }

  lemma SquareFacts(n: int)
    ensures n * n >= 0 && (n * n == 0 <==> n == 0)
  {
    if n < 0 {
      assert n * n == (-n) * (-n);
    }
  }
}
