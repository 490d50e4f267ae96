/**
 * `findShortestPaths(target)` as a breadth-first search. Each round extends
 * every path of the current frontier by the reachable cells not seen in an
 * earlier round, so a cell keeps every tied predecessor that first reaches it,
 * and every tied shortest path to the target is produced. The proof runs on
 * the edge set of the reachable relation, where module Layers does the work.
 */
module ShortestSearch {
  import opened Wrappers
  import opened Mat
  import opened GraphAdapter
  import opened Paths
  import opened Layers

  /** The reachable relation of the graph as a finite set of edges. */
  function StepEdges(g: Graph): (r: Edges)
    ensures forall v, u :: (v, u) in r <==> Step(g, v, u)
  {
    var r := set v, u | v in AllCells(g) && u in AllCells(g) && Step(g, v, u) :: (v, u);
    assert forall v, u :: Step(g, v, u) ==> (v, u) in r by {
      forall v, u | Step(g, v, u)
        ensures (v, u) in r
      {
        assert v in AllCells(g) && u in AllCells(g);
      }
    }
    r
  }

  /** A walk of the graph is a walk along its edge set, and back. */
  lemma WalkBridge(g: Graph, p: Path)
    ensures IsWalk(g, p) <==> IsWalkIn(StepEdges(g), g.root, p)
  {
  }

  /** Shortest paths of the graph are the shortest walks along its edge set. */
  lemma ShortestBridge(g: Graph, p: Path, t: Index)
    ensures IsShortestPath(g, p, t) <==> IsShortestIn(StepEdges(g), g.root, p, t)
  {
    var E := StepEdges(g);
    forall q
      ensures IsSimplePath(g, q, t) <==> IsSimpleIn(E, g.root, q, t)
    {
      WalkBridge(g, q);
    }
  }

  /** One round written over `getReachableVertices` is the round of module Layers. */
  lemma ExpandBridge(g: Graph, frontier: set<Path>, visited: set<Index>)
    requires forall p :: p in frontier ==> |p| > 0
    ensures (set p, u | p in frontier && u in Reachable(g, Last(p)) && u !in visited :: p + [u])
            == Expand(StepEdges(g), frontier, visited)
  {
    var E := StepEdges(g);
    var left := set p, u | p in frontier && u in Reachable(g, Last(p)) && u !in visited :: p + [u];
    forall x | x in Expand(E, frontier, visited)
      ensures x in left
    {
      var p, e :| p in frontier && e in E && e.0 == Last(p) && e.1 !in visited && x == p + [e.1];
      assert Step(g, e.0, e.1);
    }
  }

  /** The paths of `ps` that end at `t`. */
  function EndingAt(ps: set<Path>, t: Index): set<Path> {
    set p | p in ps && |p| > 0 && Last(p) == t
  }

  /**
   * One round of the search: the frontier extended by one edge to cells not
   * yet seen, and the seen cells grown by the ends of the new frontier. From
   * the state of round `k` it gives the state of round k + 1.
   */
  method Round(E: Edges, root: Index, ghost k: nat, frontier: set<Path>, visited: set<Index>)
    returns (next: set<Path>, seen: set<Index>)
    requires frontier == LayeredPaths(E, root, k) && visited == Seen(E, root, k)
    ensures next == LayeredPaths(E, root, k + 1) && seen == Seen(E, root, k + 1)
  {
    NextFrontier(E, root, k);
    next := Expand(E, frontier, visited);
    NextSeen(E, root, k);
    seen := visited + Ends(next);
  }

  /** When the search stops, the frontier paths ending at the target are the shortest walks. */
  lemma SearchResult(E: Edges, root: Index, t: Index, k: nat, frontier: set<Path>)
    requires t != root && frontier == LayeredPaths(E, root, k)
    requires k > 0 ==> t !in Seen(E, root, k - 1)
    requires frontier == {} || t in Seen(E, root, k)
    ensures forall p :: p in EndingAt(frontier, t) <==> IsShortestIn(E, root, p, t)
  {
    SearchOutcome(E, root, t, k);
  }

  /**
   * The search proper over the edge set `E`: rounds of `Expand` from the lone
   * root until the frontier is exhausted or the target is seen, then the
   * frontier paths that end at the target.
   */
  method BreadthFirst(E: Edges, root: Index, t: Index) returns (paths: set<Path>)
    requires t != root
    ensures forall p :: p in paths <==> IsShortestIn(E, root, p, t)
  {
    var frontier: set<Path> := {[root]};
    var visited: set<Index> := {root};
    ghost var k: nat := 0;
    while frontier != {} && t !in visited
      invariant frontier == LayeredPaths(E, root, k)
      invariant visited == Seen(E, root, k)
      invariant k > 0 ==> t !in Seen(E, root, k - 1)
      decreases Cells(E, root) - visited, |frontier|
    {
      RoundDecreases(E, root, k);
      frontier, visited := Round(E, root, k, frontier, visited);
      k := k + 1;
    }
    SearchResult(E, root, t, k, frontier);
    paths := EndingAt(frontier, t);
  }

  /**
   * `findShortestPaths(target)`: the input checks of `CheckInput`, then a
   * breadth-first search over the reachable relation that returns every tied
   * shortest simple path from the root to the target, and nothing when the
   * target cannot be reached or is the root itself.
   */
  method FindShortestPaths(g: Graph, t: Index) returns (r: Result<set<Path>, SearchError>)
    ensures r.Failure? <==> CheckInput(g, t).Some?
    ensures r.Failure? ==> r.error == CheckInput(g, t).value
    ensures r.Success? ==> forall p :: p in r.value <==> IsShortestPath(g, p, t)
  {
    var problem := CheckInput(g, t);
    if problem.Some? {
      return Failure(problem.value);
    }
    if t == g.root {
      forall p | true
        ensures !IsSimplePath(g, p, t)
      {
        NoPathBackToRoot(g, p);
      }
      return Success({});
    }
    var paths := BreadthFirst(StepEdges(g), g.root, t);
    forall p
      ensures p in paths <==> IsShortestPath(g, p, t)
    {
      ShortestBridge(g, p, t);
    }
    r := Success(paths);
  }
}
