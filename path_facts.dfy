/**
 * Properties of the two searches that the `FindPaths` tests rely on: what a
 * returned path looks like, how the shortest results relate to all results,
 * and the closed-form answers for a target next to the root and for a target
 * no valued cell leads to.
 */
module PathFacts {
  import opened Mat
  import opened GraphAdapter
  import opened Paths

  /** Every cell of a returned path holds a value, and consecutive cells are neighbours. */
  lemma {:induction false} PathCellsValued(g: Graph, p: Path, t: Index)
    requires IsSimplePath(g, p, t)
    ensures p[0] == g.root && p[|p| - 1] == t
    ensures forall i :: 0 <= i < |p| ==> HasValue(g, p[i])
    ensures forall i :: 0 <= i < |p| - 1 ==> IsStep(g.matrix.kind, p[i], p[i + 1])
  {
    forall i | 0 <= i < |p|
      ensures HasValue(g, p[i])
    {
      if i < |p| - 1 {
        assert Step(g, p[i], p[i + 1]);
      } else {
        assert Step(g, p[i - 1], p[i]);
      }
    }
  }

  /** Every shortest path is also one of all the paths. */
  lemma ShortestWithinAll(g: Graph, t: Index)
    ensures ShortestPaths(g, t) <= AllPaths(g, t)
  {
  }

  /** Tied shortest paths all have the same number of cells. */
  lemma ShortestTied(g: Graph, t: Index, p: Path, q: Path)
    requires p in ShortestPaths(g, t) && q in ShortestPaths(g, t)
    ensures |p| == |q|
  {
  }

  /** Some path of `ps` is no longer than `p`, and no path of `ps` is shorter than it. */
  lemma {:induction false} HasShortest(ps: set<Path>, p: Path) returns (m: Path)
    requires p in ps
    ensures m in ps && |m| <= |p|
    ensures forall q :: q in ps ==> |m| <= |q|
    decreases |p|
  {
    if q :| q in ps && |q| < |p| {
      m := HasShortest(ps, q);
    } else {
      m := p;
    }
  }

  /** The shortest search finds nothing exactly when the all-paths search finds nothing. */
  lemma ShortestEmptyIffNone(g: Graph, t: Index)
    ensures ShortestPaths(g, t) == {} <==> AllPaths(g, t) == {}
  {
    if p :| p in AllPaths(g, t) {
      var m := HasShortest(AllPaths(g, t), p);
      assert IsShortestPath(g, m, t);
    }
  }

  /**
   * A target that is a reachable neighbour of the root has the single
   * two-cell shortest path [root, target].
   */
  lemma NeighbourTarget(g: Graph, t: Index)
    requires Step(g, g.root, t) && t != g.root
    ensures ShortestPaths(g, t) == {[g.root, t]}
  {
    var p := [g.root, t];
    assert IsSimplePath(g, p, t);
    assert IsShortestPath(g, p, t);
    forall q | q in ShortestPaths(g, t)
      ensures q == p
    {
      assert |q| <= |p|;
      assert q == [q[0], q[1]];
    }
  }

  /** A target that no valued cell steps to is reached by no path at all. */
  lemma IsolatedTarget(g: Graph, t: Index)
    requires forall u :: !Step(g, u, t)
    ensures AllPaths(g, t) == {} && ShortestPaths(g, t) == {}
  {
    assert forall p :: p in AllPaths(g, t) ==> Step(g, p[|p| - 2], p[|p| - 1]);
    ShortestEmptyIffNone(g, t);
  }
}
