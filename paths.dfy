/**
 * What `FindPaths` computes: simple root-to-target paths over the reachable
 * relation, all of them (depth-first backtracking) or the tied shortest ones,
 * behind the input-size guard.
 */
module Paths {
  import opened Wrappers
  import opened Mat
  import opened GraphAdapter

  /** A path is the ordered list of the cells it visits. */
  type Path = seq<Index>

  function Last(p: Path): Index
    requires |p| > 0
  {
    p[|p| - 1]
  }

  /** Starts at the root and moves along reachable edges only. */
  predicate IsWalk(g: Graph, p: Path) {
    |p| >= 1 && p[0] == g.root &&
    forall i :: 0 <= i < |p| - 1 ==> Step(g, p[i], p[i + 1])
  }

  predicate Distinct(p: Path) {
    forall i, j :: 0 <= i < j < |p| ==> p[i] != p[j]
  }

  /**
   * A result path of `findAllPaths(target)`: from the root to `t` through cells
   * holding a value, each step a neighbour under the matrix kind, no cell
   * twice. A lone root is not a path, so the root never reaches itself.
   */
  predicate IsSimplePath(g: Graph, p: Path, t: Index) {
    IsWalk(g, p) && |p| >= 2 && Last(p) == t && Distinct(p)
  }

  /** No simple path leads from the root back to the root. */
  lemma NoPathBackToRoot(g: Graph, p: Path)
    ensures !IsSimplePath(g, p, g.root)
  {
  }

  /** A result path of `findShortestPaths(target)`: a simple path no other one beats. */
  ghost predicate IsShortestPath(g: Graph, p: Path, t: Index) {
    IsSimplePath(g, p, t) && forall q :: IsSimplePath(g, q, t) ==> |p| <= |q|
  }

  /** Every cell of the matrix. */
  function AllCells(g: Graph): (r: set<Index>)
    ensures forall v :: v in r <==> Contains(g, v)
  {
    set i, j | 0 <= i < g.matrix.Rows() && 0 <= j < g.matrix.Cols() :: Index(i, j)
  }

  function Elements(p: Path): set<Index> {
    set v | v in p
  }

  /**
   * Backtracking from the partial path `path`: every simple path to `t` that
   * continues `path`.
   */
  function Extend(g: Graph, t: Index, path: Path): (r: set<Path>)
    requires IsWalk(g, path) && Distinct(path)
    ensures forall p :: p in r <==> IsSimplePath(g, p, t) && path <= p
    decreases AllCells(g) - Elements(path), 1, 0
  {
    if Last(path) == t then
      assert forall p :: IsSimplePath(g, p, t) && path <= p ==> p == path by {
        forall p | IsSimplePath(g, p, t) && path <= p ensures p == path {
          if |p| > |path| {
            assert false;
          }
        }
      }
      if |path| >= 2 then {path} else {}
    else
      ExtendVia(g, t, path, Reachable(g, Last(path)))
  }

  /**
   * The simple paths to `t` that continue `path` with one of the cells `nbrs`
   * (reachable from the end of `path`) and then on.
   */
  function ExtendVia(g: Graph, t: Index, path: Path, nbrs: seq<Index>): (r: set<Path>)
    requires IsWalk(g, path) && Distinct(path) && Last(path) != t
    requires forall u :: u in nbrs ==> Step(g, Last(path), u)
    ensures forall p :: p in r <==>
              IsSimplePath(g, p, t) && path < p && p[|path|] in nbrs
    decreases AllCells(g) - Elements(path), 0, |nbrs|
  {
    if nbrs == [] then {}
    else
      var u := nbrs[0];
      var rest := ExtendVia(g, t, path, nbrs[1..]);
      if u in path then rest
      else
        assert u in nbrs;
        assert Step(g, Last(path), u);
        assert Contains(g, u);
        assert Elements(path + [u]) == Elements(path) + {u};
        Extend(g, t, path + [u]) + rest
  }

  /** Every simple path from the root to `t`, by depth-first backtracking. */
  function AllPaths(g: Graph, t: Index): (r: set<Path>)
    ensures forall p :: p in r <==> IsSimplePath(g, p, t)
  {
    Extend(g, t, [g.root])
  }

  /** The members of `all` that no member of `all` is shorter than. */
  function ShortestOf(all: set<Path>): set<Path> {
    set p | p in all && forall q | q in all :: |p| <= |q|
  }

  /** Reference definition of the tied shortest paths: the shortest of all simple paths. */
  function ShortestPaths(g: Graph, t: Index): (r: set<Path>)
    ensures forall p :: p in r <==> IsShortestPath(g, p, t)
  {
    ShortestOf(AllPaths(g, t))
  }

  /** The largest graph a search accepts: 50 x 50 cells. */
  const MaxGraphSize: nat := 2500

  datatype SearchError = InputTooLarge | VertexOutOfRange

  /**
   * The checks made before any search: the size guard first, then the root and
   * the target must lie inside the matrix.
   */
  function CheckInput(g: Graph, t: Index): (r: Option<SearchError>)
    ensures r == Some(InputTooLarge) <==> GetGraphSize(g) > MaxGraphSize
    ensures r == None <==> GetGraphSize(g) <= MaxGraphSize && Contains(g, g.root) && Contains(g, t)
  {
    if GetGraphSize(g) > MaxGraphSize then Some(InputTooLarge)
    else if !Contains(g, g.root) || !Contains(g, t) then Some(VertexOutOfRange)
    else None
  }

  /** `findAllPaths(target)`: every simple path, or the error the input checks raise. */
  function FindAllPaths(g: Graph, t: Index): (r: Result<set<Path>, SearchError>)
    ensures r.Failure? <==> CheckInput(g, t).Some?
    ensures r.Failure? ==> (r.error == InputTooLarge <==> GetGraphSize(g) > MaxGraphSize)
    ensures r.Success? ==> forall p :: p in r.value <==> IsSimplePath(g, p, t)
  {
    match CheckInput(g, t)
    case Some(e) => Failure(e)
    case None => Success(AllPaths(g, t))
  }
}
