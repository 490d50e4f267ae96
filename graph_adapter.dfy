/**
 * The `IGraph<Index>` view of a matrix (`MatrixGraphAdapter`): a root, the
 * adjacency given by the matrix kind, the reachable relation over cells that
 * hold a value, and the enumeration queries.
 */
module GraphAdapter {
  import opened Wrappers
  import opened Mat

  /** A matrix seen as a graph whose traversals start at `root`. */
  datatype Graph = Graph(matrix: Matrix, root: Index)

  /** A vertex outside the matrix bounds. */
  datatype GraphError = OutOfRange

  /** `getRoot`: the root the graph was built with. */
  function GetRoot(g: Graph): (r: Index)
    ensures r == g.root
  {
    g.root
  }

  /** `contains`: whether the vertex belongs to the graph, that is lies within its rows and columns. */
  predicate Contains(g: Graph, v: Index): (r: bool)
    ensures r <==> 0 <= v.row < g.matrix.Rows() && 0 <= v.col < g.matrix.Cols()
  {
    g.matrix.Contains(v)
  }

  predicate HasValue(g: Graph, v: Index) {
    g.matrix.HasValue(v)
  }

  /** The in-bounds cells reached from `v` by the offsets `ds`, in order. */
  function StepsFrom(m: Matrix, v: Index, ds: seq<(int, int)>): (r: seq<Index>)
    ensures forall u :: u in r <==> m.Contains(u) && (u.row - v.row, u.col - v.col) in ds
  {
    if ds == [] then []
    else
      var u := Index(v.row + ds[0].0, v.col + ds[0].1);
      (if m.Contains(u) then [u] else []) + StepsFrom(m, v, ds[1..])
  }

  /** Different offsets reach different cells, so no cell is listed twice. */
  lemma {:induction false} StepsFromDistinct(m: Matrix, v: Index, ds: seq<(int, int)>)
    requires forall i, j :: 0 <= i < j < |ds| ==> ds[i] != ds[j]
    ensures forall i, j :: 0 <= i < j < |StepsFrom(m, v, ds)| ==> StepsFrom(m, v, ds)[i] != StepsFrom(m, v, ds)[j]
  {
    if ds != [] {
      var rest := StepsFrom(m, v, ds[1..]);
      StepsFromDistinct(m, v, ds[1..]);
      var u := Index(v.row + ds[0].0, v.col + ds[0].1);
      assert ds[0] !in ds[1..] by {
        forall k | 0 <= k < |ds| - 1
          ensures ds[1..][k] != ds[0]
        {
          assert ds[1..][k] == ds[k + 1];
        }
      }
      assert u !in rest;
    }
  }

  /**
   * The adjacent vertices of `v`: every in-bounds cell one step away under the
   * matrix kind, whether or not it holds a value, each listed once.
   */
  function Adjacent(g: Graph, v: Index): (r: seq<Index>)
    ensures forall u :: u in r <==> Contains(g, u) && IsStep(g.matrix.kind, v, u)
    ensures forall i, j :: 0 <= i < j < |r| ==> r[i] != r[j]
  {
    var r := StepsFrom(g.matrix, v, Offsets(g.matrix.kind));
    forall u
      ensures u in r <==> Contains(g, u) && IsStep(g.matrix.kind, v, u)
    {
      OffsetIsStep(g.matrix.kind, v, u);
    }
    StepsFromDistinct(g.matrix, v, Offsets(g.matrix.kind));
    r
  }

  /** One move of a search: from a cell holding a value to an adjacent cell holding a value. */
  predicate Step(g: Graph, v: Index, u: Index) {
    HasValue(g, v) && HasValue(g, u) && IsStep(g.matrix.kind, v, u)
  }

  function FilterValued(g: Graph, s: seq<Index>): (r: seq<Index>)
    ensures forall u :: u in r <==> u in s && HasValue(g, u)
    ensures (forall i, j :: 0 <= i < j < |s| ==> s[i] != s[j]) ==>
              forall i, j :: 0 <= i < j < |r| ==> r[i] != r[j]
  {
    if s == [] then []
    else (if HasValue(g, s[0]) then [s[0]] else []) + FilterValued(g, s[1..])
  }

  /**
   * The reachable vertices of `v`: the adjacent vertices that hold a value,
   * and nothing at all when `v` itself holds no value.
   */
  function Reachable(g: Graph, v: Index): (r: seq<Index>)
    ensures forall u :: u in r <==> u in Adjacent(g, v) && HasValue(g, v) && HasValue(g, u)
    ensures forall u :: u in r <==> Step(g, v, u)
    ensures forall i, j :: 0 <= i < j < |r| ==> r[i] != r[j]
  {
    if HasValue(g, v) then FilterValued(g, Adjacent(g, v)) else []
  }

  /** `getAdjacentVertices`, rejecting a vertex outside the graph. */
  function GetAdjacentVertices(g: Graph, v: Index): (r: Result<seq<Index>, GraphError>)
    ensures r.Failure? <==> !Contains(g, v)
    ensures r.Success? ==> forall u :: u in r.value <==> Contains(g, u) && IsStep(g.matrix.kind, v, u)
  {
    if Contains(g, v) then Success(Adjacent(g, v)) else Failure(OutOfRange)
  }

  /** `getReachableVertices`, rejecting a vertex outside the graph. */
  function GetReachableVertices(g: Graph, v: Index): (r: Result<seq<Index>, GraphError>)
    ensures r.Failure? <==> !Contains(g, v)
    ensures r.Success? ==> forall u :: u in r.value <==> u in Adjacent(g, v) && HasValue(g, v) && HasValue(g, u)
    ensures r.Success? && !HasValue(g, v) ==> r.value == []
  {
    if Contains(g, v) then Success(Reachable(g, v)) else Failure(OutOfRange)
  }

  /**
   * `getValue`: the stored value, None for an empty cell. A stored 0 is
   * `Some(0)`, distinct from an empty cell.
   */
  function GetValue(g: Graph, v: Index): (r: Result<Option<int>, GraphError>)
    ensures r.Failure? <==> !Contains(g, v)
    ensures r.Success? ==> (r.value.Some? <==> HasValue(g, v))
    ensures r.Success? && r.value.Some? ==> g.matrix.cells[v.row][v.col] == Some(r.value.value)
  {
    if Contains(g, v) then Success(g.matrix.Get(v)) else Failure(OutOfRange)
  }

  /** The cells of row `row`, left to right. */
  function RowVertices(row: int, cols: nat): (r: seq<Index>)
    ensures |r| == cols
    ensures forall j :: 0 <= j < cols ==> r[j] == Index(row, j)
  {
    seq(cols, j => Index(row, j))
  }

  /** The cells of rows `from` .. `rows - 1`, in row-major order. */
  function VerticesFrom(from: nat, rows: nat, cols: nat): (r: seq<Index>)
    requires from <= rows
    ensures |r| == (rows - from) * cols
    ensures forall v :: v in r <==> from <= v.row < rows && 0 <= v.col < cols
    ensures forall i, j :: 0 <= i < j < |r| ==> IndexLess(r[i], r[j])
    decreases rows - from
  {
    if from == rows then []
    else
      var head := RowVertices(from, cols);
      var tail := VerticesFrom(from + 1, rows, cols);
      assert |head + tail| == cols + (rows - from - 1) * cols == (rows - from) * cols;
      head + tail
  }

  /**
   * `getVertices`: every vertex of the graph exactly once, in row-major order,
   * `getGraphSize()` of them.
   */
  function GetVertices(g: Graph): (r: seq<Index>)
    ensures |r| == g.matrix.Rows() * g.matrix.Cols()
    ensures forall v :: v in r <==> Contains(g, v)
    ensures forall i, j :: 0 <= i < j < |r| ==> IndexLess(r[i], r[j])
  {
    VerticesFrom(0, g.matrix.Rows(), g.matrix.Cols())
  }

  /** `getGraphSize`: for a matrix, rows times columns, the number of vertices. */
  function GetGraphSize(g: Graph): (r: nat)
    ensures r == |GetVertices(g)|
  {
    g.matrix.Rows() * g.matrix.Cols()
  }

  /** A vertex belongs to the graph exactly when `getVertices` lists it. */
  lemma ContainsIsVertex(g: Graph, v: Index)
    ensures Contains(g, v) <==> v in GetVertices(g)
  {
  }

  /** The pairs (v, u) for each u of `us`. */
  function PairsFrom(v: Index, us: seq<Index>): (r: seq<(Index, Index)>)
    ensures forall e :: e in r <==> e.0 == v && e.1 in us
  {
    if us == [] then [] else [(v, us[0])] + PairsFrom(v, us[1..])
  }

  /** The pairs (v, u) for the vertices v of `vs` and the adjacent vertices u of each. */
  function EdgesOf(g: Graph, vs: seq<Index>): (r: seq<(Index, Index)>)
    ensures forall e :: e in r <==> e.0 in vs && e.1 in Adjacent(g, e.0)
  {
    if vs == [] then [] else PairsFrom(vs[0], Adjacent(g, vs[0])) + EdgesOf(g, vs[1..])
  }

  /** `getEdges`: every ordered pair of a vertex and one of its adjacent vertices. */
  function GetEdges(g: Graph): (r: seq<(Index, Index)>)
    ensures forall v, u :: (v, u) in r <==> Contains(g, v) && Contains(g, u) && IsStep(g.matrix.kind, v, u)
  {
    EdgesOf(g, GetVertices(g))
  }
}
