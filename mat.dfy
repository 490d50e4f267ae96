/**
 * Grid matrices: the index type, the three matrix kinds with their neighbour
 * rules, and the factory `MatrixType.newInstance`.
 */
module Mat {
  import opened Wrappers

  /** A cell coordinate, `Index.from(row, col)`. */
  datatype Index = Index(row: int, col: int)

  /** Total order used for deterministic enumeration: by row, then by column. */
  predicate IndexLess(a: Index, b: Index) {
    a.row < b.row || (a.row == b.row && a.col < b.col)
  }

  /**
   * The closed set of matrix kinds. Each kind is one implementation class:
   * STANDARD is `StandardMatrix`, CROSS is `CrossMatrix`, REGULAR is `Matrix`.
   */
  datatype MatrixType = Standard | Cross | Regular

  function Abs(x: int): nat {
    if x < 0 then -x else x
  }

  /** Whether the offset (dr, dc) is one step of the given kind. */
  predicate IsOffset(kind: MatrixType, dr: int, dc: int) {
    match kind
    case Standard => Abs(dr) + Abs(dc) == 1
    case Cross => Abs(dr) == 1 && Abs(dc) == 1
    case Regular => Abs(dr) <= 1 && Abs(dc) <= 1 && (dr, dc) != (0, 0)
  }

  /** Whether `b` is one step of the given kind away from `a`. */
  predicate IsStep(kind: MatrixType, a: Index, b: Index) {
    IsOffset(kind, b.row - a.row, b.col - a.col)
  }

  /** The unit steps of each kind, in the fixed order neighbours are listed. */
  function Offsets(kind: MatrixType): (r: seq<(int, int)>)
    ensures forall dr, dc :: (dr, dc) in r <==> IsOffset(kind, dr, dc)
    ensures forall i, j :: 0 <= i < j < |r| ==> r[i] != r[j]
  {
    match kind
    case Standard => [(-1, 0), (0, -1), (0, 1), (1, 0)]
    case Cross => [(-1, -1), (-1, 1), (1, -1), (1, 1)]
    case Regular => [(-1, -1), (-1, 0), (-1, 1), (0, -1), (0, 1), (1, -1), (1, 0), (1, 1)]
  }

  /** The offset from `a` to `b` is listed for the kind exactly when `b` is one step away. */
  lemma OffsetIsStep(kind: MatrixType, a: Index, b: Index)
    ensures (b.row - a.row, b.col - a.col) in Offsets(kind) <==> IsStep(kind, a, b)
  {
  }

  /** Every kind's step relation is symmetric. */
  lemma StepSymmetric(kind: MatrixType, a: Index, b: Index)
    ensures IsStep(kind, a, b) <==> IsStep(kind, b, a)
  {
  }

  /** A REGULAR step is exactly a STANDARD step or a CROSS step. */
  lemma RegularIsStandardOrCross(a: Index, b: Index)
    ensures IsStep(Regular, a, b) <==> IsStep(Standard, a, b) || IsStep(Cross, a, b)
    ensures !(IsStep(Standard, a, b) && IsStep(Cross, a, b))
  {
  }

  /** Rows of equal length. */
  predicate IsRect(cells: seq<seq<Option<int>>>) {
    forall i :: 0 <= i < |cells| ==> |cells[i]| == |cells[0]|
  }

  /** The backing store of a matrix: a rectangular grid of optional values. */
  type Grid = cells: seq<seq<Option<int>>> | IsRect(cells)

  /** A matrix of some kind over a grid of optional values. */
  datatype Matrix = Matrix(kind: MatrixType, cells: Grid)
  {
    function Rows(): nat {
      |cells|
    }

    function Cols(): nat {
      if |cells| == 0 then 0 else |cells[0]|
    }

    predicate Contains(v: Index) {
      0 <= v.row < Rows() && 0 <= v.col < Cols()
    }

    /** The value at `v`; None for an empty cell. */
    function Get(v: Index): Option<int>
      requires Contains(v)
    {
      cells[v.row][v.col]
    }

    /** A cell that holds a value (a non-null Integer). */
    predicate HasValue(v: Index) {
      Contains(v) && Get(v).Some?
    }
  }

  /** A grid of the given dimensions whose every cell is empty. */
  function EmptyGrid(rows: nat, cols: nat): (g: Grid)
    ensures |g| == rows && forall i :: 0 <= i < rows ==> |g[i]| == cols
    ensures forall i, j :: 0 <= i < rows && 0 <= j < cols ==> g[i][j] == None
  {
    seq(rows, i => seq(cols, j => None))
  }

  /**
   * `MatrixType.newInstance(rows, cols)`: a matrix of the kind's class with the
   * requested dimensions, or a regular `Matrix` of the same dimensions when the
   * reflective construction fails. `reflectionFails` stands for that failure,
   * which the model cannot observe.
   */
  function NewInstance(kind: MatrixType, rows: nat, cols: nat, reflectionFails: bool): (m: Matrix)
    ensures m.kind == (if reflectionFails then Regular else kind)
    ensures m.Rows() == rows && (rows > 0 ==> m.Cols() == cols)
    ensures forall v :: m.Contains(v) ==> !m.HasValue(v)
  {
    Matrix(if reflectionFails then Regular else kind, EmptyGrid(rows, cols))
  }
}
