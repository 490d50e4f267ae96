/**
 * Cases of `FindPathsTest` whose expected answer follows from the general
 * facts of module PathFacts: targets cut off from every valued cell, targets
 * next to the root, and the size guard on a 51 x 51 matrix.
 */
module FindPathsCases {
  import opened Wrappers
  import opened Mat
  import opened GraphAdapter
  import opened Paths
  import opened PathFacts
  import opened ShortestSearch
  import opened TestSupport

  /** An empty cell, a 0 of the test matrices once the zeroes are replaced. */
  const O: Option<int> := None
  /** A cell holding the value 1. */
  const I: Option<int> := Some(1)

  const StandardCutOff: Grid :=
    [[I, I, I, I, O],
     [I, I, O, O, I],
     [I, O, I, O, I],
     [I, I, O, I, I],
     [I, I, I, I, I]]

  const CrossCutOff: Grid :=
    [[I, I, I, I],
     [I, I, O, I],
     [I, I, O, I],
     [I, I, I, I]]

  const RegularCutOff: Grid :=
    [[I, I, I, I],
     [I, I, O, I],
     [I, I, O, O],
     [I, I, O, I]]

  const StandardNeighbour: Grid :=
    [[I, I, I, I, O],
     [I, O, I, O, I],
     [I, I, I, O, I],
     [I, O, I, O, I],
     [I, I, I, O, I]]

  const CrossNeighbour: Grid :=
    [[I, O, I, O],
     [O, I, O, I],
     [I, I, I, I],
     [O, I, O, I]]

  // Each case grid is its test matrix with the zeroes replaced by empty cells.

  lemma StandardCutOffFromTest()
    ensures StandardCutOff == NullsForZeroes([[1, 1, 1, 1, 0], [1, 1, 0, 0, 1], [1, 0, 1, 0, 1], [1, 1, 0, 1, 1], [1, 1, 1, 1, 1]])
  {
    NullsForZeroesUnique([[1, 1, 1, 1, 0], [1, 1, 0, 0, 1], [1, 0, 1, 0, 1], [1, 1, 0, 1, 1], [1, 1, 1, 1, 1]], StandardCutOff);
  }

  lemma CrossCutOffFromTest()
    ensures CrossCutOff == NullsForZeroes([[1, 1, 1, 1], [1, 1, 0, 1], [1, 1, 0, 1], [1, 1, 1, 1]])
  {
    NullsForZeroesUnique([[1, 1, 1, 1], [1, 1, 0, 1], [1, 1, 0, 1], [1, 1, 1, 1]], CrossCutOff);
  }

  lemma RegularCutOffFromTest()
    ensures RegularCutOff == NullsForZeroes([[1, 1, 1, 1], [1, 1, 0, 1], [1, 1, 0, 0], [1, 1, 0, 1]])
  {
    NullsForZeroesUnique([[1, 1, 1, 1], [1, 1, 0, 1], [1, 1, 0, 0], [1, 1, 0, 1]], RegularCutOff);
  }

  lemma StandardNeighbourFromTest()
    ensures StandardNeighbour == NullsForZeroes([[1, 1, 1, 1, 0], [1, 0, 1, 0, 1], [1, 1, 1, 0, 1], [1, 0, 1, 0, 1], [1, 1, 1, 0, 1]])
  {
    NullsForZeroesUnique([[1, 1, 1, 1, 0], [1, 0, 1, 0, 1], [1, 1, 1, 0, 1], [1, 0, 1, 0, 1], [1, 1, 1, 0, 1]], StandardNeighbour);
  }

  lemma CrossNeighbourFromTest()
    ensures CrossNeighbour == NullsForZeroes([[1, 0, 1, 0], [0, 1, 0, 1], [1, 1, 1, 1], [0, 1, 0, 1]])
  {
    NullsForZeroesUnique([[1, 0, 1, 0], [0, 1, 0, 1], [1, 1, 1, 1], [0, 1, 0, 1]], CrossNeighbour);
  }

  /** STANDARD, root (0, 0), target (2, 2) whose four orthogonal neighbours are empty: no path. */
  lemma StandardNoPath()
    ensures var g := Graph(Matrix(Standard, StandardCutOff), Index(0, 0));
            AllPaths(g, Index(2, 2)) == {} && ShortestPaths(g, Index(2, 2)) == {}
  {
    var g := Graph(Matrix(Standard, StandardCutOff), Index(0, 0));
    var t := Index(2, 2);
    forall u
      ensures !Step(g, u, t)
    {
      if IsStep(Standard, u, t) {
        assert u in {Index(1, 2), Index(3, 2), Index(2, 1), Index(2, 3)};
      }
    }
    IsolatedTarget(g, t);
  }

  /** CROSS, root (0, 0), target (3, 3) whose only diagonal neighbour (2, 2) is empty: no path. */
  lemma CrossNoPath()
    ensures var g := Graph(Matrix(Cross, CrossCutOff), Index(0, 0));
            AllPaths(g, Index(3, 3)) == {} && ShortestPaths(g, Index(3, 3)) == {}
  {
    var g := Graph(Matrix(Cross, CrossCutOff), Index(0, 0));
    var t := Index(3, 3);
    forall u
      ensures !Step(g, u, t)
    {
      if IsStep(Cross, u, t) {
        assert u in {Index(2, 2), Index(2, 4), Index(4, 2), Index(4, 4)};
      }
    }
    IsolatedTarget(g, t);
  }

  /** REGULAR, root (0, 0), target (3, 3) whose three in-range neighbours are empty: no path. */
  lemma RegularNoPath()
    ensures var g := Graph(Matrix(Regular, RegularCutOff), Index(0, 0));
            AllPaths(g, Index(3, 3)) == {} && ShortestPaths(g, Index(3, 3)) == {}
  {
    var g := Graph(Matrix(Regular, RegularCutOff), Index(0, 0));
    var t := Index(3, 3);
    forall u
      ensures !Step(g, u, t)
    {
      if IsStep(Regular, u, t) {
        assert u in {Index(2, 2), Index(2, 3), Index(2, 4), Index(3, 2), Index(3, 4), Index(4, 2), Index(4, 3), Index(4, 4)};
      }
    }
    IsolatedTarget(g, t);
  }

  /** STANDARD, root (1, 2), target (2, 2) just below it: the one shortest path [(1, 2), (2, 2)]. */
  lemma StandardNeighbourPath()
    ensures var g := Graph(Matrix(Standard, StandardNeighbour), Index(1, 2));
            ShortestPaths(g, Index(2, 2)) == {[Index(1, 2), Index(2, 2)]}
  {
    var g := Graph(Matrix(Standard, StandardNeighbour), Index(1, 2));
    assert Step(g, g.root, Index(2, 2));
    NeighbourTarget(g, Index(2, 2));
  }

  /** CROSS, root (1, 3), target (2, 2) diagonally below it: the one shortest path [(1, 3), (2, 2)]. */
  lemma CrossNeighbourPath()
    ensures var g := Graph(Matrix(Cross, CrossNeighbour), Index(1, 3));
            ShortestPaths(g, Index(2, 2)) == {[Index(1, 3), Index(2, 2)]}
  {
    var g := Graph(Matrix(Cross, CrossNeighbour), Index(1, 3));
    assert Step(g, g.root, Index(2, 2));
    NeighbourTarget(g, Index(2, 2));
  }

  /** A 51 x 51 matrix of empty cells is refused as too large before any search. */
  lemma SizeGuardCase()
    ensures var g := Graph(Matrix(Regular, EmptyGrid(51, 51)), Index(0, 0));
            CheckInput(g, Index(3, 3)) == Some(InputTooLarge) &&
            FindAllPaths(g, Index(3, 3)) == Failure(InputTooLarge)
  {
    var g := Graph(Matrix(Regular, EmptyGrid(51, 51)), Index(0, 0));
    assert GetGraphSize(g) == 51 * 51;
  }

  /**
   * The size-guard test itself: `findShortestPaths((3, 3))` on a 51 x 51
   * matrix of empty cells fails with the too-large error.
   */
  method ShortestSizeGuard() returns (r: Result<set<Path>, SearchError>)
    ensures r == Failure(InputTooLarge)
  {
    var g := Graph(Matrix(Regular, EmptyGrid(51, 51)), Index(0, 0));
    SizeGuardCase();
    r := FindShortestPaths(g, Index(3, 3));
  }
}
