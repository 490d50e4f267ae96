/**
 * The two helpers of `FindPathsTest`: `replaceZeroesWithNulls`, which turns
 * the 0 cells of a test matrix into empty cells in place, and
 * `pathsValidation`, which compares the expected paths with the returned ones.
 */
module TestSupport {
  import opened Wrappers
  import opened Mat
  import opened Paths

  /** What `replaceZeroesWithNulls` does to one cell: a 0 becomes empty, anything else stays. */
  function ZeroToNull(c: Option<int>): (r: Option<int>)
    ensures r == None <==> c == None || c == Some(0)
    ensures r.Some? ==> r == c
  {
    if c == Some(0) then None else c
  }

  /** The grid a test matrix of integers stands for once its zeroes are replaced. */
  function NullsForZeroes(rows: seq<seq<int>>): (r: seq<seq<Option<int>>>)
    ensures |r| == |rows| && forall i :: 0 <= i < |rows| ==> |r[i]| == |rows[i]|
    ensures forall i, j :: 0 <= i < |rows| && 0 <= j < |rows[i]| ==>
              (r[i][j] == None <==> rows[i][j] == 0) && (rows[i][j] != 0 ==> r[i][j] == Some(rows[i][j]))
  {
    if rows == [] then []
    else [seq(|rows[0]|, j requires 0 <= j < |rows[0]| => ZeroToNull(Some(rows[0][j])))] + NullsForZeroes(rows[1..])
  }

  /** A grid that agrees cell by cell with the replaced matrix is the grid the matrix stands for. */
  lemma NullsForZeroesUnique(rows: seq<seq<int>>, g: seq<seq<Option<int>>>)
    requires |g| == |rows| && forall i :: 0 <= i < |rows| ==> |g[i]| == |rows[i]|
    requires forall i, j :: 0 <= i < |rows| && 0 <= j < |rows[i]| ==> g[i][j] == ZeroToNull(Some(rows[i][j]))
    ensures NullsForZeroes(rows) == g
  {
    var r := NullsForZeroes(rows);
    forall i | 0 <= i < |rows|
      ensures r[i] == g[i]
    {
      assert |r[i]| == |g[i]|;
    }
  }

  /** A rectangular test matrix stays rectangular. */
  lemma NullsForZeroesRect(rows: seq<seq<int>>)
    requires forall i :: 0 <= i < |rows| ==> |rows[i]| == |rows[0]|
    ensures IsRect(NullsForZeroes(rows))
  {
  }

  /**
   * `replaceZeroesWithNulls(matrix)`: every 0 cell becomes empty and every
   * other cell keeps its value, in place; the same array is returned. No cell
   * may be empty on entry: the comparison with 0 unboxes every cell.
   */
  method ReplaceZeroesWithNulls(m: array2<Option<int>>) returns (r: array2<Option<int>>)
    requires forall i, j :: 0 <= i < m.Length0 && 0 <= j < m.Length1 ==> m[i, j].Some?
    modifies m
    ensures r == m
    ensures forall i, j :: 0 <= i < m.Length0 && 0 <= j < m.Length1 ==> m[i, j] == ZeroToNull(old(m[i, j]))
    ensures forall i, j :: 0 <= i < m.Length0 && 0 <= j < m.Length1 ==> m[i, j] != Some(0)
    ensures (forall i, j :: 0 <= i < m.Length0 && 0 <= j < m.Length1 ==> old(m[i, j]) != Some(0)) ==>
              forall i, j :: 0 <= i < m.Length0 && 0 <= j < m.Length1 ==> m[i, j] == old(m[i, j])
  {
    var i := 0;
    while i < m.Length0
      invariant 0 <= i <= m.Length0
      invariant forall a, b :: 0 <= a < i && 0 <= b < m.Length1 ==> m[a, b] == ZeroToNull(old(m[a, b]))
      invariant forall a, b :: i <= a < m.Length0 && 0 <= b < m.Length1 ==> m[a, b] == old(m[a, b])
    {
      var j := 0;
      while j < m.Length1
        invariant 0 <= j <= m.Length1
        invariant forall a, b :: 0 <= a < i && 0 <= b < m.Length1 ==> m[a, b] == ZeroToNull(old(m[a, b]))
        invariant forall b :: 0 <= b < j ==> m[i, b] == ZeroToNull(old(m[i, b]))
        invariant forall b :: j <= b < m.Length1 ==> m[i, b] == old(m[i, b])
        invariant forall a, b :: i < a < m.Length0 && 0 <= b < m.Length1 ==> m[a, b] == old(m[a, b])
      {
        if m[i, j].value == 0 {
          m[i, j] := None;
        }
        j := j + 1;
      }
      i := i + 1;
    }
    r := m;
  }

  /** A cell holding anything but 0 is kept: on a matrix without zeroes the helper changes nothing. */
  lemma ZeroFreeCellKept(c: Option<int>)
    requires c.Some? && c.value != 0
    ensures ZeroToNull(c) == c
  {
  }

  /**
   * `pathsValidation(expected, actual)`: the two collections have the same
   * size and every expected path is among the returned ones. The assertion
   * failures of the test are the `false` answer.
   */
  method PathsValidation(expected: seq<Path>, actual: seq<Path>) returns (ok: bool)
    ensures ok <==> |expected| == |actual| && forall p :: p in expected ==> p in actual
  {
    if |expected| != |actual| {
      return false;
    }
    var i := 0;
    while i < |expected|
      invariant 0 <= i <= |expected|
      invariant forall k :: 0 <= k < i ==> expected[k] in actual
    {
      if expected[i] !in actual {
        return false;
      }
      i := i + 1;
    }
    return true;
  }

  predicate NoDuplicates(ps: seq<Path>) {
    forall i, j :: 0 <= i < j < |ps| ==> ps[i] != ps[j]
  }

  function Members(ps: seq<Path>): set<Path> {
    set p | p in ps
  }

  /** A list without duplicates has as many members as entries. */
  lemma {:induction false} MembersCount(ps: seq<Path>)
    requires NoDuplicates(ps)
    ensures |Members(ps)| == |ps|
  {
    if ps != [] {
      MembersCount(ps[1..]);
      assert Members(ps) == Members(ps[1..]) + {ps[0]};
      assert ps[0] !in Members(ps[1..]);
    }
  }

  /**
   * The check is a set comparison: when neither list repeats a path, passing
   * it means both hold exactly the same paths.
   */
  lemma ValidationIsSetEquality(expected: seq<Path>, actual: seq<Path>)
    requires NoDuplicates(expected) && NoDuplicates(actual)
    ensures (|expected| == |actual| && forall p :: p in expected ==> p in actual) <==>
            Members(expected) == Members(actual)
  {
    MembersCount(expected);
    MembersCount(actual);
    var a, b := Members(expected), Members(actual);
    if |expected| == |actual| && forall p :: p in expected ==> p in actual {
      assert a <= b;
      assert b == a + (b - a) && a * (b - a) == {};
      assert |b - a| == 0;
    }
    if a == b {
      forall p | p in expected
        ensures p in actual
      {
        assert p in a;
      }
    }
  }
}
