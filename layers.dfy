/**
 * Breadth-first layers over a finite edge relation. Seen(k) holds the cells
 * reached from the root within k steps and Layer(k) those first reached after
 * exactly k steps; LayeredPaths(k) holds every walk that meets the layers in
 * order, which is the frontier a breadth-first search keeps after round k.
 */
module Layers {
  import opened Mat
  import opened Paths

  type Edges = set<(Index, Index)>

  /** Starts at `root` and follows edges of `E` only. */
  predicate IsWalkIn(E: Edges, root: Index, p: Path) {
    |p| >= 1 && p[0] == root &&
    forall i :: 0 <= i < |p| - 1 ==> (p[i], p[i + 1]) in E
  }

  /** A walk to `t` of at least two cells that visits no cell twice. */
  predicate IsSimpleIn(E: Edges, root: Index, p: Path, t: Index) {
    IsWalkIn(E, root, p) && |p| >= 2 && Last(p) == t && Distinct(p)
  }

  /** A simple walk to `t` that no other simple walk to `t` beats. */
  ghost predicate IsShortestIn(E: Edges, root: Index, p: Path, t: Index) {
    IsSimpleIn(E, root, p, t) && forall q :: IsSimpleIn(E, root, q, t) ==> |p| <= |q|
  }

  /** The cells one edge away from some cell of `s`. */
  function Next(E: Edges, s: set<Index>): set<Index> {
    set e | e in E && e.0 in s :: e.1
  }

  lemma NextHas(E: Edges, s: set<Index>, v: Index, u: Index)
    requires v in s && (v, u) in E
    ensures u in Next(E, s)
  {
    assert (v, u).1 == u;
  }

  /** The cells reached within `k` steps from the root. */
  ghost function Seen(E: Edges, root: Index, k: nat): set<Index> {
    if k == 0 then {root} else var s := Seen(E, root, k - 1); s + Next(E, s)
  }

  /** The cells first reached after exactly `k` steps from the root. */
  ghost function Layer(E: Edges, root: Index, k: nat): set<Index> {
    if k == 0 then {root} else Seen(E, root, k) - Seen(E, root, k - 1)
  }

  lemma SeenUnfold(E: Edges, root: Index, k: nat)
    requires k > 0
    ensures Seen(E, root, k) == Seen(E, root, k - 1) + Next(E, Seen(E, root, k - 1))
  {
  }

  lemma {:induction false} SeenGrows(E: Edges, root: Index, i: nat, j: nat)
    requires i <= j
    ensures Seen(E, root, i) <= Seen(E, root, j)
    decreases j - i
  {
    if i < j {
      SeenGrows(E, root, i, j - 1);
      SeenUnfold(E, root, j);
    }
  }

  /** A step from a cell seen within `j` steps reaches a cell seen within j + 1 steps. */
  lemma SeenStep(E: Edges, root: Index, j: nat, v: Index, u: Index)
    requires v in Seen(E, root, j) && (v, u) in E
    ensures u in Seen(E, root, j + 1)
  {
    NextHas(E, Seen(E, root, j), v, u);
    SeenUnfold(E, root, j + 1);
  }

  /** Layer `k` lies within the cells seen in `k` steps. */
  lemma LayerInSeen(E: Edges, root: Index, k: nat)
    ensures Layer(E, root, k) <= Seen(E, root, k)
  {
  }

  lemma LayersDisjoint(E: Edges, root: Index, i: nat, j: nat, v: Index)
    requires i < j && v in Layer(E, root, i)
    ensures v !in Layer(E, root, j)
  {
    LayerInSeen(E, root, i);
    SeenGrows(E, root, i, j - 1);
  }

  /** The i-th cell of a walk is reached within i steps. */
  lemma {:induction false} WalkInSeen(E: Edges, root: Index, p: Path, i: nat)
    requires IsWalkIn(E, root, p) && i < |p|
    ensures p[i] in Seen(E, root, i)
  {
    if i > 0 {
      WalkInSeen(E, root, p, i - 1);
      SeenStep(E, root, i - 1, p[i - 1], p[i]);
    }
  }

  /**
   * A walk that reaches its i-th cell early (within i - 1 steps) reaches every
   * later cell early too.
   */
  lemma {:induction false} SeenShortcut(E: Edges, root: Index, q: Path, i: nat, m: nat)
    requires IsWalkIn(E, root, q) && 0 < i <= m < |q| && q[i] in Seen(E, root, i - 1)
    ensures q[m] in Seen(E, root, m - 1)
    decreases m - i
  {
    if i < m {
      SeenShortcut(E, root, q, i, m - 1);
      SeenStep(E, root, m - 2, q[m - 1], q[m]);
    }
  }

  /** Once a round discovers nothing, the next round sees nothing new. */
  lemma EmptyLayerNoGrowth(E: Edges, root: Index, k: nat)
    requires k > 0 && Layer(E, root, k) == {}
    ensures Seen(E, root, k + 1) == Seen(E, root, k)
  {
    SeenUnfold(E, root, k);
    SeenUnfold(E, root, k + 1);
    SeenGrows(E, root, k - 1, k);
    forall x | x in Seen(E, root, k)
      ensures x in Seen(E, root, k - 1)
    {
      assert x !in Layer(E, root, k);
    }
    assert Seen(E, root, k) == Seen(E, root, k - 1);
  }

  /** Once a round discovers nothing, no later round does. */
  lemma {:induction false} EmptyLayerStaysEmpty(E: Edges, root: Index, k: nat, m: nat)
    requires k > 0 && Layer(E, root, k) == {} && k <= m
    ensures Seen(E, root, m) == Seen(E, root, k)
    decreases m - k
  {
    if k < m {
      EmptyLayerStaysEmpty(E, root, k, m - 1);
      EmptyLayerNoGrowth(E, root, k);
      SeenUnfold(E, root, m);
      SeenUnfold(E, root, k + 1);
    }
  }

  /** Each cell of `p` lies in the layer of its position. */
  ghost predicate InLayers(E: Edges, root: Index, p: Path) {
    forall i :: 0 <= i < |p| ==> p[i] in Layer(E, root, i)
  }

  /** A walk of k + 1 cells that meets each layer in order: a shortest way to its end. */
  ghost predicate IsLayered(E: Edges, root: Index, p: Path, k: nat) {
    IsWalkIn(E, root, p) && |p| == k + 1 && InLayers(E, root, p)
  }

  lemma WalkPrefix(E: Edges, root: Index, p: Path, n: nat)
    requires IsWalkIn(E, root, p) && 0 < n <= |p|
    ensures IsWalkIn(E, root, p[..n])
  {
    var q := p[..n];
    assert forall i :: 0 <= i < n ==> q[i] == p[i];
  }

  lemma WalkAppend(E: Edges, root: Index, p: Path, u: Index)
    requires IsWalkIn(E, root, p) && (Last(p), u) in E
    ensures IsWalkIn(E, root, p + [u])
  {
    var q := p + [u];
    assert forall i :: 0 <= i < |p| ==> q[i] == p[i];
  }

  lemma InLayersPrefix(E: Edges, root: Index, p: Path, n: nat)
    requires InLayers(E, root, p) && n <= |p|
    ensures InLayers(E, root, p[..n])
  {
    var q := p[..n];
    assert forall i :: 0 <= i < n ==> q[i] == p[i];
  }

  lemma InLayersAppend(E: Edges, root: Index, p: Path, u: Index)
    requires InLayers(E, root, p) && u in Layer(E, root, |p|)
    ensures InLayers(E, root, p + [u])
  {
    var q := p + [u];
    assert forall i :: 0 <= i < |p| ==> q[i] == p[i];
  }

  /** A layered walk extended by an edge into the next layer stays layered. */
  lemma AppendLayered(E: Edges, root: Index, p: Path, u: Index, k: nat)
    requires k > 0 && IsLayered(E, root, p, k - 1) && (Last(p), u) in E && u in Layer(E, root, k)
    ensures IsLayered(E, root, p + [u], k)
  {
    WalkAppend(E, root, p, u);
    InLayersAppend(E, root, p, u);
  }

  /** A layered walk of k + 1 cells is a layered walk of k cells and one more edge. */
  lemma TrimLayered(E: Edges, root: Index, p: Path, k: nat)
    requires k > 0 && IsLayered(E, root, p, k)
    ensures IsLayered(E, root, p[..k], k - 1) && (Last(p[..k]), p[k]) in E && p == p[..k] + [p[k]]
  {
    WalkPrefix(E, root, p, k);
    InLayersPrefix(E, root, p, k);
    assert Last(p[..k]) == p[k - 1];
  }

  /** The frontier of round `k`: the paths of round k - 1 extended by an edge into layer `k`. */
  ghost function LayeredPaths(E: Edges, root: Index, k: nat): (r: set<Path>)
    ensures forall p :: p in r ==> |p| == k + 1
  {
    if k == 0 then {[root]}
    else
      var prev := LayeredPaths(E, root, k - 1);
      set p, e | p in prev && e in E && e.0 == Last(p) && e.1 in Layer(E, root, k) :: p + [e.1]
  }

  /** Every path of `ps` is a layered walk of k + 1 cells. */
  ghost predicate AllLayered(E: Edges, root: Index, ps: set<Path>, k: nat) {
    forall p :: p in ps ==> IsLayered(E, root, p, k)
  }

  /** A path of the frontier of round `k` is layered when those of round k - 1 are. */
  lemma LayeredExtensionSound(E: Edges, root: Index, p: Path, k: nat)
    requires k > 0 && p in LayeredPaths(E, root, k)
    requires AllLayered(E, root, LayeredPaths(E, root, k - 1), k - 1)
    ensures IsLayered(E, root, p, k)
  {
    var q, e :| q in LayeredPaths(E, root, k - 1) && e in E && e.0 == Last(q) &&
                e.1 in Layer(E, root, k) && p == q + [e.1];
    AppendLayered(E, root, q, e.1, k);
  }

  /** Every path of the frontier of round `k` is layered. */
  lemma {:induction false} LayeredPathsSound(E: Edges, root: Index, k: nat)
    ensures AllLayered(E, root, LayeredPaths(E, root, k), k)
  {
    if k == 0 {
      assert IsLayered(E, root, [root], 0);
    } else {
      LayeredPathsSound(E, root, k - 1);
      forall p | p in LayeredPaths(E, root, k)
        ensures IsLayered(E, root, p, k)
      {
        LayeredExtensionSound(E, root, p, k);
      }
    }
  }

  /** A layered path belongs to the frontier when its prefix belongs to the previous one. */
  lemma LayeredPathFromPrefix(E: Edges, root: Index, p: Path, k: nat)
    requires k > 0 && IsLayered(E, root, p, k) && p[..k] in LayeredPaths(E, root, k - 1)
    ensures p in LayeredPaths(E, root, k)
  {
    TrimLayered(E, root, p, k);
    var e := (Last(p[..k]), p[k]);
    assert p == p[..k] + [e.1];
  }

  /** Every layered path is in the frontier of round `k`. */
  lemma {:induction false} LayeredPathsComplete(E: Edges, root: Index, k: nat)
    ensures forall p :: IsLayered(E, root, p, k) ==> p in LayeredPaths(E, root, k)
  {
    if k == 0 {
      forall p | IsLayered(E, root, p, 0)
        ensures p in LayeredPaths(E, root, 0)
      {
        assert p == [root];
      }
    } else {
      LayeredPathsComplete(E, root, k - 1);
      forall p | IsLayered(E, root, p, k)
        ensures p in LayeredPaths(E, root, k)
      {
        TrimLayered(E, root, p, k);
        LayeredPathFromPrefix(E, root, p, k);
      }
    }
  }

  /** A cell first reached in round `k` has a predecessor first reached in round k - 1. */
  lemma PreviousLayer(E: Edges, root: Index, k: nat, v: Index) returns (u: Index)
    requires k > 0 && v in Layer(E, root, k)
    ensures u in Layer(E, root, k - 1) && (u, v) in E
  {
    SeenUnfold(E, root, k);
    var e :| e in E && e.0 in Seen(E, root, k - 1) && v == e.1;
    u := e.0;
  }

  /** Every cell of layer `k` ends some layered walk. */
  lemma {:induction false} LayerHasPath(E: Edges, root: Index, k: nat, v: Index) returns (p: Path)
    requires v in Layer(E, root, k)
    ensures IsLayered(E, root, p, k) && Last(p) == v
  {
    if k == 0 {
      p := [root];
      assert IsLayered(E, root, p, 0);
    } else {
      var u := PreviousLayer(E, root, k, v);
      var q := LayerHasPath(E, root, k - 1, u);
      AppendLayered(E, root, q, v, k);
      p := q + [v];
    }
  }

  /**
   * A walk of k + 1 cells to a target not seen within k - 1 steps meets every
   * layer in order: it can have no shortcut.
   */
  lemma LateWalkIsLayered(E: Edges, root: Index, q: Path, t: Index, k: nat)
    requires IsWalkIn(E, root, q) && |q| == k + 1 && Last(q) == t
    requires k > 0 ==> t !in Seen(E, root, k - 1)
    ensures IsLayered(E, root, q, k)
  {
    forall i | 0 <= i < |q|
      ensures q[i] in Layer(E, root, i)
    {
      WalkInSeen(E, root, q, i);
      if i > 0 && q[i] in Seen(E, root, i - 1) {
        SeenShortcut(E, root, q, i, k);
      }
    }
  }

  /** A layered walk visits no cell twice, since the layers are disjoint. */
  lemma LayeredIsDistinct(E: Edges, root: Index, p: Path, k: nat)
    requires IsLayered(E, root, p, k)
    ensures Distinct(p)
  {
    forall i, j | 0 <= i < j < |p|
      ensures p[i] != p[j]
    {
      LayersDisjoint(E, root, i, j, p[i]);
    }
  }

  /** The cells the paths of `ps` end at. */
  function Ends(ps: set<Path>): set<Index> {
    set p | p in ps && |p| > 0 :: Last(p)
  }

  /** The cells the frontier of round `k` ends at are exactly layer `k`. */
  lemma LayerEnds(E: Edges, root: Index, k: nat)
    ensures Ends(LayeredPaths(E, root, k)) == Layer(E, root, k)
  {
    LayeredPathsSound(E, root, k);
    LayeredPathsComplete(E, root, k);
    forall v | v in Layer(E, root, k)
      ensures v in Ends(LayeredPaths(E, root, k))
    {
      var p := LayerHasPath(E, root, k, v);
    }
    forall p | p in LayeredPaths(E, root, k)
      ensures Last(p) in Layer(E, root, k)
    {
      assert IsLayered(E, root, p, k);
    }
  }

  /** The paths one search round makes from `frontier`: one edge further, to a cell not yet `visited`. */
  function Expand(E: Edges, frontier: set<Path>, visited: set<Index>): (r: set<Path>)
    requires forall p :: p in frontier ==> |p| > 0
    ensures forall q :: q in r ==> |q| >= 2
  {
    set p, e | p in frontier && e in E && e.0 == Last(p) && e.1 !in visited :: p + [e.1]
  }

  /** A cell one edge beyond the frontier of round `k` is new exactly when it lies in layer k + 1. */
  lemma NextLayerIsUnseen(E: Edges, root: Index, k: nat, p: Path, u: Index)
    requires p in LayeredPaths(E, root, k) && (Last(p), u) in E
    ensures u in Layer(E, root, k + 1) <==> u !in Seen(E, root, k)
  {
    LayeredPathsSound(E, root, k);
    assert p[k] in Layer(E, root, k);
    LayerInSeen(E, root, k);
    SeenStep(E, root, k, Last(p), u);
  }

  /** One round of the search turns the frontier of round `k` into that of round k + 1. */
  lemma NextFrontier(E: Edges, root: Index, k: nat)
    ensures Expand(E, LayeredPaths(E, root, k), Seen(E, root, k)) == LayeredPaths(E, root, k + 1)
  {
    forall p, e | p in LayeredPaths(E, root, k) && e in E && e.0 == Last(p)
      ensures e.1 in Layer(E, root, k + 1) <==> e.1 !in Seen(E, root, k)
    {
      NextLayerIsUnseen(E, root, k, p, e.1);
    }
  }

  /** The seen cells of round k + 1: those of round `k` and the ends of the new frontier. */
  lemma NextSeen(E: Edges, root: Index, k: nat)
    ensures Seen(E, root, k) + Ends(LayeredPaths(E, root, k + 1)) == Seen(E, root, k + 1)
  {
    LayerEnds(E, root, k + 1);
    SeenGrows(E, root, k, k + 1);
    var a, b := Seen(E, root, k), Seen(E, root, k + 1);
    assert Layer(E, root, k + 1) == b - a;
    forall x | x in b
      ensures x in a + (b - a)
    {
    }
  }

  /** Every cell a search can ever see: the root and the heads of the edges. */
  function Cells(E: Edges, root: Index): set<Index> {
    {root} + set e | e in E :: e.1
  }

  lemma {:induction false} SeenInCells(E: Edges, root: Index, k: nat)
    ensures Seen(E, root, k) <= Cells(E, root)
  {
    if k > 0 {
      SeenInCells(E, root, k - 1);
      SeenUnfold(E, root, k);
    }
  }

  /** A round either sees a new cell or leaves an empty frontier. */
  lemma RoundProgress(E: Edges, root: Index, k: nat)
    ensures Seen(E, root, k + 1) != Seen(E, root, k) || LayeredPaths(E, root, k + 1) == {}
  {
    if LayeredPaths(E, root, k + 1) != {} {
      LayeredPathsSound(E, root, k + 1);
      var p :| p in LayeredPaths(E, root, k + 1);
      assert p[k + 1] in Layer(E, root, k + 1);
    }
  }

  /** Removing more from a set leaves strictly less. */
  lemma DiffShrinks(c: set<Index>, v: set<Index>, w: set<Index>)
    requires v <= w <= c && w != v
    ensures c - w < c - v
  {
    var x :| x in w && x !in v;
    assert x in c - v;
  }

  /**
   * The measure of the search: a round either leaves fewer cells unseen or
   * leaves an empty frontier and nothing newly seen.
   */
  lemma RoundDecreases(E: Edges, root: Index, k: nat)
    ensures Cells(E, root) - Seen(E, root, k + 1) < Cells(E, root) - Seen(E, root, k) ||
            (LayeredPaths(E, root, k + 1) == {} && Seen(E, root, k + 1) == Seen(E, root, k))
  {
    RoundProgress(E, root, k);
    SeenInCells(E, root, k + 1);
    SeenGrows(E, root, k, k + 1);
    if Seen(E, root, k + 1) != Seen(E, root, k) {
      DiffShrinks(Cells(E, root), Seen(E, root, k), Seen(E, root, k + 1));
    }
  }

  /** Every simple walk to a target unseen within k - 1 steps has at least k + 1 cells. */
  lemma ShortestAtLeast(E: Edges, root: Index, t: Index, k: nat, q: Path)
    requires k > 0 && t !in Seen(E, root, k - 1) && IsSimpleIn(E, root, q, t)
    ensures |q| >= k + 1
  {
    WalkInSeen(E, root, q, |q| - 1);
    if |q| < k + 1 {
      SeenGrows(E, root, |q| - 1, k - 1);
    }
  }

  /** A frontier path ending at the target is a shortest walk to it. */
  lemma FrontierPathIsShortest(E: Edges, root: Index, t: Index, k: nat, p: Path)
    requires k > 0 && t !in Seen(E, root, k - 1)
    requires p in LayeredPaths(E, root, k) && Last(p) == t
    ensures IsShortestIn(E, root, p, t)
  {
    LayeredPathsSound(E, root, k);
    LayeredIsDistinct(E, root, p, k);
    forall q | IsSimpleIn(E, root, q, t)
      ensures |p| <= |q|
    {
      ShortestAtLeast(E, root, t, k, q);
    }
  }

  /** A shortest walk to a target first reached in round `k` belongs to the frontier of round `k`. */
  lemma ShortestIsInFrontier(E: Edges, root: Index, t: Index, k: nat, q: Path)
    requires k > 0 && t !in Seen(E, root, k - 1) && t in Seen(E, root, k)
    requires IsShortestIn(E, root, q, t)
    ensures q in LayeredPaths(E, root, k)
  {
    var best := LayerHasPath(E, root, k, t);
    LayeredIsDistinct(E, root, best, k);
    assert IsSimpleIn(E, root, best, t);
    ShortestAtLeast(E, root, t, k, q);
    LateWalkIsLayered(E, root, q, t, k);
    LayeredPathsComplete(E, root, k);
  }

  /** With an empty frontier at round `k` and the target unseen, no walk reaches the target. */
  lemma UnreachedHasNoWalk(E: Edges, root: Index, t: Index, k: nat, q: Path)
    requires t !in Seen(E, root, k) && LayeredPaths(E, root, k) == {}
    ensures !IsSimpleIn(E, root, q, t)
  {
    if IsSimpleIn(E, root, q, t) {
      LayerEnds(E, root, k);
      assert Layer(E, root, k) == {};
      WalkInSeen(E, root, q, |q| - 1);
      if |q| - 1 <= k {
        SeenGrows(E, root, |q| - 1, k);
      } else {
        EmptyLayerStaysEmpty(E, root, k, |q| - 1);
      }
    }
  }

  /**
   * When the search stops at round `k`, with the frontier exhausted or the
   * target seen, the frontier paths ending at the target are exactly the
   * shortest walks to it.
   */
  lemma SearchOutcome(E: Edges, root: Index, t: Index, k: nat)
    requires t != root
    requires k > 0 ==> t !in Seen(E, root, k - 1)
    requires LayeredPaths(E, root, k) == {} || t in Seen(E, root, k)
    ensures forall p :: p in LayeredPaths(E, root, k) && Last(p) == t <==> IsShortestIn(E, root, p, t)
  {
    if t in Seen(E, root, k) {
      forall p | p in LayeredPaths(E, root, k) && Last(p) == t
        ensures IsShortestIn(E, root, p, t)
      {
        FrontierPathIsShortest(E, root, t, k, p);
      }
      forall q | IsShortestIn(E, root, q, t)
        ensures q in LayeredPaths(E, root, k) && Last(q) == t
      {
        ShortestIsInFrontier(E, root, t, k, q);
      }
    } else {
      forall q | IsShortestIn(E, root, q, t)
        ensures false
      {
        UnreachedHasNoWalk(E, root, t, k, q);
      }
    }
  }
}
