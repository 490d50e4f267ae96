/**
 * The `FindSubmarines` action and the four submarine rules it documents. The
 * search for submarines itself is not part of this model; its result is a
 * parameter of the action, and the rules are stated as predicates on sets of
 * filled cells with the lemmas that relate them.
 */
module Submarines {
  import opened Wrappers
  import opened Mat
  import opened GraphAdapter

  /** A candidate submarine: a set of cells of the matrix. */
  type Part = set<Index>

  /** The cell `v` has a filled left or right neighbour in `c`. */
  predicate HorizontalPartner(c: Part, v: Index) {
    Index(v.row, v.col - 1) in c || Index(v.row, v.col + 1) in c
  }

  /** The cell `v` has a filled upper or lower neighbour in `c`. */
  predicate VerticalPartner(c: Part, v: Index) {
    Index(v.row - 1, v.col) in c || Index(v.row + 1, v.col) in c
  }

  /** Rule 1: at least two horizontally adjacent cells. */
  predicate HasHorizontalPair(c: Part) {
    exists v :: v in c && HorizontalPartner(c, v)
  }

  /** Rule 2: at least two vertically adjacent cells. */
  predicate HasVerticalPair(c: Part) {
    exists v :: v in c && VerticalPartner(c, v)
  }

  /**
   * Rule 3: two cells that touch diagonally each have a horizontal and a
   * vertical partner of their own.
   */
  predicate DiagonalsBacked(c: Part) {
    forall a, b :: a in c && b in c && IsStep(Cross, a, b) ==>
      HorizontalPartner(c, a) && VerticalPartner(c, a) && HorizontalPartner(c, b) && VerticalPartner(c, b)
  }

  /** Every cell of the part holds a value (a 1-node). */
  predicate Filled(g: Graph, c: Part) {
    forall v :: v in c ==> HasValue(g, v)
  }

  /** A part of the matrix that obeys rules 1 to 3. */
  predicate IsSubmarine(g: Graph, c: Part): (r: bool)
    ensures r ==> |c| >= 4
  {
    if Filled(g, c) && HasHorizontalPair(c) && HasVerticalPair(c) && DiagonalsBacked(c) then
      SubmarineHasFourCells(c);
      true
    else
      false
  }

  /** Rule 4 for two submarines: no cell of one is on or next to (in any of 8 directions) a cell of the other. */
  predicate Apart(s: Part, t: Part): (r: bool)
    ensures r ==> s * t == {}
  {
    forall a, b :: a in s && b in t ==> a != b && !IsStep(Regular, a, b)
  }

  /** Rule 4 for a whole answer: any two different submarines are apart. */
  predicate Separated(subs: set<Part>): (r: bool)
    ensures r ==> forall s, t :: s in subs && t in subs && s != t ==> s * t == {}
  {
    forall s, t :: s in subs && t in subs && s != t ==> Apart(s, t)
  }

  /** Four different members make a set of at least four. */
  lemma AtLeastFour(c: Part, a: Index, b: Index, d: Index, e: Index)
    requires a in c && b in c && d in c && e in c
    requires a != b && a != d && a != e && b != d && b != e && d != e
    ensures |c| >= 4
  {
    var four := {a, b, d, e};
    assert |four| == 4;
    assert c == four + (c - four) && four * (c - four) == {};
  }

  /**
   * Three cells in an L, `h` beside the corner and `u` above or below it,
   * need a fourth: `h` and `u` touch diagonally, so rule 3 asks for a
   * vertical partner of `h`.
   */
  lemma CornerNeedsFourth(c: Part, corner: Index, h: Index, u: Index)
    requires corner in c && h in c && u in c && DiagonalsBacked(c)
    requires h.row == corner.row && Abs(h.col - corner.col) == 1
    requires u.col == corner.col && Abs(u.row - corner.row) == 1
    ensures |c| >= 4
  {
    assert IsStep(Cross, h, u);
    assert VerticalPartner(c, h);
    var h2 := if Index(h.row - 1, h.col) in c then Index(h.row - 1, h.col) else Index(h.row + 1, h.col);
    AtLeastFour(c, corner, h, u, h2);
  }

  /**
   * A submarine has at least four cells: its horizontal pair and its vertical
   * pair are either four different cells or an L that rule 3 completes.
   */
  lemma SubmarineHasFourCells(c: Part)
    requires HasHorizontalPair(c) && HasVerticalPair(c) && DiagonalsBacked(c)
    ensures |c| >= 4
  {
    var v :| v in c && HorizontalPartner(c, v);
    var w := if Index(v.row, v.col - 1) in c then Index(v.row, v.col - 1) else Index(v.row, v.col + 1);
    var x :| x in c && VerticalPartner(c, x);
    var y := if Index(x.row - 1, x.col) in c then Index(x.row - 1, x.col) else Index(x.row + 1, x.col);
    if x == v {
      CornerNeedsFourth(c, v, w, y);
    } else if y == v {
      CornerNeedsFourth(c, v, w, x);
    } else if x == w {
      CornerNeedsFourth(c, w, v, y);
    } else if y == w {
      CornerNeedsFourth(c, w, v, x);
    } else {
      AtLeastFour(c, v, w, x, y);
    }
  }

  /** The filled rectangle with top-left cell (top, left), `height` rows and `width` columns. */
  function Rectangle(top: int, left: int, height: nat, width: nat): (r: Part)
    ensures forall v :: v in r <==> top <= v.row < top + height && left <= v.col < left + width
  {
    set i, j | top <= i < top + height && left <= j < left + width :: Index(i, j)
  }

  /** A filled rectangle of at least two rows and two columns obeys rules 1 to 3. */
  lemma RectangleIsSubmarine(g: Graph, top: int, left: int, height: nat, width: nat)
    requires height >= 2 && width >= 2
    requires Filled(g, Rectangle(top, left, height, width))
    ensures IsSubmarine(g, Rectangle(top, left, height, width))
  {
    var c := Rectangle(top, left, height, width);
    assert Index(top, left) in c && HorizontalPartner(c, Index(top, left)) && VerticalPartner(c, Index(top, left));
    forall v | v in c
      ensures HorizontalPartner(c, v) && VerticalPartner(c, v)
    {
      if v.col + 1 < left + width {
        assert Index(v.row, v.col + 1) in c;
      } else {
        assert Index(v.row, v.col - 1) in c;
      }
      if v.row + 1 < top + height {
        assert Index(v.row + 1, v.col) in c;
      } else {
        assert Index(v.row - 1, v.col) in c;
      }
    }
  }

  /** A straight horizontal segment, however long, breaks rule 2. */
  lemma SegmentIsNotSubmarine(g: Graph, row: int, left: int, width: nat)
    ensures !IsSubmarine(g, Rectangle(row, left, 1, width))
  {
  }

  /** Rule 4 does not depend on which of the two submarines comes first. */
  lemma ApartSymmetric(s: Part, t: Part)
    ensures Apart(s, t) <==> Apart(t, s)
  {
    forall a, b
      ensures IsStep(Regular, a, b) <==> IsStep(Regular, b, a)
    {
      StepSymmetric(Regular, a, b);
    }
  }

  /**
   * Apart submarines do not meet in the graph: no cell of the other one is
   * among the adjacent vertices, in all eight directions, of a cell of the one.
   */
  lemma ApartHasNoAdjacentCell(g: Graph, s: Part, t: Part, a: Index)
    requires g.matrix.kind == Regular && Apart(s, t) && a in s
    ensures forall u :: u in Adjacent(g, a) ==> u !in t
  {
  }

  /** A status code of the response; the values of the HTTP standard (RFC 9110). */
  const NotFound: int := 404
  const Ok: int := 200

  const NoGraphMessage: string := "No graph was initialized. Please put graph or generate one"

  datatype Body = Message(text: string) | Found(submarines: set<Part>)

  /** A response: its status, its content, and whether it answers an HTTP request. */
  datatype Response = Response(status: int, body: Body, isHttp: bool)

  /**
   * `execute`: the graph stored for the client, if any, decides the answer.
   * Without one the response is NOT_FOUND with the "No graph was initialized"
   * message; with one it is OK and carries what the submarine search (`find`)
   * returns for that graph. The response keeps the request's HTTP flag.
   */
  function Execute<C>(graphs: map<C, Graph>, client: C, isHttp: bool, find: Graph -> set<Part>): (r: Response)
    ensures r.isHttp == isHttp
    ensures r.status == NotFound <==> client !in graphs
    ensures r.status == Ok <==> client in graphs
    ensures client !in graphs ==> r.body == Message(NoGraphMessage)
    ensures client in graphs ==> r.body == Found(find(graphs[client]))
  {
    if client !in graphs then Response(NotFound, Message(NoGraphMessage), isHttp)
    else Response(Ok, Found(find(graphs[client])), isHttp)
  }

  /** Storing a graph for the client turns its answer into OK with that graph's submarines. */
  lemma StoredGraphIsFound<C>(graphs: map<C, Graph>, client: C, g: Graph, isHttp: bool, find: Graph -> set<Part>)
    ensures Execute(graphs[client := g], client, isHttp, find) == Response(Ok, Found(find(g)), isHttp)
  {
  }

  /** The graphs stored for other clients play no part in a client's answer. */
  lemma OtherClientsIrrelevant<C>(graphs: map<C, Graph>, client: C, other: C, g: Graph, isHttp: bool, find: Graph -> set<Part>)
    requires other != client
    ensures Execute(graphs[other := g], client, isHttp, find) == Execute(graphs, client, isHttp, find)
  {
  }
}
