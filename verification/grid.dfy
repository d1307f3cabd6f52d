/**
 * The rectangular grid graph: cells, the four directions, the two kinds of
 * edge, and the full edge set of a `sx` by `sy` grid.  The grid dimensions
 * are the source's module constants SIZEX and SIZEY, here parameters.
 */
module Grid {

  /** A coordinate pair. The source uses the same tuples for grid fields,
      for the virtual entrance and exit cells and for direction vectors. */
  datatype Cell = Cell(x: int, y: int)

  const North := Cell(-1, 0)
  const West := Cell(0, -1)
  const South := Cell(1, 0)
  const East := Cell(0, 1)

  /** The directions in the order the source lists them. */
  const Dirs: seq<Cell> := [North, East, South, West]

  /** Component-wise sum of two coordinate pairs. */
  function Add(a: Cell, b: Cell): Cell {
    Cell(a.x + b.x, a.y + b.y)
  }

  /** An edge of the maze.  `Link` is a grid edge: an unordered pair held as a
      set, so `Link({a, b}) == Link({b, a})`.  `Virtual` is an ordered pair;
      the source uses it only for the entrance and the exit edge. */
  datatype Edge = Link(ends: set<Cell>) | Virtual(src: Cell, dst: Cell)

  /** The grid edge between two cells. */
  function CreateEdge(a: Cell, b: Cell): Edge {
    Link({a, b})
  }

  /** The cells an edge touches. */
  function EndSet(e: Edge): set<Cell> {
    match e
    case Link(s) => s
    case Virtual(a, b) => {a, b}
  }

  /** An edge that can be taken apart into two endpoints: any ordered pair,
      and an unordered pair with exactly two distinct cells. */
  predicate Unpackable(e: Edge) {
    e.Virtual? || |e.ends| == 2
  }

  /** The two cells are one step apart along one axis. */
  predicate UnitApart(a: Cell, b: Cell) {
    || (a.x == b.x && (a.y + 1 == b.y || b.y + 1 == a.y))
    || (a.y == b.y && (a.x + 1 == b.x || b.x + 1 == a.x))
  }

  /** The cells of the grid: all pairs of a row index below `sx` and a
      column index below `sy`. */
  function Fields(sx: int, sy: int): (r: set<Cell>)
    ensures forall c :: c in r <==> 0 <= c.x < sx && 0 <= c.y < sy
  {
    var r := set x, y | 0 <= x < sx && 0 <= y < sy :: Cell(x, y);
    assert forall c: Cell :: 0 <= c.x < sx && 0 <= c.y < sy ==> Cell(c.x, c.y) in r;
    r
  }

  predicate IsInside(sx: int, sy: int, c: Cell) {
    c in Fields(sx, sy)
  }

  /** Keeps the cells of `cs` that lie inside the grid, in order. */
  function InsideOnly(sx: int, sy: int, cs: seq<Cell>): (r: seq<Cell>)
    ensures forall c :: c in r <==> c in cs && IsInside(sx, sy, c)
    ensures |r| <= |cs|
  {
    if cs == [] then []
    else if IsInside(sx, sy, cs[0]) then [cs[0]] + InsideOnly(sx, sy, cs[1..])
    else InsideOnly(sx, sy, cs[1..])
  }

  /** Filtering distributes over concatenation, so the kept cells appear in
      the order of `cs`. */
  lemma {:induction false} InsideOnlyAppend(sx: int, sy: int, a: seq<Cell>, b: seq<Cell>)
    ensures InsideOnly(sx, sy, a + b) == InsideOnly(sx, sy, a) + InsideOnly(sx, sy, b)
  {
    if a != [] {
      assert (a + b)[0] == a[0] && (a + b)[1..] == a[1..] + b;
      InsideOnlyAppend(sx, sy, a[1..], b);
    } else {
      assert a + b == b;
    }
  }

  /** The in-grid cells one direction step away from `c`, in direction order. */
  function Neighbors(sx: int, sy: int, c: Cell): (r: seq<Cell>)
    ensures forall n :: n in r <==> IsInside(sx, sy, n) && UnitApart(c, n)
  {
    var steps := [Add(c, Dirs[0]), Add(c, Dirs[1]), Add(c, Dirs[2]), Add(c, Dirs[3])];
    StepsAreUnitApart(c, steps);
    InsideOnly(sx, sy, steps)
  }

  /** The four direction steps from `c` are exactly the cells one step apart
      from it. */
  lemma StepsAreUnitApart(c: Cell, steps: seq<Cell>)
    requires steps == [Add(c, Dirs[0]), Add(c, Dirs[1]), Add(c, Dirs[2]), Add(c, Dirs[3])]
    ensures forall n :: n in steps <==> UnitApart(c, n)
  {
    forall n ensures n in steps <==> UnitApart(c, n) {
      if UnitApart(c, n) {
        if c.x + 1 == n.x { assert n == steps[2]; }
        else if n.x + 1 == c.x { assert n == steps[0]; }
        else if c.y + 1 == n.y { assert n == steps[1]; }
        else { assert n == steps[3]; }
      }
    }
  }

  /** The grid edges from `c` to each of its neighbours. */
  function IncidentalEdges(sx: int, sy: int, c: Cell): seq<Edge> {
    var ns := Neighbors(sx, sy, c);
    seq(|ns|, i requires 0 <= i < |ns| => CreateEdge(ns[i], c))
  }

  /** Every grid edge, collected from the incidental edges of every field. */
  function AllEdges(sx: int, sy: int): set<Edge> {
    set c, e | c in Fields(sx, sy) && e in IncidentalEdges(sx, sy, c) :: e
  }

  /** There is a grid edge from `node` to its neighbour in direction `dir`. */
  predicate IsNodeConnectedTo(node: Cell, dir: Cell, edges: set<Edge>) {
    CreateEdge(node, Add(node, dir)) in edges
  }

  const EntranceCell := Cell(0, -1)

  function ExitCell(sx: int, sy: int): Cell {
    Cell(sx - 1, sy)
  }

  /** The entrance edge, an ordered pair from the virtual cell above the
      first field. */
  const EntranceEdge := Virtual(EntranceCell, Cell(0, 0))

  /** The exit edge, an ordered pair from the last field to the virtual cell
      beyond it. */
  function ExitEdge(sx: int, sy: int): Edge {
    Virtual(Cell(sx - 1, sy - 1), ExitCell(sx, sy))
  }

  // ---------------------------------------------------------------------
  // Properties

  /** A grid edge does not depend on the order of its ends. */
  lemma CreateEdgeSymmetric(a: Cell, b: Cell)
    ensures CreateEdge(a, b) == CreateEdge(b, a)
    ensures EndSet(CreateEdge(a, b)) == {a, b}
  {
  }

  /** Stepping along one of the four directions is exactly being one step
      apart. */
  lemma DirsAreUnitSteps(a: Cell, b: Cell)
    ensures UnitApart(a, b) <==> exists i :: 0 <= i < |Dirs| && Add(a, Dirs[i]) == b
  {
    if UnitApart(a, b) {
      if a.x + 1 == b.x && a.y == b.y { assert Add(a, Dirs[2]) == b; }
      else if b.x + 1 == a.x && a.y == b.y { assert Add(a, Dirs[0]) == b; }
      else if a.y + 1 == b.y { assert Add(a, Dirs[1]) == b; }
      else { assert Add(a, Dirs[3]) == b; }
    }
  }

  /** A pair of in-grid cells one step apart is a grid edge. */
  lemma AllEdgesComplete(sx: int, sy: int, a: Cell, b: Cell)
    requires IsInside(sx, sy, a) && IsInside(sx, sy, b) && UnitApart(a, b)
    ensures CreateEdge(a, b) in AllEdges(sx, sy)
  {
    var ns := Neighbors(sx, sy, a);
    assert b in ns;
    var i :| 0 <= i < |ns| && ns[i] == b;
    var inc := IncidentalEdges(sx, sy, a);
    assert inc[i] == CreateEdge(b, a);
    CreateEdgeSymmetric(a, b);
    assert CreateEdge(a, b) in inc;
  }

  /** A grid edge is an unordered pair of two in-grid cells one step apart. */
  lemma AllEdgesSound(sx: int, sy: int, e: Edge)
    requires e in AllEdges(sx, sy)
    ensures e.Link? && |e.ends| == 2
    ensures forall a, b :: a in e.ends && b in e.ends && a != b ==>
              IsInside(sx, sy, a) && IsInside(sx, sy, b) && UnitApart(a, b)
  {
    var c :| c in Fields(sx, sy) && e in IncidentalEdges(sx, sy, c);
    var n := IncidentalEdgeEnds(sx, sy, c, e);
    NeighbourPair(sx, sy, e, n, c);
  }

  /** The edge between two neighbouring in-grid cells has those two cells as
      its ends. */
  lemma NeighbourPair(sx: int, sy: int, e: Edge, n: Cell, c: Cell)
    requires e == Link({n, c}) && n != c
    requires IsInside(sx, sy, n) && IsInside(sx, sy, c) && UnitApart(n, c) && UnitApart(c, n)
    ensures e.Link? && |e.ends| == 2
    ensures forall a, b :: a in e.ends && b in e.ends && a != b ==>
              IsInside(sx, sy, a) && IsInside(sx, sy, b) && UnitApart(a, b)
  {
    assert |{n, c}| == 2;
  }

  /** An incidental edge of `c` joins it to one of its neighbours. */
  lemma IncidentalEdgeEnds(sx: int, sy: int, c: Cell, e: Edge) returns (n: Cell)
    requires IsInside(sx, sy, c) && e in IncidentalEdges(sx, sy, c)
    ensures e == Link({n, c}) && n != c
    ensures IsInside(sx, sy, n) && UnitApart(n, c) && UnitApart(c, n)
  {
    var ns := Neighbors(sx, sy, c);
    var i :| 0 <= i < |ns| && e == IncidentalEdges(sx, sy, c)[i];
    n := ns[i];
    assert n in ns;
  }

  /** The full edge set is exactly the set of unordered pairs of in-grid
      cells one step apart: each such pair is present, and every member is
      such a pair. */
  lemma AllEdgesExact(sx: int, sy: int)
    ensures forall a, b :: IsInside(sx, sy, a) && IsInside(sx, sy, b) && UnitApart(a, b) ==>
              CreateEdge(a, b) in AllEdges(sx, sy)
    ensures forall e :: e in AllEdges(sx, sy) ==>
              e.Link? && |e.ends| == 2 &&
              forall a, b :: a in e.ends && b in e.ends && a != b ==>
                IsInside(sx, sy, a) && IsInside(sx, sy, b) && UnitApart(a, b)
  {
    forall a, b | IsInside(sx, sy, a) && IsInside(sx, sy, b) && UnitApart(a, b)
      ensures CreateEdge(a, b) in AllEdges(sx, sy)
    {
      AllEdgesComplete(sx, sy, a, b);
    }
    forall e | e in AllEdges(sx, sy)
      ensures e.Link? && |e.ends| == 2
      ensures forall a, b :: a in e.ends && b in e.ends && a != b ==>
                IsInside(sx, sy, a) && IsInside(sx, sy, b) && UnitApart(a, b)
    {
      AllEdgesSound(sx, sy, e);
    }
  }

  /** Every grid edge can be taken apart into its two ends. */
  lemma AllEdgesUnpackable(sx: int, sy: int)
    ensures forall e :: e in AllEdges(sx, sy) ==> Unpackable(e)
  {
    AllEdgesExact(sx, sy);
  }

  /** Whether two neighbouring cells are joined can be asked from either
      side. */
  lemma NodeConnectedSymmetric(node: Cell, i: nat, edges: set<Edge>)
    requires i < |Dirs|
    ensures IsNodeConnectedTo(node, Dirs[i], edges) <==>
            IsNodeConnectedTo(Add(node, Dirs[i]), Dirs[(i + 2) % 4], edges)
  {
    var other := Add(node, Dirs[i]);
    assert Add(other, Dirs[(i + 2) % 4]) == node;
    CreateEdgeSymmetric(node, other);
  }

  /** The edge lookup never matches an ordered pair: adding a virtual edge to
      a set changes no answer. */
  lemma LookupIgnoresVirtual(node: Cell, dir: Cell, edges: set<Edge>, v: Edge)
    requires v.Virtual?
    ensures IsNodeConnectedTo(node, dir, edges + {v}) == IsNodeConnectedTo(node, dir, edges)
  {
  }
}
