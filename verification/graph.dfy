/**
 * The undirected graph an edge set describes: which cells an edge joins,
 * walks along edges, and reachability.  These are reference notions the
 * union-find, Kruskal and the breadth-first search are proved against.
 */
module Graph {
  import opened Grid

  /** Some edge of `edges` joins `u` and `v`, in either order. */
  predicate Adjacent(edges: set<Edge>, u: Cell, v: Cell) {
    Link({u, v}) in edges || Virtual(u, v) in edges || Virtual(v, u) in edges
  }

  /** Every cell some edge of `edges` touches. */
  function Endpoints(edges: set<Edge>): set<Cell> {
    set e, c | e in edges && c in EndSet(e) :: c
  }

  /** A non-empty sequence of cells, each consecutive pair joined by an edge. */
  ghost predicate IsWalk(edges: set<Edge>, w: seq<Cell>) {
    |w| > 0 && forall i :: 0 <= i < |w| - 1 ==> Adjacent(edges, w[i], w[i + 1])
  }

  /** There is a walk from `a` to `b`. */
  ghost predicate Reach(edges: set<Edge>, a: Cell, b: Cell) {
    exists w :: IsWalk(edges, w) && w[0] == a && w[|w| - 1] == b
  }

  /** Takes an edge apart into two endpoints, as the source's `a, b = edge`
      does.  An ordered pair comes apart in order; the order of the two cells
      of an unordered pair is not specified (it follows the set's hashing). */
  method Unpack(e: Edge) returns (a: Cell, b: Cell)
    requires Unpackable(e)
    ensures EndSet(e) == {a, b}
    ensures e.Virtual? ==> a == e.src && b == e.dst
    ensures e.Link? ==> a != b
  {
    match e
    case Virtual(s, d) =>
      a, b := s, d;
    case Link(s) =>
      a :| a in s;
      assert |s - {a}| == 1;
      b :| b in s - {a};
      TwoElements(s, a, b);
  }

  /** The two ends of an edge, as a ghost choice; for an ordered pair its
      source and target. */
  ghost function Ends(e: Edge): (r: (Cell, Cell))
    requires Unpackable(e)
    ensures EndSet(e) == {r.0, r.1}
  {
    match e
    case Virtual(s, d) => (s, d)
    case Link(s) =>
      var a :| a in s;
      assert |s - {a}| == 1;
      var b :| b in s - {a};
      TwoElements(s, a, b);
      (a, b)
  }

  lemma TwoElements(s: set<Cell>, a: Cell, b: Cell)
    requires |s| == 2 && a in s && b in s && a != b
    ensures s == {a, b}
  {
    var rest := s - {a, b};
    assert s == {a, b} + rest;
    assert |{a, b}| == 2;
  }

  // ---------------------------------------------------------------------
  // Facts about adjacency and walks

  lemma AdjacentSymmetric(edges: set<Edge>, u: Cell, v: Cell)
    ensures Adjacent(edges, u, v) <==> Adjacent(edges, v, u)
  {
    assert {u, v} == {v, u};
  }

  /** An edge joining `a` and `b` makes exactly the pairs `{a, b}` newly
      adjacent. */
  lemma AdjacentAfterAdd(edges: set<Edge>, e: Edge, a: Cell, b: Cell, u: Cell, v: Cell)
    requires EndSet(e) == {a, b}
    requires e.Virtual? ==> a == e.src && b == e.dst
    ensures Adjacent(edges + {e}, u, v) <==>
              Adjacent(edges, u, v) || (u == a && v == b) || (u == b && v == a)
  {
    if e.Link? {
      if Link({u, v}) == e {
        assert u in {a, b} && v in {a, b};
        if u == v {
          assert {a, b} == {u};
          assert a == u && b == u;
        }
      }
      if u == a && v == b { assert Link({u, v}) == e; }
      if u == b && v == a { assert {u, v} == {a, b}; assert Link({u, v}) == e; }
    }
  }

  lemma ReachRefl(edges: set<Edge>, a: Cell)
    ensures Reach(edges, a, a)
  {
    assert IsWalk(edges, [a]);
  }

  lemma ReachStep(edges: set<Edge>, a: Cell, b: Cell)
    requires Adjacent(edges, a, b)
    ensures Reach(edges, a, b)
  {
    assert IsWalk(edges, [a, b]);
  }

  function Reverse(w: seq<Cell>): (r: seq<Cell>)
    ensures |r| == |w|
    ensures forall i :: 0 <= i < |w| ==> r[i] == w[|w| - 1 - i]
  {
    if w == [] then [] else Reverse(w[1..]) + [w[0]]
  }

  lemma ReachSymmetric(edges: set<Edge>, a: Cell, b: Cell)
    requires Reach(edges, a, b)
    ensures Reach(edges, b, a)
  {
    var w :| IsWalk(edges, w) && w[0] == a && w[|w| - 1] == b;
    var r := Reverse(w);
    forall i | 0 <= i < |r| - 1 ensures Adjacent(edges, r[i], r[i + 1]) {
      var k := |w| - 2 - i;
      assert r[i] == w[k + 1] && r[i + 1] == w[k];
      AdjacentSymmetric(edges, w[k], w[k + 1]);
    }
    assert IsWalk(edges, r);
  }

  lemma ReachTrans(edges: set<Edge>, a: Cell, b: Cell, c: Cell)
    requires Reach(edges, a, b) && Reach(edges, b, c)
    ensures Reach(edges, a, c)
  {
    var w1 :| IsWalk(edges, w1) && w1[0] == a && w1[|w1| - 1] == b;
    var w2 :| IsWalk(edges, w2) && w2[0] == b && w2[|w2| - 1] == c;
    var w := w1 + w2[1..];
    forall i | 0 <= i < |w| - 1 ensures Adjacent(edges, w[i], w[i + 1]) {
      if i < |w1| - 1 {
        assert w[i] == w1[i] && w[i + 1] == w1[i + 1];
      } else {
        var k := i - |w1| + 1;
        assert w[i] == w2[k] && w[i + 1] == w2[k + 1];
      }
    }
    assert IsWalk(edges, w);
  }

  lemma ReachMono(edges: set<Edge>, more: set<Edge>, a: Cell, b: Cell)
    requires edges <= more
    requires Reach(edges, a, b)
    ensures Reach(more, a, b)
  {
    var w :| IsWalk(edges, w) && w[0] == a && w[|w| - 1] == b;
    assert IsWalk(more, w);
  }

  /** Adding an edge between `a` and `b` connects `u` and `v` exactly when
      they were connected already, or each was connected to one of `a`, `b`. */
  lemma ReachAfterAdd(edges: set<Edge>, e: Edge, a: Cell, b: Cell, u: Cell, v: Cell)
    requires EndSet(e) == {a, b}
    requires e.Virtual? ==> a == e.src && b == e.dst
    ensures Reach(edges + {e}, u, v) <==>
              Reach(edges, u, v) ||
              ((Reach(edges, u, a) || Reach(edges, u, b)) && (Reach(edges, v, a) || Reach(edges, v, b)))
  {
    var more := edges + {e};
    if Reach(more, u, v) {
      var w :| IsWalk(more, w) && w[0] == u && w[|w| - 1] == v;
      ReachAfterAddWalk(edges, e, a, b, u, w, |w| - 1);
    }
    if Reach(edges, u, v) {
      ReachMono(edges, more, u, v);
    } else if (Reach(edges, u, a) || Reach(edges, u, b)) && (Reach(edges, v, a) || Reach(edges, v, b)) {
      AdjacentAfterAdd(edges, e, a, b, a, b);
      ReachStep(more, a, b);
      ReachSymmetric(more, a, b);
      var x := if Reach(edges, u, a) then a else b;
      var y := if Reach(edges, v, a) then a else b;
      ReachMono(edges, more, u, x);
      ReachMono(edges, more, v, y);
      ReachSymmetric(more, v, y);
      if x != y { ReachTrans(more, u, x, y); }
      ReachTrans(more, u, y, v);
    }
  }

  /** Every prefix of a walk over `edges + {e}` ends at a cell related to its
      start as `ReachAfterAdd` states. */
  lemma {:induction false} ReachAfterAddWalk(edges: set<Edge>, e: Edge, a: Cell, b: Cell, u: Cell, w: seq<Cell>, k: nat)
    requires EndSet(e) == {a, b}
    requires e.Virtual? ==> a == e.src && b == e.dst
    requires IsWalk(edges + {e}, w) && w[0] == u && k < |w|
    ensures Reach(edges, u, w[k]) ||
            ((Reach(edges, u, a) || Reach(edges, u, b)) && (Reach(edges, w[k], a) || Reach(edges, w[k], b)))
  {
    if k == 0 {
      ReachRefl(edges, u);
    } else {
      ReachAfterAddWalk(edges, e, a, b, u, w, k - 1);
      var s, t := w[k - 1], w[k];
      AdjacentAfterAdd(edges, e, a, b, s, t);
      if Adjacent(edges, s, t) {
        ReachStep(edges, s, t);
        ReachSymmetric(edges, s, t);
        if Reach(edges, u, s) {
          ReachTrans(edges, u, s, t);
        } else {
          if Reach(edges, s, a) { ReachTrans(edges, t, s, a); } else { ReachTrans(edges, t, s, b); }
        }
      } else {
        ReachRefl(edges, t);
        if Reach(edges, u, s) {
          assert s == a || s == b;
        }
      }
    }
  }

  /** A set of cells closed under adjacency that contains the end of a walk
      contains its start. */
  lemma {:induction false} ClosedContainsWalk(edges: set<Edge>, closed: set<Cell>, w: seq<Cell>, k: nat)
    requires IsWalk(edges, w) && w[|w| - 1] in closed && k < |w|
    requires forall s, t :: s in closed && Adjacent(edges, s, t) ==> t in closed
    ensures w[k] in closed
    decreases |w| - k
  {
    if k < |w| - 1 {
      ClosedContainsWalk(edges, closed, w, k + 1);
      AdjacentSymmetric(edges, w[k], w[k + 1]);
    }
  }

  /** A set of cells closed under adjacency contains every cell from which
      one of its members can be reached. */
  lemma ClosedContainsReach(edges: set<Edge>, closed: set<Cell>, a: Cell, b: Cell)
    requires Reach(edges, a, b) && b in closed
    requires forall s, t :: s in closed && Adjacent(edges, s, t) ==> t in closed
    ensures a in closed
  {
    var w :| IsWalk(edges, w) && w[0] == a && w[|w| - 1] == b;
    ClosedContainsWalk(edges, closed, w, 0);
  }
}
