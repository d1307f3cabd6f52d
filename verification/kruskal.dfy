/**
 * Randomised Kruskal: one pass over a (shuffled) edge list, keeping an edge
 * exactly when its two ends are not yet connected.  The shuffle is the
 * caller's; the union tie-break comes from the `swapRoots` oracle.
 */
module Kruskal {
  import opened Grid
  import opened Graph
  import opened UnionFind

  /** Kruskal's choice stated on the graph alone, with no union-find and no
      tie-break: an edge is kept exactly when the edges kept before it do
      not already connect its ends. */
  ghost function Select(es: seq<Edge>): (chosen: set<Edge>)
    requires forall e :: e in es ==> Unpackable(e)
    ensures forall e :: e in chosen ==> e in es
    decreases |es|
  {
    if es == [] then {}
    else
      var before := Select(es[..|es| - 1]);
      var e := es[|es| - 1];
      var ends := Ends(e);
      if Reach(before, ends.0, ends.1) then before else before + {e}
  }

  /** Every cell an edge of `es` touches. */
  function Cells(es: seq<Edge>): set<Cell> {
    set e, c | e in es && c in EndSet(e) :: c
  }

  /** The distinct representatives of the cells `u`: one per set. */
  ghost function Classes(p: Parents, u: set<Cell>): set<Cell>
    requires WellFormed(p)
  {
    set m | m in u :: Root(p, m)
  }

  /** Builds the maze: the entrance and exit edges plus Kruskal's choice
      from `edgeList`.  Returns the final parent map too (the source keeps
      it in a global). */
  method GenerateMazeEdges(sx: int, sy: int, edgeList: seq<Edge>, swapRoots: nat -> bool)
    returns (maze: set<Edge>, parents: Parents)
    requires forall e :: e in edgeList ==> Unpackable(e)
    ensures EntranceEdge in maze && ExitEdge(sx, sy) in maze
    ensures maze == {EntranceEdge, ExitEdge(sx, sy)} + Select(edgeList)
    ensures forall e :: e in maze ==> e == EntranceEdge || e == ExitEdge(sx, sy) || e in edgeList
    ensures WellFormed(parents)
    ensures forall a, b :: Conn(parents, a, b) <==> Reach(Select(edgeList), a, b)
    ensures forall e :: e in edgeList ==> Reach(maze, Ends(e).0, Ends(e).1)
    ensures |Select(edgeList)| + |Classes(parents, Cells(edgeList))| == |Cells(edgeList)|
  {
    ghost var fixed := {EntranceEdge, ExitEdge(sx, sy)};
    maze := {EntranceEdge, ExitEdge(sx, sy)};
    parents := map[];
    ghost var chosen: set<Edge> := {};
    ghost var cells := Cells(edgeList);
    Start(edgeList, fixed);
    var i := 0;
    while i < |edgeList|
      invariant Inv(edgeList, i, cells, parents, chosen, maze, fixed)
    {
      var merged;
      parents, merged, maze, chosen := Step(edgeList, i, cells, parents, chosen, maze, fixed, swapRoots(i));
      i := i + 1;
    }
    Finish(sx, sy, edgeList, cells, parents, chosen, maze, fixed);
  }

  /** One iteration of the generator: take edge `i` apart, ask whether its
      ends are connected, and if not join them and keep the edge. */
  method Step(es: seq<Edge>, i: nat, ghost cells: set<Cell>, parents: Parents, ghost chosen: set<Edge>,
              maze: set<Edge>, ghost fixed: set<Edge>, swapRoots: bool)
    returns (parents': Parents, merged: bool, maze': set<Edge>, ghost chosen': set<Edge>)
    requires Inv(es, i, cells, parents, chosen, maze, fixed) && i < |es|
    ensures merged <==> !Reach(chosen, Ends(es[i]).0, Ends(es[i]).1)
    ensures maze' == if merged then maze + {es[i]} else maze
    ensures WellFormed(parents')
    ensures chosen' == if merged then chosen + {es[i]} else chosen
    ensures Inv(es, i + 1, cells, parents', chosen', maze', fixed)
  {
    var e := es[i];
    var a, b := Unpack(e);
    var asked := IsAlreadyConnected(parents, a, b);
    merged := !asked.0;
    parents' := if merged then Union(asked.1, a, b, swapRoots) else asked.1;
    LoopStep(es, i, cells, parents, chosen, maze, fixed, a, b, asked.1, merged, parents', swapRoots);
    ConnectedMeansReached(es, i, cells, parents, chosen, maze, fixed, a, b);
    maze' := if merged then maze + {e} else maze;
    chosen' := if merged then chosen + {e} else chosen;
  }

  // ---------------------------------------------------------------------
  // Proofs

  /** The union-find's sets are exactly the connected parts of `chosen`. */
  ghost predicate Tracks(p: Parents, chosen: set<Edge>)
    requires WellFormed(p)
  {
    forall u, v :: Conn(p, u, v) <==> Reach(chosen, u, v)
  }

  /** The ends of each of the first `n` edges of `es` are connected. */
  ghost predicate PrefixReached(es: seq<Edge>, n: nat, chosen: set<Edge>)
    requires n <= |es|
    requires forall e :: e in es ==> Unpackable(e)
  {
    forall k :: 0 <= k < n ==> Reach(chosen, Ends(es[k]).0, Ends(es[k]).1)
  }

  /** The loop's invariant for the whole list, bundled. */
  ghost predicate Inv(es: seq<Edge>, i: nat, cells: set<Cell>, p: Parents, chosen: set<Edge>,
                      maze: set<Edge>, fixed: set<Edge>)
  {
    && i <= |es|
    && (forall e :: e in es ==> Unpackable(e))
    && cells == Cells(es)
    && WellFormed(p)
    && chosen == Select(es[..i])
    && maze == fixed + chosen
    && Tracks(p, chosen)
    && PrefixReached(es, i, chosen)
    && |chosen| + |Classes(p, cells)| == |cells|
  }

  /** The invariant at the end of the list gives the generator's
      postconditions. */
  lemma Finish(sx: int, sy: int, es: seq<Edge>, cells: set<Cell>, p: Parents, chosen: set<Edge>,
               maze: set<Edge>, fixed: set<Edge>)
    requires fixed == {EntranceEdge, ExitEdge(sx, sy)}
    requires Inv(es, |es|, cells, p, chosen, maze, fixed)
    ensures EntranceEdge in maze && ExitEdge(sx, sy) in maze
    ensures maze == {EntranceEdge, ExitEdge(sx, sy)} + Select(es)
    ensures forall e :: e in maze ==> e == EntranceEdge || e == ExitEdge(sx, sy) || e in es
    ensures WellFormed(p)
    ensures forall a, b :: Conn(p, a, b) <==> Reach(Select(es), a, b)
    ensures forall e :: e in es ==> Reach(maze, Ends(e).0, Ends(e).1)
    ensures |Select(es)| + |Classes(p, Cells(es))| == |Cells(es)|
  {
    assert es[..|es|] == es;
    forall e | e in es ensures Reach(maze, Ends(e).0, Ends(e).1) {
      var k :| 0 <= k < |es| && es[k] == e;
      ReachMono(chosen, maze, Ends(e).0, Ends(e).1);
    }
  }

  /** One iteration of the generator's loop keeps its invariant: `merged`
      says whether the edge was taken, `p1` is the map after the
      connectivity question and `p2` the map after the union, if any. */
  lemma LoopStep(es: seq<Edge>, i: nat, cells: set<Cell>, p0: Parents, chosen: set<Edge>,
                 maze: set<Edge>, fixed: set<Edge>,
                 a: Cell, b: Cell, p1: Parents, merged: bool, p2: Parents, swapRoots: bool)
    requires Inv(es, i, cells, p0, chosen, maze, fixed) && i < |es|
    requires EndSet(es[i]) == {a, b} && (es[i].Virtual? ==> a == es[i].src && b == es[i].dst)
    requires WellFormed(p1) && forall m :: Root(p1, m) == Root(p0, m)
    requires merged <==> !Conn(p0, a, b)
    requires p2 == if merged then Union(p1, a, b, swapRoots) else p1
    ensures Inv(es, i + 1, cells, p2, if merged then chosen + {es[i]} else chosen,
                if merged then maze + {es[i]} else maze, fixed)
  {
    if merged {
      MergedStep(es, i, cells, p0, chosen, maze, fixed, a, b, p1, p2, swapRoots);
    } else {
      SkippedStep(es, i, cells, p0, chosen, maze, fixed, a, b, p1);
    }
  }

  /** Under the invariant, the union-find's answer for the ends of edge `i`
      is whether the edges kept so far connect them. */
  lemma ConnectedMeansReached(es: seq<Edge>, i: nat, cells: set<Cell>, p: Parents, chosen: set<Edge>,
                              maze: set<Edge>, fixed: set<Edge>, a: Cell, b: Cell)
    requires Inv(es, i, cells, p, chosen, maze, fixed) && i < |es|
    requires EndSet(es[i]) == {a, b}
    ensures Conn(p, a, b) <==> Reach(chosen, Ends(es[i]).0, Ends(es[i]).1)
  {
    assert Conn(p, a, b) <==> Reach(chosen, a, b);
    SameEnds(chosen, a, b, Ends(es[i]).0, Ends(es[i]).1);
  }

  lemma SkippedStep(es: seq<Edge>, i: nat, cells: set<Cell>, p0: Parents, chosen: set<Edge>,
                    maze: set<Edge>, fixed: set<Edge>, a: Cell, b: Cell, p1: Parents)
    requires Inv(es, i, cells, p0, chosen, maze, fixed) && i < |es|
    requires EndSet(es[i]) == {a, b} && (es[i].Virtual? ==> a == es[i].src && b == es[i].dst)
    requires WellFormed(p1) && forall m :: Root(p1, m) == Root(p0, m)
    requires Conn(p0, a, b)
    ensures Inv(es, i + 1, cells, p1, chosen, maze, fixed)
  {
    SelectStep(es, i, chosen, a, b);
    ClassesSameRoots(p1, p0, cells);
    assert Tracks(p1, chosen);
    EarlierEdgesStayReached(es, i, chosen, chosen, a, b);
  }

  lemma MergedStep(es: seq<Edge>, i: nat, cells: set<Cell>, p0: Parents, chosen: set<Edge>,
                   maze: set<Edge>, fixed: set<Edge>, a: Cell, b: Cell, p1: Parents, p2: Parents, swapRoots: bool)
    requires Inv(es, i, cells, p0, chosen, maze, fixed) && i < |es|
    requires EndSet(es[i]) == {a, b} && (es[i].Virtual? ==> a == es[i].src && b == es[i].dst)
    requires WellFormed(p1) && forall m :: Root(p1, m) == Root(p0, m)
    requires !Conn(p0, a, b) && p2 == Union(p1, a, b, swapRoots)
    ensures Inv(es, i + 1, cells, p2, chosen + {es[i]}, maze + {es[i]}, fixed)
  {
    MergedSelect(es, i, cells, p0, chosen, maze, fixed, a, b);
    ClassesSameRoots(p1, p0, cells);
    TracksSameRoots(p1, p0, chosen);
    MergedFacts(es, i, cells, p1, chosen, a, b, p2, swapRoots);
  }

  /** The edge whose ends are in different sets is the one `Select` adds. */
  lemma MergedSelect(es: seq<Edge>, i: nat, cells: set<Cell>, p0: Parents, chosen: set<Edge>,
                     maze: set<Edge>, fixed: set<Edge>, a: Cell, b: Cell)
    requires Inv(es, i, cells, p0, chosen, maze, fixed) && i < |es|
    requires EndSet(es[i]) == {a, b}
    requires !Conn(p0, a, b)
    ensures a in cells && b in cells
    ensures Select(es[..i + 1]) == chosen + {es[i]}
    ensures maze + {es[i]} == fixed + (chosen + {es[i]})
  {
    assert es[i] in es;
    assert !Reach(chosen, a, b);
    SelectStep(es, i, chosen, a, b);
  }

  lemma TracksSameRoots(p: Parents, q: Parents, chosen: set<Edge>)
    requires WellFormed(p) && WellFormed(q)
    requires forall m :: Root(p, m) == Root(q, m)
    requires Tracks(q, chosen)
    ensures Tracks(p, chosen)
  {
  }

  lemma MergedFacts(es: seq<Edge>, i: nat, cells: set<Cell>, p1: Parents, chosen: set<Edge>,
                    a: Cell, b: Cell, p2: Parents, swapRoots: bool)
    requires forall e :: e in es ==> Unpackable(e)
    requires i < |es| && EndSet(es[i]) == {a, b} && (es[i].Virtual? ==> a == es[i].src && b == es[i].dst)
    requires WellFormed(p1) && !Conn(p1, a, b) && p2 == Union(p1, a, b, swapRoots)
    requires a in cells && b in cells
    requires Tracks(p1, chosen) && PrefixReached(es, i, chosen)
    requires |chosen| + |Classes(p1, cells)| == |cells|
    ensures WellFormed(p2)
    ensures Tracks(p2, chosen + {es[i]})
    ensures PrefixReached(es, i + 1, chosen + {es[i]})
    ensures |chosen + {es[i]}| + |Classes(p2, cells)| == |cells|
  {
    var e := es[i];
    KruskalStep(p1, a, b, swapRoots, chosen, e, cells);
    AddFresh(chosen, e);
    EarlierEdgesStayReached(es, i, chosen, chosen + {e}, a, b);
  }

  lemma AddFresh(s: set<Edge>, e: Edge)
    requires e !in s
    ensures |s + {e}| == |s| + 1
  {
  }

  /** Before the first edge: the empty parent map is well formed, every
      cell is alone, as with no edges. */
  lemma Start(es: seq<Edge>, fixed: set<Edge>)
    requires forall e :: e in es ==> Unpackable(e)
    ensures Inv(es, 0, Cells(es), map[], {}, fixed, fixed)
  {
    assert RankedBy(map[], map[]);
    forall u, v ensures Conn(map[], u, v) <==> Reach({}, u, v) {
      StartConnectivity(u, v);
    }
    assert es[..0] == [];
    var cells := Cells(es);
    forall m | m in cells ensures Root(map[], m) == m {
    }
    assert Classes(map[], cells) == cells;
  }

  lemma ClassesSameRoots(p: Parents, q: Parents, u: set<Cell>)
    requires WellFormed(p) && WellFormed(q)
    requires forall m :: Root(p, m) == Root(q, m)
    ensures Classes(p, u) == Classes(q, u)
  {
  }

  /** Reachability between the two ends of an edge does not depend on the
      order in which the ends are taken. */
  lemma SameEnds(edges: set<Edge>, a: Cell, b: Cell, c: Cell, d: Cell)
    requires {a, b} == {c, d}
    ensures Reach(edges, a, b) <==> Reach(edges, c, d)
  {
    assert a in {c, d} && b in {c, d} && c in {a, b} && d in {a, b};
    if a != c || b != d {
      assert a == d && b == c;
      if Reach(edges, a, b) { ReachSymmetric(edges, a, b); }
      if Reach(edges, c, d) { ReachSymmetric(edges, c, d); }
    }
  }

  /** `Select` on one more edge: the edge is kept exactly when the edges
      kept so far do not connect its ends, whichever order they are taken in. */
  lemma SelectStep(es: seq<Edge>, i: nat, chosen: set<Edge>, a: Cell, b: Cell)
    requires forall e :: e in es ==> Unpackable(e)
    requires i < |es| && chosen == Select(es[..i])
    requires EndSet(es[i]) == {a, b}
    ensures Select(es[..i + 1]) == if Reach(chosen, a, b) then chosen else chosen + {es[i]}
  {
    assert es[..i + 1][..i] == es[..i];
    var ends := Ends(es[i]);
    SameEnds(chosen, a, b, ends.0, ends.1);
  }

  /** Edges whose ends were connected stay so, and the edge just processed
      has its ends connected. */
  lemma EarlierEdgesStayReached(es: seq<Edge>, i: nat, before: set<Edge>, after: set<Edge>, a: Cell, b: Cell)
    requires forall e :: e in es ==> Unpackable(e)
    requires i < |es| && EndSet(es[i]) == {a, b}
    requires es[i].Virtual? ==> a == es[i].src && b == es[i].dst
    requires forall k :: 0 <= k < i ==> Reach(before, Ends(es[k]).0, Ends(es[k]).1)
    requires after == before || (after == before + {es[i]})
    requires after == before ==> Reach(before, a, b)
    ensures forall k :: 0 <= k < i + 1 ==> Reach(after, Ends(es[k]).0, Ends(es[k]).1)
  {
    forall k | 0 <= k < i + 1 ensures Reach(after, Ends(es[k]).0, Ends(es[k]).1) {
      if k < i {
        ReachMono(before, after, Ends(es[k]).0, Ends(es[k]).1);
      } else {
        if after != before {
          AdjacentAfterAdd(before, es[i], a, b, a, b);
          ReachStep(after, a, b);
        } 
        var ends := Ends(es[i]);
        SameEnds(after, a, b, ends.0, ends.1);
      }
    }
  }

  /** With no edges, only a cell reaches itself; with no parent links,
      only a cell is connected to itself. */
  lemma StartConnectivity(u: Cell, v: Cell)
    requires WellFormed(map[])
    ensures Conn(map[], u, v) <==> Reach({}, u, v)
  {
    if Reach({}, u, v) {
      var w :| IsWalk({}, w) && w[0] == u && w[|w| - 1] == v;
      assert |w| > 1 ==> Adjacent({}, w[0], w[1]);
    }
    if u == v { ReachRefl({}, u); }
  }

  /** One successful union: connectivity follows the new edge, and the
      number of classes drops by one. */
  lemma KruskalStep(p: Parents, a: Cell, b: Cell, swapRoots: bool, chosen: set<Edge>, e: Edge, cells: set<Cell>)
    requires WellFormed(p) && !Conn(p, a, b)
    requires EndSet(e) == {a, b} && (e.Virtual? ==> a == e.src && b == e.dst)
    requires a in cells && b in cells
    requires forall u, v :: Conn(p, u, v) <==> Reach(chosen, u, v)
    ensures forall u, v :: Conn(Union(p, a, b, swapRoots), u, v) <==> Reach(chosen + {e}, u, v)
    ensures e !in chosen
    ensures |Classes(Union(p, a, b, swapRoots), cells)| == |Classes(p, cells)| - 1
  {
    StepConnectivity(p, a, b, swapRoots, chosen, e);
    if e in chosen {
      AdjacentAfterAdd(chosen - {e}, e, a, b, a, b);
      assert chosen - {e} + {e} == chosen;
      ReachStep(chosen, a, b);
    }
    StepClasses(p, a, b, swapRoots, cells);
  }

  lemma StepConnectivity(p: Parents, a: Cell, b: Cell, swapRoots: bool, chosen: set<Edge>, e: Edge)
    requires WellFormed(p)
    requires EndSet(e) == {a, b} && (e.Virtual? ==> a == e.src && b == e.dst)
    requires forall u, v :: Conn(p, u, v) <==> Reach(chosen, u, v)
    ensures forall u, v :: Conn(Union(p, a, b, swapRoots), u, v) <==> Reach(chosen + {e}, u, v)
  {
    forall u, v ensures Conn(Union(p, a, b, swapRoots), u, v) <==> Reach(chosen + {e}, u, v) {
      UnionConnects(p, a, b, swapRoots, u, v);
      ReachAfterAdd(chosen, e, a, b, u, v);
    }
  }

  /** A union of two cells of `cells` from different sets removes exactly
      one representative. */
  lemma StepClasses(p: Parents, a: Cell, b: Cell, swapRoots: bool, cells: set<Cell>)
    requires WellFormed(p) && !Conn(p, a, b)
    requires a in cells && b in cells
    ensures |Classes(Union(p, a, b, swapRoots), cells)| == |Classes(p, cells)| - 1
  {
    var r := Union(p, a, b, swapRoots);
    var lost := Absorbed(p, a, b, swapRoots);
    var before := Classes(p, cells);
    var after := Classes(r, cells);
    ClassesAfterUnion(p, a, b, swapRoots, cells, r, lost, before, after);
    assert lost in before;
  }

  /** The representatives after a union are those before it, less the
      absorbed root. */
  lemma ClassesAfterUnion(p: Parents, a: Cell, b: Cell, swapRoots: bool, cells: set<Cell>,
                          r: Parents, lost: Cell, before: set<Cell>, after: set<Cell>)
    requires WellFormed(p) && !Conn(p, a, b)
    requires a in cells && b in cells
    requires r == Union(p, a, b, swapRoots) && lost == Absorbed(p, a, b, swapRoots)
    requires before == Classes(p, cells) && after == Classes(r, cells)
    ensures after == before - {lost}
  {
    var kept := Absorber(p, a, b, swapRoots);
    assert kept in before && lost != kept;
    forall m | m in after ensures m in before - {lost} {
      var c :| c in cells && m == Root(r, c);
      assert Root(p, c) in before;
      assert m == if Root(p, c) == lost then kept else Root(p, c);
    }
    forall m | m in before - {lost} ensures m in after {
      var c :| c in cells && m == Root(p, c);
      assert Root(r, c) == m;
    }
  }
}
