/**
 * The disjoint-set structure the maze generator uses: a parent map in which
 * a missing key means the cell is its own parent.  `Find` compresses paths,
 * `Union` links one root below the other with the tie-break given as a
 * parameter.  The source keeps the map in a global; here it is threaded
 * through the functions.
 */
module UnionFind {
  import opened Grid

  type Parents = map<Cell, Cell>

  /** The recorded parent of `n`, or `n` itself when none is recorded. */
  function GetParent(p: Parents, n: Cell): Cell {
    if n in p then p[n] else n
  }

  predicate IsRoot(p: Parents, n: Cell) {
    GetParent(p, n) == n
  }

  /** `rank` strictly increases from every non-root cell to its parent. */
  ghost predicate RankedBy(p: Parents, rank: map<Cell, nat>) {
    forall n :: n in p && p[n] != n ==> n in rank && p[n] in rank && rank[n] < rank[p[n]]
  }

  /** The parent links have no cycle: some ranking orders them. */
  ghost predicate WellFormed(p: Parents) {
    exists rank :: RankedBy(p, rank)
  }

  ghost function SomeRank(p: Parents): (rank: map<Cell, nat>)
    requires WellFormed(p)
    ensures RankedBy(p, rank)
  {
    var rank :| RankedBy(p, rank); rank
  }

  /** The number of ranked cells above `n`: a termination measure for
      walking up the parent links. */
  ghost function Height(p: Parents, n: Cell): nat
    requires WellFormed(p)
  {
    var rank := SomeRank(p);
    if n in rank then |set m | m in rank && rank[m] > rank[n]| else 0
  }

  lemma HeightDecreases(p: Parents, n: Cell)
    requires WellFormed(p) && !IsRoot(p, n)
    ensures Height(p, GetParent(p, n)) < Height(p, n)
  {
    var rank := SomeRank(p);
    var q := p[n];
    var above := set m | m in rank && rank[m] > rank[n];
    assert n in rank && q in rank && rank[n] < rank[q];
    var aboveQ := set m | m in rank && rank[m] > rank[q];
    assert q in above && q !in aboveQ;
    assert aboveQ + {q} <= above;
    assert |aboveQ + {q}| == |aboveQ| + 1;
    SubsetCardinality(aboveQ + {q}, above);
    assert Height(p, q) == |aboveQ| && Height(p, n) == |above|;
  }

  lemma SubsetCardinality(a: set<Cell>, b: set<Cell>)
    requires a <= b
    ensures |a| <= |b|
  {
    assert b == a + (b - a);
  }

  /** The representative of `n`: the root reached by following parent links,
      without changing anything. */
  ghost function Root(p: Parents, n: Cell): (r: Cell)
    requires WellFormed(p)
    ensures IsRoot(p, r)
    ensures IsRoot(p, n) ==> r == n
    decreases Height(p, n)
  {
    if IsRoot(p, n) then n
    else
      HeightDecreases(p, n);
      Root(p, GetParent(p, n))
  }

  /** The non-root cells on the way from `n` up to its root: the cells a
      find from `n` visits and re-points. */
  ghost function Above(p: Parents, n: Cell): set<Cell>
    requires WellFormed(p)
    decreases Height(p, n)
  {
    if IsRoot(p, n) then {}
    else
      HeightDecreases(p, n);
      {n} + Above(p, GetParent(p, n))
  }

  /** Two cells are in the same set. */
  ghost predicate Conn(p: Parents, a: Cell, b: Cell)
    requires WellFormed(p)
  {
    Root(p, a) == Root(p, b)
  }

  // ---------------------------------------------------------------------
  // Operations

  /** Returns the representative of `n` and the parent map after path
      compression: every cell visited on the way up now points at the root,
      and every other cell keeps its parent. */
  function Find(p: Parents, n: Cell): (res: (Cell, Parents))
    requires WellFormed(p)
    ensures res.0 == Root(p, n)
    ensures IsRoot(res.1, res.0)
    ensures GetParent(res.1, n) == res.0
    ensures res.1.Keys == p.Keys
    ensures forall m :: IsRoot(res.1, m) <==> IsRoot(p, m)
    ensures forall rank :: RankedBy(p, rank) ==> RankedBy(res.1, rank)
    ensures WellFormed(res.1)
    ensures forall m :: Root(res.1, m) == Root(p, m)
    ensures forall m :: GetParent(res.1, m) == if m in Above(p, n) then res.0 else GetParent(p, m)
    decreases Height(p, n)
  {
    if GetParent(p, n) == n then (n, p)
    else
      HeightDecreases(p, n);
      var up := Find(p, GetParent(p, n));
      Compress(up.1, n, up.0);
      (up.0, up.1[n := up.0])
  }

  /** The root that `Union(p, x, y, swapRoots)` hangs below the other one. */
  ghost function Absorbed(p: Parents, x: Cell, y: Cell, swapRoots: bool): Cell
    requires WellFormed(p)
  {
    if swapRoots then Root(p, y) else Root(p, x)
  }

  /** The root that `Union(p, x, y, swapRoots)` keeps. */
  ghost function Absorber(p: Parents, x: Cell, y: Cell, swapRoots: bool): Cell
    requires WellFormed(p)
  {
    if swapRoots then Root(p, x) else Root(p, y)
  }

  /** Merges the sets of `x` and `y`.  When their roots differ, one root's
      parent becomes the other root; `swapRoots` is the source's random
      shuffle of the two roots (false: the root of `x` goes below the root
      of `y`). */
  function Union(p: Parents, x: Cell, y: Cell, swapRoots: bool): (r: Parents)
    requires WellFormed(p)
    ensures WellFormed(r)
    ensures Conn(r, x, y)
    ensures forall m :: Root(r, m) ==
              if Root(p, m) == Absorbed(p, x, y, swapRoots) then Absorber(p, x, y, swapRoots) else Root(p, m)
    ensures forall m :: IsRoot(r, m) <==> IsRoot(p, m) && (Conn(p, x, y) || m != Absorbed(p, x, y, swapRoots))
    ensures !Conn(p, x, y) ==> GetParent(r, Absorbed(p, x, y, swapRoots)) == Absorber(p, x, y, swapRoots)
  {
    var fx := Find(p, x);
    var fy := Find(fx.1, y);
    var q := fy.1;
    if fx.0 == fy.0 then q
    else
      var child := if swapRoots then fy.0 else fx.0;
      var parent := if swapRoots then fx.0 else fy.0;
      LinkWellFormed(q, child, parent);
      LinkRoots(q, child, parent);
      q[child := parent]
  }

  /** Whether `x` and `y` are in the same set, and the parent map after the
      two finds that answer it. */
  function IsAlreadyConnected(p: Parents, x: Cell, y: Cell): (res: (bool, Parents))
    requires WellFormed(p)
    ensures res.0 <==> Conn(p, x, y)
    ensures WellFormed(res.1)
    ensures forall m :: Root(res.1, m) == Root(p, m)
    ensures forall m :: IsRoot(res.1, m) <==> IsRoot(p, m)
  {
    var fx := Find(p, x);
    var fy := Find(fx.1, y);
    (fx.0 == fy.0, fy.1)
  }

  // ---------------------------------------------------------------------
  // Proofs

  /** Ranks grow along the way from a non-root cell to its root. */
  lemma RootRankAbove(p: Parents, rank: map<Cell, nat>, n: Cell)
    requires WellFormed(p) && RankedBy(p, rank) && !IsRoot(p, n)
    ensures n in rank && Root(p, n) in rank && rank[n] < rank[Root(p, n)]
    decreases Height(p, n)
  {
    var q := p[n];
    HeightDecreases(p, n);
    if !IsRoot(p, q) {
      RootRankAbove(p, rank, q);
    }
  }

  /** Pointing a non-root cell directly at its root keeps the map well
      formed, keeps every ranking valid, and changes no representative. */
  lemma Compress(p: Parents, n: Cell, r: Cell)
    requires WellFormed(p) && !IsRoot(p, n) && r == Root(p, n)
    ensures forall rank :: RankedBy(p, rank) ==> RankedBy(p[n := r], rank)
    ensures WellFormed(p[n := r])
    ensures forall m :: IsRoot(p[n := r], m) <==> IsRoot(p, m)
    ensures forall m :: Root(p[n := r], m) == Root(p, m)
  {
    var p2 := p[n := r];
    forall rank | RankedBy(p, rank) ensures RankedBy(p2, rank) {
      RootRankAbove(p, rank, n);
    }
    assert RankedBy(p2, SomeRank(p));
    forall m ensures Root(p2, m) == Root(p, m) {
      CompressKeepsRoot(p, n, r, m);
    }
  }

  lemma CompressKeepsRoot(p: Parents, n: Cell, r: Cell, m: Cell)
    requires WellFormed(p) && !IsRoot(p, n) && r == Root(p, n) && WellFormed(p[n := r])
    ensures Root(p[n := r], m) == Root(p, m)
    decreases Height(p, m)
  {
    var p2 := p[n := r];
    if m == n {
      assert IsRoot(p2, r);
      assert Root(p2, n) == Root(p2, r);
    } else if !IsRoot(p, m) {
      HeightDecreases(p, m);
      CompressKeepsRoot(p, n, r, p[m]);
    }
  }

  /** Hanging root `c` below another root `q` keeps the map well formed. */
  lemma LinkWellFormed(p: Parents, c: Cell, q: Cell)
    requires WellFormed(p) && IsRoot(p, c) && IsRoot(p, q) && c != q
    ensures WellFormed(p[c := q])
  {
    var rank := SomeRank(p);
    var rc := if c in rank then rank[c] else 0;
    var rq := if q in rank then rank[q] else 0;
    var rank' := rank[c := rc][q := if rq > rc then rq else rc + 1];
    var p2 := p[c := q];
    forall n | n in p2 && p2[n] != n
      ensures n in rank' && p2[n] in rank' && rank'[n] < rank'[p2[n]]
    {
      if n != c {
        assert n in p && p[n] != n;
        assert n != q;
      }
    }
    assert RankedBy(p2, rank');
  }

  /** Hanging root `c` below root `q` moves exactly the cells represented
      by `c` to `q`. */
  lemma LinkRoots(p: Parents, c: Cell, q: Cell)
    requires WellFormed(p) && IsRoot(p, c) && IsRoot(p, q) && c != q && WellFormed(p[c := q])
    ensures forall m :: Root(p[c := q], m) == if Root(p, m) == c then q else Root(p, m)
    ensures forall m :: IsRoot(p[c := q], m) <==> IsRoot(p, m) && m != c
  {
    forall m ensures Root(p[c := q], m) == if Root(p, m) == c then q else Root(p, m) {
      LinkRoot(p, c, q, m);
    }
  }

  lemma LinkRoot(p: Parents, c: Cell, q: Cell, m: Cell)
    requires WellFormed(p) && IsRoot(p, c) && IsRoot(p, q) && c != q && WellFormed(p[c := q])
    ensures Root(p[c := q], m) == if Root(p, m) == c then q else Root(p, m)
    decreases Height(p, m)
  {
    var p2 := p[c := q];
    if m == c {
      assert IsRoot(p2, q);
      assert Root(p2, c) == Root(p2, q);
    } else if !IsRoot(p, m) {
      HeightDecreases(p, m);
      LinkRoot(p, c, q, p[m]);
    }
  }

  // ---------------------------------------------------------------------
  // Properties

  /** After `Union(x, y)`, two cells are connected exactly when they were
      connected before, or each was connected to `x` or to `y`. */
  lemma UnionConnects(p: Parents, x: Cell, y: Cell, swapRoots: bool, a: Cell, b: Cell)
    requires WellFormed(p)
    ensures Conn(Union(p, x, y, swapRoots), a, b) <==>
              Conn(p, a, b) || ((Conn(p, a, x) || Conn(p, a, y)) && (Conn(p, b, x) || Conn(p, b, y)))
  {
  }

  /** The tie-break decides which root survives, never which cells end up
      connected. */
  lemma UnionTieBreakIrrelevant(p: Parents, x: Cell, y: Cell, a: Cell, b: Cell)
    requires WellFormed(p)
    ensures Conn(Union(p, x, y, true), a, b) <==> Conn(Union(p, x, y, false), a, b)
  {
    UnionConnects(p, x, y, true, a, b);
    UnionConnects(p, x, y, false, a, b);
  }

  /** Union of two cells already in one set changes no representative. */
  lemma UnionOfConnectedIsNoOp(p: Parents, x: Cell, y: Cell, swapRoots: bool)
    requires WellFormed(p) && Conn(p, x, y)
    ensures forall m :: Root(Union(p, x, y, swapRoots), m) == Root(p, m)
    ensures forall m :: IsRoot(Union(p, x, y, swapRoots), m) <==> IsRoot(p, m)
  {
  }
}
