/**
 * The solution path: an adjacency index of the maze edges and a
 * breadth-first search from the exit that records, for every cell it
 * discovers, the cell it was discovered from; the path is read back from
 * the entrance.
 */
module PathFinder {
  import opened Wrappers
  import opened Grid
  import opened Graph

  type Adjacency = map<Cell, seq<Cell>>

  /** Appends `end` to the list recorded for `start`, creating the list when
      `start` has none. */
  function AddEdgeToDict(start: Cell, end: Cell, dict: Adjacency): (r: Adjacency)
    ensures r.Keys == dict.Keys + {start}
    ensures |r[start]| > 0 && r[start][|r[start]| - 1] == end
    ensures start in dict ==> r[start][..|r[start]| - 1] == dict[start]
    ensures start !in dict ==> r[start] == [end]
    ensures forall u, v :: u in r && v in r[u] <==> (u in dict && v in dict[u]) || (u == start && v == end)
    ensures forall u :: u in dict && u != start ==> r[u] == dict[u]
  {
    if start in dict then dict[start := dict[start] + [end]] else dict[start := [end]]
  }

  /** The adjacency index of `edges`: each edge is recorded in both
      directions.  Edges are visited in an unspecified order, as the source
      iterates a set. */
  method GetConnectionMap(edges: set<Edge>) returns (adj: Adjacency)
    requires forall e :: e in edges ==> Unpackable(e)
    ensures adj.Keys == Endpoints(edges)
    ensures forall u, v :: u in adj && v in adj[u] <==> Adjacent(edges, u, v)
  {
    adj := map[];
    var rest := edges;
    ghost var done: set<Edge> := {};
    while rest != {}
      invariant rest + done == edges && rest !! done
      invariant adj.Keys == Endpoints(done) && Indexes(done, adj)
      decreases rest
    {
      var e :| e in rest;
      var a, b := Unpack(e);
      var adj' := AddEdgeToDict(b, a, AddEdgeToDict(a, b, adj));
      IndexStep(done, adj, e, a, b, adj');
      adj := adj';
      rest := rest - {e};
      done := done + {e};
    }
  }

  /** Recording both directions of one more edge keeps the index exact. */
  lemma IndexStep(done: set<Edge>, adj: Adjacency, e: Edge, a: Cell, b: Cell, adj': Adjacency)
    requires adj.Keys == Endpoints(done) && Indexes(done, adj)
    requires EndSet(e) == {a, b} && (e.Virtual? ==> a == e.src && b == e.dst)
    requires adj' == AddEdgeToDict(b, a, AddEdgeToDict(a, b, adj))
    ensures adj'.Keys == Endpoints(done + {e}) && Indexes(done + {e}, adj')
  {
    forall u, v ensures Adjacent(done + {e}, u, v) <==> Adjacent(done, u, v) || (u == a && v == b) || (u == b && v == a) {
      AdjacentAfterAdd(done, e, a, b, u, v);
    }
    EndpointsAdd(done, e);
  }

  lemma EndpointsAdd(edges: set<Edge>, e: Edge)
    ensures Endpoints(edges + {e}) == Endpoints(edges) + EndSet(e)
  {
  }

  /** The cells of `neighbors` not yet discovered, in order. */
  function Unvisited(neighbors: seq<Cell>, seen: map<Cell, Cell>): (r: seq<Cell>)
    ensures forall w :: w in r <==> w in neighbors && w !in seen
  {
    if neighbors == [] then []
    else if neighbors[0] in seen then Unvisited(neighbors[1..], seen)
    else [neighbors[0]] + Unvisited(neighbors[1..], seen)
  }

  /** Follows the recorded predecessors from `start` until a cell that is its
      own predecessor.  `dist` (the search depth) orders the links. */
  method BackTracePath(start: Cell, prev: map<Cell, Cell>, ghost dist: map<Cell, nat>) returns (path: seq<Cell>)
    requires start in prev
    requires prev.Values <= prev.Keys
    requires prev.Keys <= dist.Keys
    requires forall v :: v in prev && prev[v] != v ==> dist[prev[v]] < dist[v]
    ensures |path| > 0 && path[0] == start
    ensures forall k :: 0 <= k < |path| ==> path[k] in prev
    ensures forall k :: 0 <= k < |path| - 1 ==> prev[path[k]] == path[k + 1]
    ensures prev[path[|path| - 1]] == path[|path| - 1]
    ensures forall i, j :: 0 <= i < j < |path| ==> path[i] != path[j]
  {
    var current := start;
    path := [];
    while current != prev[current]
      invariant current in prev
      invariant forall k :: 0 <= k < |path| ==> path[k] in prev && path[k] in dist
      invariant |path| == 0 ==> current == start
      invariant |path| > 0 ==> path[0] == start && prev[path[|path| - 1]] == current
      invariant forall k :: 0 <= k < |path| - 1 ==> prev[path[k]] == path[k + 1]
      invariant forall k :: 0 <= k < |path| ==> dist[path[k]] > dist[current]
      invariant forall i, j :: 0 <= i < j < |path| ==> dist[path[i]] > dist[path[j]]
      decreases dist[current]
    {
      path := path + [current];
      current := prev[current];
    }
    DecreasingIsDistinct(path, current, dist);
    path := path + [current];
  }

  /** Cells of strictly decreasing depth are pairwise distinct. */
  lemma DecreasingIsDistinct(path: seq<Cell>, last: Cell, dist: map<Cell, nat>)
    requires last in dist && forall k :: 0 <= k < |path| ==> path[k] in dist
    requires forall k :: 0 <= k < |path| ==> dist[path[k]] > dist[last]
    requires forall i, j :: 0 <= i < j < |path| ==> dist[path[i]] > dist[path[j]]
    ensures forall i, j :: 0 <= i < j < |path + [last]| ==> (path + [last])[i] != (path + [last])[j]
  {
    var full := path + [last];
    forall i, j | 0 <= i < j < |full| ensures full[i] != full[j] {
      assert dist[full[i]] > dist[full[j]];
    }
  }

  /** The path is a walk of the maze from `from` to `to` visiting no cell
      twice. */
  ghost predicate IsSolution(edges: set<Edge>, path: seq<Cell>, from: Cell, to: Cell) {
    && IsWalk(edges, path)
    && path[0] == from
    && path[|path| - 1] == to
    && forall i, j :: 0 <= i < j < |path| ==> path[i] != path[j]
  }

  /** `m` with every cell of `cells` mapped to `value`. */
  function Record<V>(m: map<Cell, V>, cells: seq<Cell>, value: V): (r: map<Cell, V>)
    ensures forall w :: w in r <==> w in m || w in cells
    ensures forall w :: w in r ==> r[w] == if w in cells then value else m[w]
  {
    m + map w | w in cells :: value
  }

  /** The adjacency index records exactly the maze's adjacency. */
  ghost predicate Indexes(edges: set<Edge>, adj: Adjacency) {
    forall u, v :: u in adj && v in adj[u] <==> Adjacent(edges, u, v)
  }

  /** What the breadth-first search keeps true: every discovered cell other
      than the root was discovered from a shallower adjacent cell, and every
      discovered cell that has left the queue has all its neighbours
      discovered. */
  ghost predicate Searching(edges: set<Edge>, adj: Adjacency, end: Cell,
                            prev: map<Cell, Cell>, dist: map<Cell, nat>, queue: seq<Cell>) {
    && end in prev && prev[end] == end
    && prev.Values <= prev.Keys
    && prev.Keys <= adj.Keys
    && dist.Keys == prev.Keys
    && (forall v :: v in queue ==> v in prev)
    && (forall v :: v in prev && v != end ==>
          dist[prev[v]] < dist[v] && Adjacent(edges, prev[v], v))
    && (forall v, w :: v in prev && v in adj && v !in queue && w in adj[v] ==> w in prev)
  }

  /** One round of the search: the head of the queue discovers its
      undiscovered neighbours. */
  lemma SearchStep(edges: set<Edge>, adj: Adjacency, end: Cell,
                   prev: map<Cell, Cell>, dist: map<Cell, nat>, queue: seq<Cell>,
                   current: Cell, unvisited: seq<Cell>, prev': map<Cell, Cell>, dist': map<Cell, nat>)
    requires Indexes(edges, adj)
    requires Searching(edges, adj, end, prev, dist, queue)
    requires |queue| > 0 && current == queue[0] && current in adj && current in dist
    requires unvisited == Unvisited(adj[current], prev)
    requires prev' == Record(prev, unvisited, current)
    requires dist' == Record(dist, unvisited, dist[current] + 1)
    ensures Searching(edges, adj, end, prev', dist', queue[1..] + unvisited)
    ensures unvisited == [] ==> prev' == prev
    ensures unvisited != [] ==> |adj.Keys - prev'.Keys| < |adj.Keys - prev.Keys|
  {
    forall w | w in unvisited ensures w in adj && Adjacent(edges, current, w) {
      AdjacentSymmetric(edges, current, w);
    }
    StepLinks(edges, adj, end, prev, dist, queue, current, unvisited, prev', dist');
    StepClosed(edges, adj, end, prev, dist, queue, current, unvisited, prev', dist');
    StepShrinks(adj, prev, current, unvisited, prev');
  }

  /** A round either discovers a cell or leaves the discovered cells as they
      were. */
  lemma StepShrinks(adj: Adjacency, prev: map<Cell, Cell>, current: Cell, unvisited: seq<Cell>, prev': map<Cell, Cell>)
    requires forall w :: w in unvisited ==> w in adj && w !in prev
    requires prev' == Record(prev, unvisited, current)
    ensures unvisited == [] ==> prev' == prev
    ensures unvisited != [] ==> |adj.Keys - prev'.Keys| < |adj.Keys - prev.Keys|
  {
    if unvisited != [] {
      var u := unvisited[0];
      assert u in adj && u !in prev && u in prev';
      RemovingShrinks(adj.Keys, prev.Keys, prev'.Keys, u);
    }
  }

  /** Taking away a larger set leaves fewer elements. */
  lemma RemovingShrinks(all: set<Cell>, small: set<Cell>, large: set<Cell>, u: Cell)
    requires small <= large && u in all && u !in small && u in large
    ensures |all - large| < |all - small|
  {
    var before, after := all - small, all - large;
    assert before == after + {u} + (before - after - {u});
  }

  /** The cells discovered in a round link back to the head of the queue. */
  lemma StepLinks(edges: set<Edge>, adj: Adjacency, end: Cell,
                  prev: map<Cell, Cell>, dist: map<Cell, nat>, queue: seq<Cell>,
                  current: Cell, unvisited: seq<Cell>, prev': map<Cell, Cell>, dist': map<Cell, nat>)
    requires Indexes(edges, adj)
    requires Searching(edges, adj, end, prev, dist, queue)
    requires |queue| > 0 && current == queue[0] && current in adj && current in dist
    requires unvisited == Unvisited(adj[current], prev)
    requires prev' == Record(prev, unvisited, current)
    requires dist' == Record(dist, unvisited, dist[current] + 1)
    ensures prev'.Values <= prev'.Keys && end in prev' && prev'[end] == end
    ensures forall v :: v in prev' && v != end ==>
              dist'[prev'[v]] < dist'[v] && Adjacent(edges, prev'[v], v)
  {
    assert current in prev && current !in unvisited;
    forall x | x in prev'.Values ensures x in prev'.Keys {
      var v :| v in prev' && prev'[v] == x;
    }
    forall v | v in prev' && v != end
      ensures dist'[prev'[v]] < dist'[v] && Adjacent(edges, prev'[v], v)
    {
      if v !in unvisited {
        assert prev'[v] == prev[v] && prev[v] in prev.Values;
      }
    }
  }

  /** A cell leaving the queue has had all its neighbours discovered. */
  lemma StepClosed(edges: set<Edge>, adj: Adjacency, end: Cell,
                   prev: map<Cell, Cell>, dist: map<Cell, nat>, queue: seq<Cell>,
                   current: Cell, unvisited: seq<Cell>, prev': map<Cell, Cell>, dist': map<Cell, nat>)
    requires Searching(edges, adj, end, prev, dist, queue)
    requires |queue| > 0 && current == queue[0] && current in adj
    requires unvisited == Unvisited(adj[current], prev)
    requires prev' == Record(prev, unvisited, current)
    ensures forall v, w :: v in prev' && v in adj && v !in queue[1..] + unvisited && w in adj[v] ==> w in prev'
  {
    var queue' := queue[1..] + unvisited;
    forall v, w | v in prev' && v in adj && v !in queue' && w in adj[v] ensures w in prev' {
      if v != current {
        assert v !in unvisited && v !in queue;
      }
    }
  }

  /** Runs the search from `end` until the queue is empty. */
  method Search(edges: set<Edge>, adj: Adjacency, end: Cell) returns (prev: map<Cell, Cell>, ghost dist: map<Cell, nat>)
    requires Indexes(edges, adj)
    requires end in adj
    ensures end in prev && prev[end] == end
    ensures prev.Keys <= adj.Keys
    ensures forall v :: v in prev && v != end ==> Adjacent(edges, prev[v], v)
    ensures forall v, w :: v in prev && v in adj && w in adj[v] ==> w in prev
    ensures Searching(edges, adj, end, prev, dist, [])
  {
    prev := map[end := end];
    dist := map[end := 0];
    var queue := [end];
    while |queue| > 0
      invariant Searching(edges, adj, end, prev, dist, queue)
      decreases |adj.Keys - prev.Keys|, |queue|
    {
      var current := queue[0];
      assert current in prev;
      var unvisited := Unvisited(adj[current], prev);
      var prev' := Record(prev, unvisited, current);
      ghost var dist' := Record(dist, unvisited, dist[current] + 1);
      SearchStep(edges, adj, end, prev, dist, queue, current, unvisited, prev', dist');
      prev, dist, queue := prev', dist', queue[1..] + unvisited;
    }
  }

  /** Breadth-first search from the exit cell; returns the path from the
      entrance cell to the exit cell, or `None` when the search never
      reaches the entrance cell. */
  method FindPath(sx: int, sy: int, edges: set<Edge>) returns (path: Option<seq<Cell>>)
    requires forall e :: e in edges ==> Unpackable(e)
    requires ExitCell(sx, sy) in Endpoints(edges)
    ensures path.None? <==> !Reach(edges, EntranceCell, ExitCell(sx, sy))
    ensures path.Some? ==> IsSolution(edges, path.value, EntranceCell, ExitCell(sx, sy))
  {
    var start := EntranceCell;
    var end := ExitCell(sx, sy);
    var adj := GetConnectionMap(edges);
    var prev, dist := Search(edges, adj, end);
    if start in prev {
      var p := BackTracePath(start, prev, dist);
      SolutionFound(edges, prev, dist, end, p);
      assert IsSolution(edges, p, start, end);
      path := Some(p);
    } else {
      Unreached(edges, adj, end, prev, dist, start);
      path := None;
    }
  }

  /** A cell the finished search never discovered cannot reach its root. */
  lemma Unreached(edges: set<Edge>, adj: Adjacency, end: Cell,
                  prev: map<Cell, Cell>, dist: map<Cell, nat>, start: Cell)
    requires Indexes(edges, adj)
    requires Searching(edges, adj, end, prev, dist, [])
    requires start !in prev
    ensures !Reach(edges, start, end)
  {
    if Reach(edges, start, end) {
      var closed := prev.Keys;
      forall s, t | s in closed && Adjacent(edges, s, t) ensures t in closed {
      }
      ClosedContainsReach(edges, closed, start, end);
    }
  }

  /** The back-traced path ends at the search's root and is a walk. */
  lemma SolutionFound(edges: set<Edge>, prev: map<Cell, Cell>, dist: map<Cell, nat>, end: Cell, p: seq<Cell>)
    requires end in prev && prev[end] == end && dist.Keys == prev.Keys
    requires prev.Values <= prev.Keys
    requires forall v :: v in prev && v != end ==>
               dist[prev[v]] < dist[v] && Adjacent(edges, prev[v], v)
    requires |p| > 0
    requires forall k :: 0 <= k < |p| ==> p[k] in prev
    requires forall k :: 0 <= k < |p| - 1 ==> prev[p[k]] == p[k + 1]
    requires prev[p[|p| - 1]] == p[|p| - 1]
    requires forall i, j :: 0 <= i < j < |p| ==> p[i] != p[j]
    ensures p[|p| - 1] == end
    ensures IsWalk(edges, p)
  {
    forall k | 0 <= k < |p| - 1 ensures Adjacent(edges, p[k], p[k + 1]) {
      assert p[k] != p[k + 1];
      assert p[k] != end;
      AdjacentSymmetric(edges, p[k + 1], p[k]);
    }
  }
}
