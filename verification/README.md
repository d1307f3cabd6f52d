# Maze: a Dafny model

A model of `maze.py`, a small program that builds a random maze on a
`SIZEX` by `SIZEY` grid, finds the route through it and prints it in two
text styles. A third, experimental style is defined but its call in `main`
is commented out; it is modelled as written.

- **Grid** (`grid.dfy`): cells, the four directions, edges and the full
  edge set of the grid graph. The grid dimensions are parameters `sx`, `sy`.
  - A grid edge is the source's `frozenset` of two cells (`Link`).
  - The entrance and exit edges are plain ordered tuples (`Virtual`).
- **Graph** (`graph.dfy`): adjacency, walks and reachability over an edge
  set. These are the reference notions the algorithms are proved against.
  It also holds `Unpack`, the source's `a, b = edge`.
- **UnionFind** (`union_find.dfy`): the disjoint-set forest.
  - The parent map is passed explicitly instead of living in a global.
  - `Find` compresses paths.
  - `random.shuffle` of the two roots in `union` is a boolean `swapRoots`.
  - Well-formedness means some ranking strictly increases along parent
    links. `Root` is the reference representative.
- **Kruskal** (`kruskal.dfy`): `generateMazeEdges` as one pass over a
  caller-supplied (already shuffled) edge list.
  - Its result is characterised by `Select`, Kruskal's choice stated on the
    graph alone, with no union-find and no tie-break.
  - So the tie-breaks never change the maze; only the shuffle does.
- **PathFinder** (`path_finder.dfy`):
  - the adjacency index `getConnectionMap`;
  - the breadth-first search from the exit;
  - `backTracePath`;
  - `findPath`, which returns `None` exactly when the exit cannot be
    reached from the entrance.
- **StringArt** (`string_art.dfy`): the "string art" algebra.
  - An art is a total function from `(int, int)` to `string`, with `""` as
    the transparent sample.
  - The combinators are `create`, `translate`, `transpose`, the inversions
    and reflections, `stringArtUnion`, `compose`, `frameArt` and `window`.
  - Printing is modelled as `Render`: the list of lines `printArt` would
    print.
- **MazeArt** (`maze_art.dfy`): the three maze drawings and what each
  drawn character says about the maze.

## Model

| member | source | states |
|---|---|---|
| Grid.Fields | maze.py:16-18 | a cell is a field exactly when `0 <= x < sx` and `0 <= y < sy` |
| Grid.DirsAreUnitSteps | maze.py:10-15 | adding one of the four direction vectors to a cell gives exactly the cells one step apart from it |
| Grid.CreateEdgeSymmetric | maze.py:72-73 | an edge built from two cells does not depend on their order and has exactly those two cells as ends |
| Grid.InsideOnly | maze.py:82-83 | filtering by `isInside` keeps exactly the listed cells that are fields |
| Grid.InsideOnlyAppend | maze.py:82-83 | the filter distributes over concatenation, so the kept cells stay in their listed order |
| Grid.Neighbors | maze.py:85-86 | a cell's neighbours are exactly the fields one step away from it |
| Grid.StepsAreUnitApart | maze.py:85-86 | the four translated cells are exactly the cells one step away |
| Grid.AllEdgesComplete | maze.py:75-80 | every pair of neighbouring fields gives an edge of `getAllEdges` |
| Grid.AllEdgesSound | maze.py:75-80 | every edge of `getAllEdges` is an unordered pair of two distinct neighbouring fields |
| Grid.IncidentalEdgeEnds | maze.py:78-80 | each incidental edge of a field joins it to a distinct neighbouring field |
| Grid.AllEdgesExact | maze.py:75-80 | `getAllEdges` is exactly the set of unordered pairs of neighbouring fields |
| Grid.AllEdgesUnpackable | maze.py:75-76 | every grid edge comes apart into two ends, as the generator's loop needs |
| Grid.NodeConnectedSymmetric | maze.py:88-91 | asking from a cell in one direction is the same as asking from the neighbour in the opposite direction |
| Grid.LookupIgnoresVirtual | maze.py:88-91 | the entrance and exit tuples never answer `isNodeConnectedTo`: adding an ordered-pair edge changes no answer |
| Graph.Unpack | maze.py:101 | taking an edge apart gives its two ends (the tuple edges in order); the two ends of a grid edge differ |
| Graph.Ends | maze.py:101 | the ends of an edge, as a pair whose set is the edge's end set |
| Graph.ReachAfterAdd | maze.py:104 | after adding an edge from `a` to `b`, `u` reaches `v` exactly when it did before or both reach `a` or `b` |
| UnionFind.Find | maze.py:49-55 | returns the root of `n`; afterwards every cell on the way from `n` up to the root points at it and every other cell keeps its parent; every representative and every root is unchanged and the map stays acyclic |
| UnionFind.Union | maze.py:57-61 | afterwards `x` and `y` are connected; when their roots differed, exactly the absorbed root changes, and it now points at the kept root; otherwise no representative changes |
| UnionFind.IsAlreadyConnected | maze.py:63-64 | answers true exactly when `x` and `y` have the same root; the finds change no representative |
| UnionFind.UnionConnects | maze.py:57-61 | after a union two cells are connected exactly when they were, or each was connected to `x` or `y` |
| UnionFind.UnionTieBreakIrrelevant | maze.py:60 | the random order of the two roots never changes which cells are connected |
| UnionFind.UnionOfConnectedIsNoOp | maze.py:59 | a union of two connected cells changes no root |
| Kruskal.GenerateMazeEdges | maze.py:96-105 | the maze is the entrance and exit edges plus exactly the edges Kruskal's rule selects; the final sets are the connected parts of the selection; every listed edge's ends are connected in the maze; the selection is a forest (edges + sets = cells) |
| Kruskal.Step | maze.py:100-104 | one loop iteration keeps the edge exactly when the edges kept so far do not connect its ends, adds it to the maze exactly then, and keeps the invariant: the union-find tracks the connected parts of the kept edges, which are Kruskal's choice on the processed prefix |
| Kruskal.SelectStep | maze.py:102-104 | the next edge is kept exactly when the edges kept so far do not already connect its ends, in either order of the ends |
| Kruskal.KruskalStep | maze.py:102-104 | a union of two unconnected ends makes the union-find follow the new edge, the edge is new, and the number of sets drops by one |
| Kruskal.StepClasses | maze.py:57-61 | a union of two cells from different sets removes exactly one representative |
| Kruskal.Start | maze.py:19 | the empty parent map is well formed, and each cell is its own set, as with no edges |
| PathFinder.AddEdgeToDict | maze.py:108-112 | the key is added, `end` is appended to its list, earlier entries of that list are kept, and no other list changes |
| PathFinder.GetConnectionMap | maze.py:114-120 | the keys are exactly the edges' endpoints, and `v` is listed under `u` exactly when some edge joins them |
| PathFinder.Unvisited | maze.py:144 | keeps exactly the neighbours not yet recorded |
| PathFinder.BackTracePath | maze.py:122-129 | the path starts at `start`, each step follows the recorded predecessor, ends at the self-linked cell and repeats no cell |
| PathFinder.Search | maze.py:134-148 | when the queue empties, the recorded predecessors form a tree toward the exit along maze edges, closed under adjacency |
| PathFinder.SearchStep | maze.py:139-148 | one dequeue keeps the search invariant and either changes nothing or records a new cell |
| PathFinder.FindPath | maze.py:133-152 | returns `None` exactly when the exit cannot be reached from the entrance; otherwise a walk from entrance to exit along maze edges with no repeated cell |
| PathFinder.Unreached | maze.py:149-152 | a cell the finished search never recorded cannot reach the exit |
| PathFinder.SolutionFound | maze.py:149-150 | the traced path ends at the exit and is a walk along maze edges |
| StringArt.SpaceToTransparent | maze.py:163-164 | a blank becomes transparent; every other character stays itself |
| StringArt.ResolveChar | maze.py:284-288 | the printable form is never transparent: a transparent sample prints as a blank, and opaque samples are unchanged |
| StringArt.SplitLines | maze.py:176 | at least one line, no line holds a newline, and every character comes from the text |
| StringArt.JoinSplit | maze.py:176 | joining the split lines with newlines gives back the text |
| StringArt.SplitJoin | maze.py:176 | splitting newline-free lines joined by newlines gives back the lines |
| StringArt.Create | maze.py:172-183 | an opaque sample lies at non-negative coordinates and is one non-blank character of the text |
| StringArt.CreateReadsLines | maze.py:172-183 | sample `(x, y)` is character `y` of line `x` (blank as transparent) and transparent off the lines |
| StringArt.TranslateMoves | maze.py:185-189 | what the art draws at `(x, y)` the moved art draws at `(x, y) + v` |
| StringArt.TranslateAdds | maze.py:185-189 | moving by `u` and then by `v` is one move by `u + v` |
| StringArt.TranslateTranspose | maze.py:185-195 | moving and then transposing is transposing and then moving by the swapped vector |
| StringArt.TranslateBack | maze.py:185-189 | translating by `v` and then by `-v` restores the art |
| StringArt.TransposeInvolution | maze.py:191-195 | transposing twice restores the art |
| StringArt.InvertInvolution | maze.py:197-201 | central inversion twice restores the art |
| StringArt.ReflectHorizontallyInvolution | maze.py:203-207 | reflecting horizontally twice restores the art |
| StringArt.ReflectVerticallyInvolution | maze.py:209-213 | reflecting vertically twice restores the art |
| StringArt.ReflectionsInvert | maze.py:197-213 | the two reflections, in either order, are the central inversion |
| StringArt.FirstOpaque | maze.py:220-225 | transparent exactly when every art is transparent there; otherwise the sample of the first art opaque there |
| StringArt.Union | maze.py:215-226 | transparent exactly where all arts are; elsewhere the first opaque art's sample |
| StringArt.UnionUnitAndEmpty | maze.py:215-226 | the union of one art is that art; the union of none is the empty art |
| StringArt.UnionEmptyUnit | maze.py:166-226 | the empty art is a unit of the union on either side; of two arts, the first shows wherever it is opaque and the second elsewhere |
| StringArt.ComposeIdentity | maze.py:228-232 | composing with the identity leaves the art unchanged |
| StringArt.ComposeFuses | maze.py:228-232 | composing with `f` and then with `g` is one composition with `g` after `f` |
| StringArt.ComposeCommutes | maze.py:185-232 | composing commutes with moving and with transposing |
| StringArt.ComposeResolveOpaque | maze.py:228-232 | composing with `resolveChar` leaves no transparent sample |
| StringArt.FrameArt | maze.py:234-246 | inside the rectangle the art is unchanged; outside it everything is transparent |
| StringArt.FrameIdempotent | maze.py:234-246 | framing twice with the same rectangle is framing once |
| StringArt.Window | maze.py:248-279 | transparent outside the rectangle, '+' at the corners, '-' on the first and last rows, '|' on the first and last columns, and the art moved by (1, 1) inside |
| StringArt.WindowExample | maze.py:251-261 | the documented example: the window of the 4-line text at size (5, 4) prints as the five lines shown |
| StringArt.RenderLine | maze.py:296 | a line of narrow samples has one character per column, each the sample's printable form |
| StringArt.Render | maze.py:290-297 | one line per row, line `i` being row `i`'s samples resolved |
| StringArt.RenderShows | maze.py:290-297 | printing a narrow art shows each sample at its row and column, transparent as blank |
| StringArt.RenderTranspose | maze.py:411-412 | the transposed art prints as the transpose of the printed art |
| StringArt.PrintOfRender | maze.py:290-297 | printing a narrow art gives a rectangle whose every character is the printable form of the sample at its position |
| StringArt.RenderPair | maze.py:405-412 | the two prints are the printed forms of the art and of its transpose, each the other's transpose |
| StringArt.RenderFramed | maze.py:406-407 | printing a framed art inside its own frame prints the same lines as the unframed art |
| StringArt.RenderLineCongruent | maze.py:296 | a printed line depends only on the samples of its row that it shows |
| MazeArt.MazeIsGridOnly | maze.py:96-105 | the generator's maze touches no cell outside the grid, apart from its two tuple edges |
| MazeArt.Style1Samples | maze.py:303-319 | a wall column shows a vertical bar exactly when the two cells beside it are not joined, and '_' exactly when they are joined and neither floor is open; a floor column shows '_' exactly when the cell is not joined to the one below |
| MazeArt.Style1Top | maze.py:324-325 | the first line is all '_' |
| MazeArt.Style1EntranceClosed | maze.py:303-308 | the entrance is drawn as a wall, since the lookup only sees grid edges |
| MazeArt.Style1ExitClosed | maze.py:303-308 | the exit, right of the last cell of the last row, is drawn as a wall for the same reason |
| MazeArt.Symbol | maze.py:315-319 | every style-1 character below the top line is '_', a vertical bar or a blank: even columns are walls, odd columns floors |
| MazeArt.Render1 | maze.py:401-403 | `sizeX + 1` lines of `2 sizeY + 1` characters, each the style-1 sample at its position |
| MazeArt.Style2Maze | maze.py:329-349 | cells are transparent, grid corners are '#', and the slot between two neighbours is open exactly when their edge is in the maze |
| MazeArt.Style2Path | maze.py:357-377 | a cell shows '.' exactly when it is on the path, the slot between two neighbours exactly when both are; corners never |
| MazeArt.Style2Overlay | maze.py:405-406 | inside the frame a wall always shows and the path only where the maze is open; outside nothing shows |
| MazeArt.Style2ShowsPath | maze.py:405-406 | a path cell shows '.'; between two path neighbours the slot shows '.' when they are joined and '#' when not |
| MazeArt.Style2OpeningsClosed | maze.py:337-348 | the entrance and exit slots are drawn as walls, since the tuple edges are not unordered pairs |
| MazeArt.Render2 | maze.py:405-412 | the maze prints as `2 sizeX + 1` lines of `2 sizeY + 1` characters, each the printable form of the framed maze-over-path sample at its position (a blank where transparent), and its transposed print is the transpose of that |
| MazeArt.CharacterMapTotal | maze.py:21-39 | every combination of four walls has a one-character glyph, so the lookup's default is never used |
| MazeArt.CharacterMapBorrowed | maze.py:30-37 | the five combinations marked missing reuse the glyph of another combination |
| MazeArt.MazeSymbol3 | maze.py:385-399 | the glyph at a grid corner is the table's entry for the four walls around it |
| MazeArt.Style3Blank | maze.py:385-399 | a corner shows blank exactly when it has no north and no west wall and its east and south walls agree |
| MazeArt.Style3EntranceClosed | maze.py:385-399 | the corner at the entrance shows the four-walls glyph, since the entrance tuple is never looked up |
| MazeArt.Style3ExitClosed | maze.py:385-399 | at the exit the wall south of corner `(sizeX - 1, sizeY)` is present, and the bottom-right corner shows the four-walls glyph |
| MazeArt.Render3 | maze.py:423-425 | `sizeX + 1` lines of `sizeY + 1` glyphs, each the style-3 sample at its position |

## Left out

- `main`, the random seed and the module-level calls: they only wire the operations together and print.
- `print` and the maze size banner: `printArt` is modelled as `Render`, which returns the lines instead of writing them.
- `random.shuffle` of the edge list: the generator takes the list in whatever order the caller shuffled it.
- `random.shuffle` of the two roots: it becomes the `swapRoots` argument. `Kruskal.GenerateMazeEdges` takes one oracle value per edge.
- The global `parentMap`: the generator starts from an empty map and returns the final map. This is the state of one run of the program.
- `setParent` is inlined as a map update in `Find` and `Union`.
- The order in which `a, b = edge` takes apart a `frozenset` follows hashing. `Graph.Unpack` leaves it unspecified, and every property holds for either order.
- `getIncidentalEdges` and `getNeighbors` return lazy iterators. They are modelled as sequences.
- PathFinder.FindPath: requires the exit to be an endpoint of some maze edge. The source would raise `KeyError` on the first dequeue otherwise. `generateMazeEdges` always includes the exit edge.
- Graph.Unpack: requires an edge with two ends. The source's `a, b = edge` raises `ValueError` on a one-cell `frozenset` such as `createEdge(c, c)`; no call site builds one, and `Grid.AllEdgesUnpackable` shows every grid edge has two ends. `Kruskal.GenerateMazeEdges` and `PathFinder.FindPath` inherit this requirement.
- PathFinder.BackTracePath: requires `start` and every recorded predecessor to be recorded themselves. The source raises `KeyError` at `previousFieldMap[current]` otherwise; the search's predecessor map always meets this.
- PathFinder.BackTracePath: takes a ghost distance map that strictly decreases along the predecessor links. The source would loop forever on a cyclic predecessor map. The search always produces such a map.
- A `None` path handed to `printMazeStyle2` fails in the source on the `in` test. The style-2 functions take a sequence of cells.
- `compose` applies the function to transparent samples too. `StringArt.Compose` does the same: its contract says `f("")` appears there, and `StringArt.ComposeIdentity` and `StringArt.ComposeFuses` give its laws. A reading in which transparent samples are kept would disagree with the code.
- In style 2 a wall wins over the path. `stringArtUnion` lists the maze art first, so `MazeArt.Style2Overlay` states that order.
- The entrance and exit edges are tuples, but the drawing code looks up unordered pairs. So every style draws both openings closed; `MazeArt.Style1EntranceClosed` with `MazeArt.Style1ExitClosed`, `MazeArt.Style2OpeningsClosed`, and `MazeArt.Style3EntranceClosed` with `MazeArt.Style3ExitClosed` state this as the code behaves.
- `main` never prints style 3: the call to `printMazeStyle3` is commented out. The style-3 functions are modelled anyway, as the code defines them.
- The three commented-out transformations in `printMazeStyle2` are not part of the program. The combinators they use are modelled, with their inverse laws.
- `chr(n)` glyphs are modelled as the characters with those code points. Terminal rendering of control characters is not modelled.
- StringArt.Create: strings are sequences of characters with no encoding; `split("\n")` is modelled by `SplitLines`.
- UnionFind.Find: the complexity of path compression is not stated, only its effect.
