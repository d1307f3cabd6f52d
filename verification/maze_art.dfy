/**
 * The three pictures of a maze, as string arts over the maze edges.  Every
 * style asks whether two cells are joined by looking up the unordered grid
 * edge between them, so the ordered entrance and exit edges are never found
 * and both openings are drawn closed.
 *
 * Style 1 draws one line per grid row plus a top line, with two characters
 * per cell: the wall on its left ('|') and its floor ('_').  Style 2 doubles
 * the grid: cell (x, y) sits at (2x + 1, 2y + 1), the slot between two
 * neighbouring cells at the midpoint of their positions, and '#' marks
 * walls and corners; the solution path is overlaid as '.'.  Style 3 draws
 * one glyph per grid corner, chosen by which of the four walls meeting
 * there exist.
 */
module MazeArt {
  import opened Grid
  import opened StringArt

  /** The grid cells and the virtual entrance and exit cells only meet grid
      edges between in-grid cells: what every maze built from the full edge
      set satisfies. */
  ghost predicate GridOnly(sx: int, sy: int, edges: set<Edge>) {
    forall e, c :: e in edges && e.Link? && c in e.ends ==> IsInside(sx, sy, c)
  }

  /** A maze made of grid edges and the two virtual edges links in-grid
      cells only. */
  lemma MazeIsGridOnly(sx: int, sy: int, edges: set<Edge>)
    requires forall e :: e in edges ==> e in AllEdges(sx, sy) || e == EntranceEdge || e == ExitEdge(sx, sy)
    ensures GridOnly(sx, sy, edges)
  {
    forall e, c | e in edges && e.Link? && c in e.ends ensures IsInside(sx, sy, c) {
      AllEdgesSound(sx, sy, e);
      var others := e.ends - {c};
      assert |others| == 1;
      var d :| d in others;
    }
  }

  /** The sample of a style-2 art at the position of cell `c`. */
  function FieldPos(c: Cell): (int, int) {
    (2 * c.x + 1, 2 * c.y + 1)
  }

  /** The position between two neighbouring cells in a style-2 art. */
  function SlotPos(c: Cell, d: Cell): (int, int) {
    (c.x + d.x + 1, c.y + d.y + 1)
  }

  // ---------------------------------------------------------------------
  // Style 1

  /** The wall character left of cell (x, y + 1): '|' when (x, y) and
      (x, y + 1) are not joined, else '_' when neither has its floor open,
      else a blank. */
  function WallSymbol(x: int, y: int, edges: set<Edge>): (r: string)
    ensures r == "|" || r == "_" || r == " "
  {
    var vertical := !IsNodeConnectedTo(Cell(x, y), East, edges);
    var horizontal := !IsNodeConnectedTo(Cell(x, y), South, edges) && !IsNodeConnectedTo(Cell(x, y + 1), South, edges);
    if vertical then "|" else if horizontal then "_" else " "
  }

  /** The floor character of cell (x, y): '_' when it is not joined to the
      cell below. */
  function FieldSymbol(x: int, y: int, edges: set<Edge>): (r: string)
    ensures r == "_" || r == " "
  {
    if !IsNodeConnectedTo(Cell(x, y), South, edges) then "_" else " "
  }

  /** Even columns are walls, odd columns are floors. */
  function Symbol(row: int, column: int, edges: set<Edge>): (r: string)
    ensures r == "|" || r == "_" || r == " "
  {
    var x := row;
    var y := column / 2;
    if column % 2 == 0 then WallSymbol(x, y - 1, edges) else FieldSymbol(x, y, edges)
  }

  /** Style 1: a top line of '_', then the rows of the grid. */
  function MazeArt1(edges: set<Edge>): (r: Art)
    ensures forall x, y :: |r(x, y)| == 1 && r(x, y) != Transparent
  {
    (row, column) => if row == 0 then "_" else Symbol(row - 1, column, edges)
  }

  /** What each style-1 character says about the cells around it. */
  lemma Style1Samples(edges: set<Edge>, row: int, k: int)
    requires row != 0
    ensures MazeArt1(edges)(row, 2 * k) == "|" <==>
            CreateEdge(Cell(row - 1, k - 1), Cell(row - 1, k)) !in edges
    ensures MazeArt1(edges)(row, 2 * k) == "_" <==>
            && CreateEdge(Cell(row - 1, k - 1), Cell(row - 1, k)) in edges
            && CreateEdge(Cell(row - 1, k - 1), Cell(row, k - 1)) !in edges
            && CreateEdge(Cell(row - 1, k), Cell(row, k)) !in edges
    ensures MazeArt1(edges)(row, 2 * k + 1) == "_" <==>
            CreateEdge(Cell(row - 1, k), Cell(row, k)) !in edges
    ensures MazeArt1(edges)(row, 2 * k + 1) != "|"
  {
    assert (2 * k) / 2 == k && (2 * k) % 2 == 0;
    assert (2 * k + 1) / 2 == k && (2 * k + 1) % 2 == 1;
  }

  /** The top line is all '_'. */
  lemma Style1Top(edges: set<Edge>, column: int)
    ensures MazeArt1(edges)(0, column) == "_"
  {
  }

  /** The entrance, left of the first cell, is drawn as a wall. */
  lemma Style1EntranceClosed(sx: int, sy: int, edges: set<Edge>)
    requires GridOnly(sx, sy, edges)
    ensures MazeArt1(edges)(1, 0) == "|"
  {
    Style1Samples(edges, 1, 0);
    assert !IsInside(sx, sy, Cell(0, -1));
  }

  /** The exit, right of the last cell, is drawn as a wall too. */
  lemma Style1ExitClosed(sx: int, sy: int, edges: set<Edge>)
    requires GridOnly(sx, sy, edges) && sx >= 1
    ensures MazeArt1(edges)(sx, 2 * sy) == "|"
  {
    Style1Samples(edges, sx, sy);
    assert !IsInside(sx, sy, ExitCell(sx, sy));
    assert ExitCell(sx, sy) in CreateEdge(Cell(sx - 1, sy - 1), ExitCell(sx, sy)).ends;
  }

  /** The printed style-1 maze: `sx + 1` lines of `2 sy + 1` characters,
      each the style-1 sample at its position. */
  function Render1(sx: int, sy: int, edges: set<Edge>): (r: seq<string>)
    requires sx >= 0 && sy >= 0
    ensures |r| == sx + 1
    ensures forall i :: 0 <= i < |r| ==> |r[i]| == 2 * sy + 1
    ensures forall i, j :: 0 <= i < sx + 1 && 0 <= j < 2 * sy + 1 ==> [r[i][j]] == MazeArt1(edges)(i, j)
  {
    RenderSingles(MazeArt1(edges), (sx + 1, 2 * sy + 1));
    Render(MazeArt1(edges), (sx + 1, 2 * sy + 1))
  }

  // ---------------------------------------------------------------------
  // Style 2

  /** A style-2 maze sample: cells are transparent, a slot is transparent
      when the two cells beside it are joined and '#' otherwise, and grid
      corners are '#'. */
  function MazeSymbol2(row: int, column: int, edges: set<Edge>): (r: string)
    ensures r == Transparent || r == "#"
  {
    var isField := row % 2 == 1 && column % 2 == 1;
    var isVertWall := row % 2 == 0 && column % 2 == 1;
    var isHorWall := row % 2 == 1 && column % 2 == 0;
    if isField then Transparent
    else if isVertWall then
      if CreateEdge(Cell(row / 2 - 1, column / 2), Cell(row / 2, column / 2)) in edges then Transparent else "#"
    else if isHorWall then
      if CreateEdge(Cell(row / 2, column / 2 - 1), Cell(row / 2, column / 2)) in edges then Transparent else "#"
    else "#"
  }

  function MazeArt2(edges: set<Edge>): (r: Art)
    ensures forall x, y :: r(x, y) == Transparent || r(x, y) == "#"
  {
    (row, column) => MazeSymbol2(row, column, edges)
  }

  /** Cells are open, corners are walls, and the slot between two
      neighbouring cells is open exactly when the maze joins them. */
  lemma Style2Maze(edges: set<Edge>, c: Cell, d: Cell, i: int, j: int)
    ensures MazeArt2(edges)(FieldPos(c).0, FieldPos(c).1) == Transparent
    ensures MazeArt2(edges)(2 * i, 2 * j) == "#"
    ensures UnitApart(c, d) ==>
              MazeArt2(edges)(SlotPos(c, d).0, SlotPos(c, d).1) ==
              if CreateEdge(c, d) in edges then Transparent else "#"
  {
    assert (2 * c.x + 1) % 2 == 1 && (2 * c.y + 1) % 2 == 1;
    assert (2 * i) % 2 == 0 && (2 * j) % 2 == 0;
    if UnitApart(c, d) {
      CreateEdgeSymmetric(c, d);
      var (row, column) := SlotPos(c, d);
      if c.x == d.x {
        var lo := if c.y < d.y then c.y else d.y;
        assert row == 2 * c.x + 1 && column == 2 * lo + 2;
        assert row / 2 == c.x && row % 2 == 1 && column / 2 == lo + 1 && column % 2 == 0;
        assert {Cell(c.x, lo), Cell(c.x, lo + 1)} == {c, d};
      } else {
        var lo := if c.x < d.x then c.x else d.x;
        assert row == 2 * lo + 2 && column == 2 * c.y + 1;
        assert row / 2 == lo + 1 && row % 2 == 0 && column / 2 == c.y && column % 2 == 1;
        assert {Cell(lo, c.y), Cell(lo + 1, c.y)} == {c, d};
      }
    }
  }

  /** A style-2 path sample: '.' on the cells of the path and on a slot
      whose two cells are both on the path. */
  function PathArt2(path: seq<Cell>): (r: Art)
    ensures forall x, y :: r(x, y) == Transparent || r(x, y) == "."
  {
    (row, column) =>
      var isField := row % 2 == 1 && column % 2 == 1;
      var isVertWall := row % 2 == 0 && column % 2 == 1;
      var isHorWall := row % 2 == 1 && column % 2 == 0;
      if isField then
        if Cell(row / 2, column / 2) in path then "." else Transparent
      else if isVertWall then
        if Cell(row / 2 - 1, column / 2) in path && Cell(row / 2, column / 2) in path then "." else Transparent
      else if isHorWall then
        if Cell(row / 2, column / 2 - 1) in path && Cell(row / 2, column / 2) in path then "." else Transparent
      else Transparent
  }

  /** The path art marks exactly the cells on the path and the slots between
      two neighbouring cells on the path; corners stay transparent. */
  lemma Style2Path(path: seq<Cell>, c: Cell, d: Cell, i: int, j: int)
    ensures PathArt2(path)(FieldPos(c).0, FieldPos(c).1) == "." <==> c in path
    ensures PathArt2(path)(2 * i, 2 * j) == Transparent
    ensures UnitApart(c, d) ==>
              (PathArt2(path)(SlotPos(c, d).0, SlotPos(c, d).1) == "." <==> c in path && d in path)
  {
    assert (2 * c.x + 1) % 2 == 1 && (2 * c.y + 1) % 2 == 1;
    assert (2 * c.x + 1) / 2 == c.x && (2 * c.y + 1) / 2 == c.y;
    assert (2 * i) % 2 == 0 && (2 * j) % 2 == 0;
    if UnitApart(c, d) {
      var (row, column) := SlotPos(c, d);
      if c.x == d.x {
        var lo := if c.y < d.y then c.y else d.y;
        assert row == 2 * c.x + 1 && column == 2 * lo + 2;
        assert row / 2 == c.x && row % 2 == 1 && column / 2 == lo + 1 && column % 2 == 0;
        assert {Cell(c.x, lo), Cell(c.x, lo + 1)} == {c, d};
      } else {
        var lo := if c.x < d.x then c.x else d.x;
        assert row == 2 * lo + 2 && column == 2 * c.y + 1;
        assert row / 2 == lo + 1 && row % 2 == 0 && column / 2 == c.y && column % 2 == 1;
        assert {Cell(lo, c.y), Cell(lo + 1, c.y)} == {c, d};
      }
    }
  }

  /** Style 2: the maze over the path, cut to the doubled grid. */
  function Style2Art(sx: int, sy: int, edges: set<Edge>, path: seq<Cell>): (r: Art)
    ensures forall x, y :: r(x, y) == Transparent || r(x, y) == "#" || r(x, y) == "."
  {
    FrameArt(Union([MazeArt2(edges), PathArt2(path)]), (2 * sx + 1, 2 * sy + 1))
  }

  /** Inside the frame a wall of the maze always shows, and the path shows
      only where the maze is open; outside the frame nothing shows. */
  lemma Style2Overlay(sx: int, sy: int, edges: set<Edge>, path: seq<Cell>, x: int, y: int)
    ensures !(0 <= x < 2 * sx + 1 && 0 <= y < 2 * sy + 1) ==> Style2Art(sx, sy, edges, path)(x, y) == Transparent
    ensures 0 <= x < 2 * sx + 1 && 0 <= y < 2 * sy + 1 ==>
              Style2Art(sx, sy, edges, path)(x, y) ==
              if MazeArt2(edges)(x, y) == "#" then "#" else PathArt2(path)(x, y)
  {
    var arts := [MazeArt2(edges), PathArt2(path)];
    if MazeArt2(edges)(x, y) == "#" {
      assert arts[0](x, y) != Transparent;
    } else {
      assert arts[0](x, y) == Transparent;
      if PathArt2(path)(x, y) != Transparent {
        assert arts[1](x, y) != Transparent;
      }
    }
  }

  /** On the picture, a cell of the grid on the path shows '.', and the
      slot between two neighbouring grid cells on the path shows '.' when
      the maze joins them and '#' when it does not. */
  lemma Style2ShowsPath(sx: int, sy: int, edges: set<Edge>, path: seq<Cell>, c: Cell, d: Cell)
    requires IsInside(sx, sy, c) && c in path
    ensures Style2Art(sx, sy, edges, path)(FieldPos(c).0, FieldPos(c).1) == "."
    ensures IsInside(sx, sy, d) && d in path && UnitApart(c, d) ==>
              Style2Art(sx, sy, edges, path)(SlotPos(c, d).0, SlotPos(c, d).1) ==
              if CreateEdge(c, d) in edges then "." else "#"
  {
    Style2Maze(edges, c, d, 0, 0);
    Style2Path(path, c, d, 0, 0);
    Style2Overlay(sx, sy, edges, path, FieldPos(c).0, FieldPos(c).1);
    Style2Overlay(sx, sy, edges, path, SlotPos(c, d).0, SlotPos(c, d).1);
  }

  /** The slot between the entrance cell and the first cell, and the slot
      between the last cell and the exit cell, are drawn as walls. */
  lemma Style2OpeningsClosed(sx: int, sy: int, edges: set<Edge>, path: seq<Cell>)
    requires sx >= 1 && sy >= 1
    requires GridOnly(sx, sy, edges)
    ensures Style2Art(sx, sy, edges, path)(SlotPos(EntranceCell, Cell(0, 0)).0, SlotPos(EntranceCell, Cell(0, 0)).1) == "#"
    ensures Style2Art(sx, sy, edges, path)(SlotPos(Cell(sx - 1, sy - 1), ExitCell(sx, sy)).0,
                                           SlotPos(Cell(sx - 1, sy - 1), ExitCell(sx, sy)).1) == "#"
  {
    Style2Maze(edges, EntranceCell, Cell(0, 0), 0, 0);
    Style2Maze(edges, Cell(sx - 1, sy - 1), ExitCell(sx, sy), 0, 0);
    assert !IsInside(sx, sy, EntranceCell) && !IsInside(sx, sy, ExitCell(sx, sy));
    assert CreateEdge(EntranceCell, Cell(0, 0)) !in edges by {
      assert EntranceCell in CreateEdge(EntranceCell, Cell(0, 0)).ends;
    }
    assert CreateEdge(Cell(sx - 1, sy - 1), ExitCell(sx, sy)) !in edges by {
      assert ExitCell(sx, sy) in CreateEdge(Cell(sx - 1, sy - 1), ExitCell(sx, sy)).ends;
    }
    Style2Overlay(sx, sy, edges, path, SlotPos(EntranceCell, Cell(0, 0)).0, SlotPos(EntranceCell, Cell(0, 0)).1);
    Style2Overlay(sx, sy, edges, path, SlotPos(Cell(sx - 1, sy - 1), ExitCell(sx, sy)).0,
                  SlotPos(Cell(sx - 1, sy - 1), ExitCell(sx, sy)).1);
  }

  /** Every style-2 sample is at most one character. */
  lemma Style2Narrow(sx: int, sy: int, edges: set<Edge>, path: seq<Cell>)
    ensures Narrow(Style2Art(sx, sy, edges, path), (2 * sx + 1, 2 * sy + 1))
  {
  }

  /** The printed style-2 maze and its transposed print: each is a
      rectangle of one-character samples, character j of line i of the
      first is the style-2 sample there (a blank where it is transparent),
      and character j of line i of one is character i of line j of the
      other. */
  function Render2(sx: int, sy: int, edges: set<Edge>, path: seq<Cell>): (r: (seq<string>, seq<string>))
    requires sx >= 0 && sy >= 0
    ensures PrintOf(r.0, Style2Art(sx, sy, edges, path), (2 * sx + 1, 2 * sy + 1))
    ensures PrintOf(r.1, Transpose(Style2Art(sx, sy, edges, path)), (2 * sy + 1, 2 * sx + 1))
    ensures forall i, j :: 0 <= i < 2 * sx + 1 && 0 <= j < 2 * sy + 1 ==> r.0[i][j] == r.1[j][i]
  {
    Style2Narrow(sx, sy, edges, path);
    RenderPair(Style2Art(sx, sy, edges, path), (2 * sx + 1, 2 * sy + 1))
  }

  // ---------------------------------------------------------------------
  // Style 3

  /** The glyph for a grid corner, keyed by whether the wall to its north,
      east, south and west exists.  Five combinations have no glyph of their
      own and borrow one. */
  const CharacterMap: map<(bool, bool, bool, bool), string> := map[
    (true, true, true, true) := [16 as char],
    (true, true, true, false) := [25 as char],
    (true, true, false, true) := [21 as char],
    (true, true, false, false) := [3 as char],
    (true, false, true, true) := [23 as char],
    (true, false, true, false) := [5 as char],
    (true, false, false, true) := [4 as char],
    (true, false, false, false) := [21 as char],
    (false, true, true, true) := [22 as char],
    (false, true, true, false) := " ",
    (false, true, false, true) := [6 as char],
    (false, true, false, false) := [25 as char],
    (false, false, true, true) := [2 as char],
    (false, false, true, false) := [22 as char],
    (false, false, false, true) := [23 as char],
    (false, false, false, false) := " "
  ]

  /** Every combination of walls has a glyph, so the lookup's blank default
      is never used, and every glyph is one character. */
  lemma CharacterMapTotal(k: (bool, bool, bool, bool))
    ensures k in CharacterMap && |CharacterMap[k]| == 1
  {
    var (n, e, s, w) := k;
    if n {
      if e { if s { if w {} else {} } else { if w {} else {} } }
      else { if s { if w {} else {} } else { if w {} else {} } }
    } else {
      if e { if s { if w {} else {} } else { if w {} else {} } }
      else { if s { if w {} else {} } else { if w {} else {} } }
    }
  }

  /** The four walls meeting at the corner at the top left of cell
      (row, column): each exists when the two cells it separates are not
      joined. */
  function CornerWalls(row: int, column: int, edges: set<Edge>): (bool, bool, bool, bool) {
    var northWest, northEast := Cell(row - 1, column - 1), Cell(row - 1, column);
    var southWest, southEast := Cell(row, column - 1), Cell(row, column);
    (CreateEdge(northWest, northEast) !in edges, CreateEdge(northEast, southEast) !in edges,
     CreateEdge(southWest, southEast) !in edges, CreateEdge(northWest, southWest) !in edges)
  }

  function MazeSymbol3(row: int, column: int, edges: set<Edge>): (r: string)
    ensures r == CharacterMap[CornerWalls(row, column, edges)]
  {
    var key := CornerWalls(row, column, edges);
    CharacterMapTotal(key);
    if key in CharacterMap then CharacterMap[key] else " "
  }

  function MazeArt3(edges: set<Edge>): (r: Art)
    ensures forall x, y :: |r(x, y)| == 1
  {
    (row, column) => MazeSymbol3(row, column, edges)
  }

  /** A corner is blank exactly when no wall comes from the north or the
      west and the east and south walls are both present or both absent. */
  lemma Style3Blank(edges: set<Edge>, row: int, column: int)
    ensures var k := CornerWalls(row, column, edges);
            MazeArt3(edges)(row, column) == " " <==> !k.0 && !k.3 && k.1 == k.2
  {
    var k := CornerWalls(row, column, edges);
    CharacterMapTotal(k);
  }

  /** The borrowed glyphs: each combination marked as missing shows the
      glyph of another combination. */
  lemma CharacterMapBorrowed()
    ensures CharacterMap[(true, false, false, false)] == CharacterMap[(true, true, false, true)]
    ensures CharacterMap[(false, true, false, false)] == CharacterMap[(true, true, true, false)]
    ensures CharacterMap[(false, false, true, false)] == CharacterMap[(false, true, true, true)]
    ensures CharacterMap[(false, false, false, true)] == CharacterMap[(true, false, true, true)]
    ensures CharacterMap[(false, true, true, false)] == CharacterMap[(false, false, false, false)]
  {
  }

  /** The corner of the entrance, at the top left of the first cell, has
      all four walls: the entrance is drawn closed. */
  lemma Style3EntranceClosed(sx: int, sy: int, edges: set<Edge>)
    requires GridOnly(sx, sy, edges)
    ensures MazeArt3(edges)(0, 0) == [16 as char]
  {
    var k := CornerWalls(0, 0, edges);
    assert !IsInside(sx, sy, Cell(-1, -1)) && !IsInside(sx, sy, Cell(-1, 0)) && !IsInside(sx, sy, Cell(0, -1));
    assert Cell(-1, 0) in CreateEdge(Cell(-1, -1), Cell(-1, 0)).ends;
    assert Cell(-1, 0) in CreateEdge(Cell(-1, 0), Cell(0, 0)).ends;
    assert Cell(0, -1) in CreateEdge(Cell(0, -1), Cell(0, 0)).ends;
    assert Cell(0, -1) in CreateEdge(Cell(-1, -1), Cell(0, -1)).ends;
    assert k == (true, true, true, true);
  }

  /** The exit is drawn closed: the wall right of the last cell runs south
      from the corner at (sx - 1, sy), and the corner below it, at the
      bottom right of the grid, has all four walls. */
  lemma Style3ExitClosed(sx: int, sy: int, edges: set<Edge>)
    requires GridOnly(sx, sy, edges)
    ensures CornerWalls(sx - 1, sy, edges).2
    ensures MazeArt3(edges)(sx, sy) == [16 as char]
  {
    var k := CornerWalls(sx, sy, edges);
    assert !IsInside(sx, sy, Cell(sx - 1, sy)) && !IsInside(sx, sy, Cell(sx, sy - 1)) && !IsInside(sx, sy, Cell(sx, sy));
    assert Cell(sx - 1, sy) in CreateEdge(Cell(sx - 1, sy - 1), Cell(sx - 1, sy)).ends;
    assert Cell(sx - 1, sy) in CreateEdge(Cell(sx - 1, sy), Cell(sx, sy)).ends;
    assert Cell(sx, sy) in CreateEdge(Cell(sx, sy - 1), Cell(sx, sy)).ends;
    assert Cell(sx, sy - 1) in CreateEdge(Cell(sx - 1, sy - 1), Cell(sx, sy - 1)).ends;
    assert k == (true, true, true, true);
  }

  /** The printed style-3 maze: `sx + 1` lines of `sy + 1` glyphs, one per
      grid corner. */
  function Render3(sx: int, sy: int, edges: set<Edge>): (r: seq<string>)
    requires sx >= 0 && sy >= 0
    ensures |r| == sx + 1
    ensures forall i :: 0 <= i < |r| ==> |r[i]| == sy + 1
    ensures forall i, j :: 0 <= i < sx + 1 && 0 <= j < sy + 1 ==> [r[i][j]] == MazeArt3(edges)(i, j)
  {
    RenderSingles(MazeArt3(edges), (sx + 1, sy + 1));
    Render(MazeArt3(edges), (sx + 1, sy + 1))
  }
}
