/**
 * String arts: total maps from a (row, column) coordinate to the string
 * drawn there, usually one character.  The empty string is transparent:
 * nothing is drawn and an art below shows through in a union.  Printing is
 * modelled by `Render`, which returns the printed lines instead of writing
 * them.
 */
module StringArt {

  type Art = (int, int) -> string

  const Transparent: string := ""

  /** A blank in a source text becomes transparent; every other character is
      drawn as itself. */
  function SpaceToTransparent(c: char): (r: string)
    ensures r == Transparent <==> c == ' '
    ensures r != Transparent ==> r == [c]
  {
    if c == ' ' then Transparent else [c]
  }

  /** The printable form of a sample: transparent prints as a blank. */
  function ResolveChar(s: string): (r: string)
    ensures r != Transparent
    ensures s == Transparent ==> r == " "
    ensures s != Transparent ==> r == s
  {
    if s == Transparent then " " else s
  }

  /** The art that draws nothing.
      The ensures is the pointwise reading, an unfolding aid for callers;
      the laws the operation obeys are stated as lemmas. */
  function Empty(): (r: Art)
    ensures forall x, y :: r(x, y) == Transparent
  {
    (x, y) => Transparent
  }

  // ---------------------------------------------------------------------
  // Lines of a text

  /** Splits a text at every newline; a text with k newlines has k + 1
      lines, the last possibly empty. */
  function SplitLines(s: string): (r: seq<string>)
    ensures |r| >= 1
    ensures forall i :: 0 <= i < |r| ==> '\n' !in r[i]
    ensures forall i, c :: 0 <= i < |r| && c in r[i] ==> c in s
  {
    if s == [] then [[]]
    else
      var rest := SplitLines(s[1..]);
      assert forall c :: c in s[1..] ==> c in s;
      if s[0] == '\n' then [[]] + rest
      else [[s[0]] + rest[0]] + rest[1..]
  }

  /** Joins lines with a newline between each two. */
  function JoinLines(lines: seq<string>): (r: string)
    requires |lines| >= 1
    ensures |r| == |lines| - 1 + Total(lines)
  {
    if |lines| == 1 then lines[0] else lines[0] + "\n" + JoinLines(lines[1..])
  }

  /** The number of characters of all lines together. */
  function Total(lines: seq<string>): nat {
    if lines == [] then 0 else |lines[0]| + Total(lines[1..])
  }

  /** Joining the lines of a text gives the text back. */
  lemma {:induction false} JoinSplit(s: string)
    ensures JoinLines(SplitLines(s)) == s
  {
    if s != [] {
      var rest := SplitLines(s[1..]);
      JoinSplit(s[1..]);
      if s[0] == '\n' {
        assert SplitLines(s)[1..] == rest;
      } else {
        var r := SplitLines(s);
        assert r[0] == [s[0]] + rest[0] && r[1..] == rest[1..];
        if |rest| > 1 {
          assert JoinLines(rest) == rest[0] + "\n" + JoinLines(rest[1..]);
        }
      }
    }
  }

  /** Splitting joined newline-free lines gives the lines back. */
  lemma {:induction false} SplitJoin(lines: seq<string>)
    requires |lines| >= 1
    requires forall i :: 0 <= i < |lines| ==> '\n' !in lines[i]
    ensures SplitLines(JoinLines(lines)) == lines
  {
    if |lines| == 1 {
      SplitLine(lines[0]);
    } else {
      SplitJoin(lines[1..]);
      SplitPrefix(lines[0], JoinLines(lines[1..]));
    }
  }

  /** A text without a newline is a single line. */
  lemma {:induction false} SplitLine(s: string)
    requires '\n' !in s
    ensures SplitLines(s) == [s]
  {
    if s != [] {
      SplitLine(s[1..]);
      assert [s[0]] + s[1..] == s;
    }
  }

  /** A newline-free line followed by a newline splits off as the first
      line. */
  lemma {:induction false} SplitPrefix(line: string, rest: string)
    requires '\n' !in line
    ensures SplitLines(line + "\n" + rest) == [line] + SplitLines(rest)
  {
    if line == [] {
      assert line + "\n" + rest == "\n" + rest;
      assert ("\n" + rest)[1..] == rest;
    } else {
      var s := line + "\n" + rest;
      assert s[0] == line[0] && s[1..] == line[1..] + "\n" + rest;
      SplitPrefix(line[1..], rest);
      assert [line[0]] + line[1..] == line;
    }
  }

  // ---------------------------------------------------------------------
  // Building and moving arts

  /** The art of a text: line x, character y is drawn at (x, y), blanks are
      transparent, and everything outside the text is transparent. */
  function Create(s: string): (r: Art)
    ensures forall x, y :: r(x, y) != Transparent ==>
              0 <= x && 0 <= y && |r(x, y)| == 1 && r(x, y)[0] in s && r(x, y) != " "
  {
    var lines := SplitLines(s);
    (x, y) =>
      if 0 <= x < |lines| && 0 <= y < |lines[x]| then SpaceToTransparent(lines[x][y])
      else Transparent
  }

  /** `Create` reads back the lines it was given. */
  lemma CreateReadsLines(lines: seq<string>, x: int, y: int)
    requires |lines| >= 1
    requires forall i :: 0 <= i < |lines| ==> '\n' !in lines[i]
    ensures Create(JoinLines(lines))(x, y) ==
            if 0 <= x < |lines| && 0 <= y < |lines[x]| then SpaceToTransparent(lines[x][y]) else Transparent
  {
    SplitJoin(lines);
  }

  /** Moves an art by `v`: what was drawn at (x, y) is drawn at (x, y) + v.
      The ensures is the pointwise reading, an unfolding aid for callers;
      the laws the operation obeys are stated as lemmas. */
  function Translate(a: Art, v: (int, int)): (r: Art)
    ensures forall x, y :: r(x, y) == a(x - v.0, y - v.1)
  {
    (x, y) => a(x - v.0, y - v.1)
  }

  /** Swaps rows and columns.
      The ensures is the pointwise reading, an unfolding aid for callers;
      the laws the operation obeys are stated as lemmas. */
  function Transpose(a: Art): (r: Art)
    ensures forall x, y :: r(x, y) == a(y, x)
  {
    (x, y) => a(y, x)
  }

  /** Point reflection through the origin.
      The ensures is the pointwise reading, an unfolding aid for callers;
      the laws the operation obeys are stated as lemmas. */
  function InvertCentral(a: Art): (r: Art)
    ensures forall x, y :: r(x, y) == a(-x, -y)
  {
    (x, y) => a(-x, -y)
  }

  /** Mirrors the columns: column y goes to column -y.
      The ensures is the pointwise reading, an unfolding aid for callers;
      the laws the operation obeys are stated as lemmas. */
  function ReflectHorizontally(a: Art): (r: Art)
    ensures forall x, y :: r(x, y) == a(x, -y)
  {
    (x, y) => a(x, -y)
  }

  /** Mirrors the rows: row x goes to row -x.
      The ensures is the pointwise reading, an unfolding aid for callers;
      the laws the operation obeys are stated as lemmas. */
  function ReflectVertically(a: Art): (r: Art)
    ensures forall x, y :: r(x, y) == a(-x, y)
  {
    (x, y) => a(-x, y)
  }

  /** Moving by `v` and back by `-v` changes nothing. */
  lemma TranslateBack(a: Art, v: (int, int))
    ensures forall x, y :: Translate(Translate(a, v), (-v.0, -v.1))(x, y) == a(x, y)
  {
  }

  /** What was drawn at (x, y) is drawn at (x, y) + v after the move. */
  lemma TranslateMoves(a: Art, v: (int, int), x: int, y: int)
    ensures Translate(a, v)(x + v.0, y + v.1) == a(x, y)
  {
  }

  /** Two moves add up to one move by the sum of the vectors. */
  lemma TranslateAdds(a: Art, u: (int, int), v: (int, int))
    ensures forall x, y :: Translate(Translate(a, u), v)(x, y) == Translate(a, (u.0 + v.0, u.1 + v.1))(x, y)
  {
  }

  /** Moving and then transposing is transposing and then moving by the
      swapped vector. */
  lemma TranslateTranspose(a: Art, v: (int, int))
    ensures forall x, y :: Transpose(Translate(a, v))(x, y) == Translate(Transpose(a), (v.1, v.0))(x, y)
  {
  }

  /** Transposing twice changes nothing. */
  lemma TransposeInvolution(a: Art)
    ensures forall x, y :: Transpose(Transpose(a))(x, y) == a(x, y)
  {
  }

  /** The central inversion undoes itself. */
  lemma InvertInvolution(a: Art)
    ensures forall x, y :: InvertCentral(InvertCentral(a))(x, y) == a(x, y)
  {
  }

  /** Reflecting the columns twice changes nothing. */
  lemma ReflectHorizontallyInvolution(a: Art)
    ensures forall x, y :: ReflectHorizontally(ReflectHorizontally(a))(x, y) == a(x, y)
  {
  }

  /** Reflecting the rows twice changes nothing. */
  lemma ReflectVerticallyInvolution(a: Art)
    ensures forall x, y :: ReflectVertically(ReflectVertically(a))(x, y) == a(x, y)
  {
  }

  /** The two reflections together, in either order, are the central
      inversion. */
  lemma ReflectionsInvert(a: Art)
    ensures forall x, y :: ReflectHorizontally(ReflectVertically(a))(x, y) == InvertCentral(a)(x, y)
    ensures forall x, y :: ReflectVertically(ReflectHorizontally(a))(x, y) == InvertCentral(a)(x, y)
  {
  }

  // ---------------------------------------------------------------------
  // Combining arts

  /** The first sample of `arts` at (x, y) that is not transparent. */
  function FirstOpaque(arts: seq<Art>, x: int, y: int): (r: string)
    ensures r == Transparent <==> forall i :: 0 <= i < |arts| ==> arts[i](x, y) == Transparent
    ensures r != Transparent ==>
              exists i :: 0 <= i < |arts| && arts[i](x, y) == r &&
                          forall j :: 0 <= j < i ==> arts[j](x, y) == Transparent
  {
    if arts == [] then Transparent
    else if arts[0](x, y) != Transparent then arts[0](x, y)
    else
      var r := FirstOpaque(arts[1..], x, y);
      assert forall i :: 1 <= i < |arts| ==> arts[i] == arts[1..][i - 1];
      if r != Transparent then
        var k :| 0 <= k < |arts[1..]| && arts[1..][k](x, y) == r &&
                 forall j :: 0 <= j < k ==> arts[1..][j](x, y) == Transparent;
        assert arts[k + 1](x, y) == r;
        r
      else r
  }

  /** Overlays arts: at each coordinate the earliest art that draws
      something wins. */
  function Union(arts: seq<Art>): (r: Art)
    ensures forall x, y :: r(x, y) == Transparent <==>
              forall i :: 0 <= i < |arts| ==> arts[i](x, y) == Transparent
    ensures forall x, y, i :: (0 <= i < |arts| && arts[i](x, y) != Transparent &&
              forall j :: 0 <= j < i ==> arts[j](x, y) == Transparent) ==> r(x, y) == arts[i](x, y)
  {
    (x, y) => FirstOpaque(arts, x, y)
  }

  /** The union of one art is that art; the union of none is empty. */
  lemma UnionUnitAndEmpty(a: Art)
    ensures forall x, y :: Union([a])(x, y) == a(x, y)
    ensures forall x, y :: Union([])(x, y) == Empty()(x, y)
  {
  }

  /** Applies `f` to every sample, transparent ones included. */
  function Compose(a: Art, f: string -> string): (r: Art)
    ensures forall x, y :: a(x, y) == Transparent ==> r(x, y) == f(Transparent)
    ensures forall x, y, u, v :: a(x, y) == a(u, v) ==> r(x, y) == r(u, v)
  {
    (x, y) => f(a(x, y))
  }

  /** Composing with the identity changes nothing. */
  lemma ComposeIdentity(a: Art)
    ensures forall x, y :: Compose(a, s => s)(x, y) == a(x, y)
  {
  }

  /** Composing with `f` and then with `g` is composing once with `g`
      after `f`. */
  lemma ComposeFuses(a: Art, f: string -> string, g: string -> string)
    ensures forall x, y :: Compose(Compose(a, f), g)(x, y) == Compose(a, s => g(f(s)))(x, y)
  {
  }

  /** Recolouring commutes with moving and with transposing. */
  lemma ComposeCommutes(a: Art, f: string -> string, v: (int, int))
    ensures forall x, y :: Compose(Translate(a, v), f)(x, y) == Translate(Compose(a, f), v)(x, y)
    ensures forall x, y :: Compose(Transpose(a), f)(x, y) == Transpose(Compose(a, f))(x, y)
  {
  }

  /** An opaque sample of one art hides every later art; the empty art
      hides nothing. */
  lemma UnionEmptyUnit(a: Art, b: Art)
    ensures forall x, y :: Union([Empty(), a])(x, y) == a(x, y)
    ensures forall x, y :: Union([a, Empty()])(x, y) == a(x, y)
    ensures forall x, y :: a(x, y) != Transparent ==> Union([a, b])(x, y) == a(x, y)
    ensures forall x, y :: a(x, y) == Transparent ==> Union([a, b])(x, y) == b(x, y)
  {
    forall x, y ensures FirstOpaque([a, b], x, y) == (if a(x, y) != Transparent then a(x, y) else b(x, y)) {
      assert [a, b][1..] == [b];
    }
    forall x, y ensures FirstOpaque([Empty(), a], x, y) == a(x, y) {
      assert [Empty(), a][1..] == [a];
    }
    forall x, y ensures FirstOpaque([a, Empty()], x, y) == a(x, y) {
      assert [a, Empty()][1..] == [Empty()];
    }
  }

  /** `Compose` with `ResolveChar` leaves no transparent sample. */
  lemma ComposeResolveOpaque(a: Art)
    ensures forall x, y :: Compose(a, ResolveChar)(x, y) != Transparent
  {
  }

  /** Cuts an art down to the rectangle of `dim.0` rows and `dim.1` columns
      at the origin. */
  function FrameArt(a: Art, dim: (int, int)): (r: Art)
    ensures forall x, y :: r(x, y) != Transparent ==> 0 <= x < dim.0 && 0 <= y < dim.1
    ensures forall x, y :: 0 <= x < dim.0 && 0 <= y < dim.1 ==> r(x, y) == a(x, y)
  {
    (x, y) => if 0 <= x < dim.0 && 0 <= y < dim.1 then a(x, y) else Transparent
  }

  /** Framing twice with the same rectangle is framing once. */
  lemma FrameIdempotent(a: Art, dim: (int, int))
    ensures forall x, y :: FrameArt(FrameArt(a, dim), dim)(x, y) == FrameArt(a, dim)(x, y)
  {
  }

  /** A box of `dim.0` rows and `dim.1` columns: '+' at the corners, '-' on
      the top and bottom rows, '|' on the left and right columns, and inside
      it the art moved one step down and right. */
  function Window(a: Art, dim: (int, int)): (r: Art)
    ensures forall x, y :: !(0 <= x < dim.0 && 0 <= y < dim.1) ==> r(x, y) == Transparent
    ensures forall x, y :: 1 <= x < dim.0 - 1 && 1 <= y < dim.1 - 1 ==> r(x, y) == a(x - 1, y - 1)
    ensures forall x, y :: 0 <= x < dim.0 && 0 <= y < dim.1 && !(1 <= x < dim.0 - 1 && 1 <= y < dim.1 - 1) ==>
              r(x, y) == if (x == 0 || x == dim.0 - 1) && (y == 0 || y == dim.1 - 1) then "+"
                         else if x == 0 || x == dim.0 - 1 then "-"
                         else "|"
  {
    var inner := Translate(a, (1, 1));
    (x, y) =>
      if !(0 <= x < dim.0) || !(0 <= y < dim.1) then Transparent
      else if !(1 <= x < dim.0 - 1) && !(1 <= y < dim.1 - 1) then "+"
      else if !(1 <= x < dim.0 - 1) then "-"
      else if !(1 <= y < dim.1 - 1) then "|"
      else inner(x, y)
  }

  // ---------------------------------------------------------------------
  // Printing

  /** The printed form of columns 0 to n - 1 of row x. */
  function RenderLine(a: Art, x: int, n: int): (r: string)
    ensures |r| >= n
    ensures (forall j :: 0 <= j < n ==> |a(x, j)| <= 1) ==>
              |r| == if n < 0 then 0 else n
    ensures (forall j :: 0 <= j < n ==> |a(x, j)| <= 1) ==>
              forall j :: 0 <= j < n ==> r[j] == ResolveChar(a(x, j))[0]
    decreases n
  {
    if n <= 0 then "" else RenderLine(a, x, n - 1) + ResolveChar(a(x, n - 1))
  }

  /** The printed form of an art: `dim.0` lines of `dim.1` samples each. */
  function Render(a: Art, dim: (int, int)): (r: seq<string>)
    ensures |r| == if dim.0 < 0 then 0 else dim.0
    ensures forall i :: 0 <= i < |r| ==> r[i] == RenderLine(a, i, dim.1)
    decreases dim.0
  {
    if dim.0 <= 0 then [] else Render(a, (dim.0 - 1, dim.1)) + [RenderLine(a, dim.0 - 1, dim.1)]
  }

  /** Every sample of the rectangle is at most one character. */
  ghost predicate Narrow(a: Art, dim: (int, int)) {
    forall x, y :: 0 <= x < dim.0 && 0 <= y < dim.1 ==> |a(x, y)| <= 1
  }

  /** Printing a narrow art shows sample (x, y) as character y of line x,
      transparent samples as blanks. */
  lemma RenderShows(a: Art, dim: (int, int), x: int, y: int)
    requires Narrow(a, dim)
    requires 0 <= x < dim.0 && 0 <= y < dim.1
    ensures |Render(a, dim)[x]| == dim.1
    ensures Render(a, dim)[x][y] == if a(x, y) == Transparent then ' ' else a(x, y)[0]
  {
    assert forall j :: 0 <= j < dim.1 ==> |a(x, j)| <= 1;
  }

  /** Printing a narrow art gives a rectangle of its resolved samples. */
  lemma RenderRectangle(a: Art, dim: (int, int))
    requires Narrow(a, dim) && dim.1 >= 0
    ensures forall x :: 0 <= x < dim.0 ==> |Render(a, dim)[x]| == dim.1
    ensures forall x, y :: 0 <= x < dim.0 && 0 <= y < dim.1 ==> Render(a, dim)[x][y] == ResolveChar(a(x, y))[0]
  {
    forall x | 0 <= x < dim.0 ensures |Render(a, dim)[x]| == dim.1 {
      assert forall j :: 0 <= j < dim.1 ==> |a(x, j)| <= 1;
    }
  }

  /** When every sample is exactly one character, printing shows each
      sample itself. */
  lemma RenderSingles(a: Art, dim: (int, int))
    requires dim.1 >= 0
    requires forall x, y :: 0 <= x < dim.0 && 0 <= y < dim.1 ==> |a(x, y)| == 1
    ensures forall x :: 0 <= x < dim.0 ==> |Render(a, dim)[x]| == dim.1
    ensures forall x, y :: 0 <= x < dim.0 && 0 <= y < dim.1 ==> [Render(a, dim)[x][y]] == a(x, y)
  {
    RenderRectangle(a, dim);
    forall x, y | 0 <= x < dim.0 && 0 <= y < dim.1 ensures [Render(a, dim)[x][y]] == a(x, y) {
      assert [a(x, y)[0]] == a(x, y);
    }
  }

  /** Printing the transposed art prints the transposed rectangle. */
  lemma RenderTranspose(a: Art, dim: (int, int))
    requires Narrow(a, dim) && dim.0 >= 0 && dim.1 >= 0
    ensures |Render(Transpose(a), (dim.1, dim.0))| == dim.1
    ensures forall y :: 0 <= y < dim.1 ==> |Render(Transpose(a), (dim.1, dim.0))[y]| == dim.0
    ensures forall x, y :: 0 <= x < dim.0 && 0 <= y < dim.1 ==>
              Render(a, dim)[x][y] == Render(Transpose(a), (dim.1, dim.0))[y][x]
  {
    var t := Transpose(a);
    assert Narrow(t, (dim.1, dim.0));
    RenderRectangle(a, dim);
    RenderRectangle(t, (dim.1, dim.0));
  }

  /** A narrow art and its transpose print as two rectangles, each the
      other's transpose. */
  lemma RenderBothWays(a: Art, dim: (int, int), plain: seq<string>, turned: seq<string>)
    requires Narrow(a, dim) && dim.0 >= 0 && dim.1 >= 0
    requires plain == Render(a, dim) && turned == Render(Transpose(a), (dim.1, dim.0))
    ensures |plain| == dim.0 && |turned| == dim.1
    ensures forall i :: 0 <= i < |plain| ==> |plain[i]| == dim.1
    ensures forall j :: 0 <= j < |turned| ==> |turned[j]| == dim.0
    ensures forall i, j :: 0 <= i < dim.0 && 0 <= j < dim.1 ==> plain[i][j] == turned[j][i]
    ensures PrintOf(plain, a, dim) && PrintOf(turned, Transpose(a), (dim.1, dim.0))
  {
    RenderRectangle(a, dim);
    RenderTranspose(a, dim);
    PrintOfRender(a, dim);
    assert Narrow(Transpose(a), (dim.1, dim.0));
    PrintOfRender(Transpose(a), (dim.1, dim.0));
  }

  /** Printing a narrow art gives its printed form. */
  lemma PrintOfRender(a: Art, dim: (int, int))
    requires Narrow(a, dim) && dim.0 >= 0 && dim.1 >= 0
    ensures PrintOf(Render(a, dim), a, dim)
  {
    var lines := Render(a, dim);
    RenderRectangle(a, dim);
    forall i, j | 0 <= i < |lines| && 0 <= j < |lines[i]| ensures [lines[i][j]] == ResolveChar(a(i, j)) {
      assert |ResolveChar(a(i, j))| == 1;
    }
  }

  /** `lines` is a rectangle of `dim.0` lines of `dim.1` characters, each
      the printed form of the sample at its position. */
  ghost predicate PrintOf(lines: seq<string>, a: Art, dim: (int, int)) {
    && |lines| == dim.0
    && (forall i :: 0 <= i < |lines| ==> |lines[i]| == dim.1)
    && forall i, j :: 0 <= i < |lines| && 0 <= j < |lines[i]| ==> [lines[i][j]] == ResolveChar(a(i, j))
  }

  /** The print of a narrow art together with the print of its transpose:
      each is the printed form of its art, and each is the other's
      transpose. */
  function RenderPair(a: Art, dim: (int, int)): (r: (seq<string>, seq<string>))
    requires Narrow(a, dim) && dim.0 >= 0 && dim.1 >= 0
    ensures PrintOf(r.0, a, dim)
    ensures PrintOf(r.1, Transpose(a), (dim.1, dim.0))
    ensures forall i, j :: 0 <= i < dim.0 && 0 <= j < dim.1 ==> r.0[i][j] == r.1[j][i]
  {
    var plain := Render(a, dim);
    var turned := Render(Transpose(a), (dim.1, dim.0));
    RenderBothWays(a, dim, plain, turned);
    (plain, turned)
  }

  /** Printing the framed art prints the same lines. */
  lemma RenderFramed(a: Art, dim: (int, int))
    ensures Render(FrameArt(a, dim), dim) == Render(a, dim)
  {
    var f := FrameArt(a, dim);
    var r, s := Render(f, dim), Render(a, dim);
    forall i | 0 <= i < |r| ensures r[i] == s[i] {
      FramedRow(a, f, dim, i);
    }
    SameElements(r, s);
  }

  lemma FramedRow(a: Art, f: Art, dim: (int, int), x: int)
    requires f == FrameArt(a, dim) && 0 <= x < dim.0
    ensures RenderLine(f, x, dim.1) == RenderLine(a, x, dim.1)
  {
    assert forall j :: 0 <= j < dim.1 ==> f(x, j) == a(x, j);
    RenderLineCongruent(f, a, x, dim.1);
  }

  /** A printed line depends only on the samples it shows. */
  lemma {:induction false} RenderLineCongruent(a: Art, b: Art, x: int, n: int)
    requires forall j :: 0 <= j < n ==> a(x, j) == b(x, j)
    ensures RenderLine(a, x, n) == RenderLine(b, x, n)
    decreases n
  {
    if n > 0 {
      RenderLineCongruent(a, b, x, n - 1);
      assert a(x, n - 1) == b(x, n - 1);
    }
  }

  /** The text of the window's documentation example, as lines. */
  function ExampleLines(): (r: seq<string>)
    ensures |r| == 4 && forall i :: 0 <= i < 4 ==> '\n' !in r[i]
  {
    ["abcd111", "efgh222", "ijkl333", "mnop444"]
  }

  /** The window the documentation example shows. */
  function ExampleWindow(): (r: seq<string>)
    ensures |r| == 5 && forall i :: 0 <= i < 5 ==> |r[i]| == 4
  {
    ["+--+", "|ab|", "|ef|", "|ij|", "+--+"]
  }

  /** Inside the example window, the example lines show through. */
  lemma ExampleExpected(x: int, y: int)
    requires 1 <= x < 4 && 1 <= y < 3
    ensures ExampleWindow()[x][y] == ExampleLines()[x - 1][y - 1] != ' '
  {
    var lines, expected := ExampleLines(), ExampleWindow();
    assert expected[1][1..3] == lines[0][0..2];
    assert expected[2][1..3] == lines[1][0..2];
    assert expected[3][1..3] == lines[2][0..2];
  }

  /** The border of the example window. */
  lemma ExampleBorder(x: int, y: int)
    requires 0 <= x < 5 && 0 <= y < 4 && !(1 <= x < 4 && 1 <= y < 3)
    ensures ExampleWindow()[x][y] ==
            if (x == 0 || x == 4) && (y == 0 || y == 3) then '+' else if x == 0 || x == 4 then '-' else '|'
  {
  }

  /** Each sample of the window's documentation example. */
  lemma WindowExampleSample(lines: seq<string>, dim: (int, int), x: int, y: int)
    requires lines == ExampleLines() && dim == (5, 4)
    requires 0 <= x < 5 && 0 <= y < 4
    ensures Window(Create(JoinLines(lines)), dim)(x, y) == [ExampleWindow()[x][y]]
  {
    if 1 <= x < 4 && 1 <= y < 3 {
      WindowExampleInside(lines, dim, x, y);
    } else {
      ExampleBorder(x, y);
    }
  }

  lemma WindowExampleInside(lines: seq<string>, dim: (int, int), x: int, y: int)
    requires lines == ExampleLines() && dim == (5, 4)
    requires 1 <= x < 4 && 1 <= y < 3
    ensures Window(Create(JoinLines(lines)), dim)(x, y) == [ExampleWindow()[x][y]]
  {
    CreateReadsLines(lines, x - 1, y - 1);
    ExampleExpected(x, y);
  }

  /** An art whose samples spell out the characters of `text` prints as
      `text`. */
  lemma RenderSpells(a: Art, dim: (int, int), text: seq<string>)
    requires |text| == dim.0 && forall x :: 0 <= x < dim.0 ==> |text[x]| == dim.1
    requires forall x, y :: 0 <= x < dim.0 && 0 <= y < dim.1 ==> a(x, y) == [text[x][y]]
    ensures Render(a, dim) == text
  {
    var r := Render(a, dim);
    forall x | 0 <= x < dim.0 ensures r[x] == text[x] {
      forall y | 0 <= y < dim.1 ensures r[x][y] == text[x][y] {
        RenderShows(a, dim, x, y);
      }
      if dim.1 > 0 {
        RenderShows(a, dim, x, 0);
      }
      SameElements(r[x], text[x]);
    }
    SameElements(r, text);
  }

  /** The example of the window's documentation: a 5 by 4 window around the
      lines "abcd111", "efgh222", "ijkl333", "mnop444" shows their top-left
      3 by 2 corner in a box. */
  lemma WindowExample(lines: seq<string>, dim: (int, int))
    requires lines == ExampleLines() && dim == (5, 4)
    ensures Render(Window(Create(JoinLines(lines)), dim), dim) == ExampleWindow()
  {
    var w := Window(Create(JoinLines(lines)), dim);
    forall x, y | 0 <= x < dim.0 && 0 <= y < dim.1 ensures w(x, y) == [ExampleWindow()[x][y]] {
      WindowExampleSample(lines, dim, x, y);
    }
    RenderSpells(w, dim, ExampleWindow());
  }

  lemma SameElements<T>(a: seq<T>, b: seq<T>)
    requires |a| == |b| && forall i :: 0 <= i < |a| ==> a[i] == b[i]
    ensures a == b
  {
  }
}
