/**
  `pretty_print`: the wall grid drawn as text, each cell a square block of
  `size + 2` by `size + 2` characters, walls in ▓ and open floor in ░; and
  the same drawing as a 0/255 matrix.
  */
module PrettyPrinter {

  import opened Wrappers
  import opened Walls
  import opened Board
  import opened Seqs
  import opened GridExtraction

  const Blank: char := '░'
  const Full: char := '▓'

  function Mark(b: bool): char
  {
    if b then Full else Blank
  }

  /** How many times Python's `s * size` and `range(size)` repeat: never for `size <= 0`. */
  function Thickness(size: int): nat
  {
    if size > 0 then size else 0
  }

  /** The side of one cell's block, in characters. */
  function Pitch(size: int): nat
  {
    Thickness(size) + 2
  }

  /** `[x] * size`, or `x * size` on a one-character string. */
  function Repeat<T>(x: T, size: int): (r: seq<T>)
    ensures |r| == Thickness(size)
    ensures forall k :: 0 <= k < |r| ==> r[k] == x
    decreases Thickness(size)
  {
    if size <= 0 then [] else [x] + Repeat(x, size - 1)
  }

  /** The three kinds of text line a grid row is drawn with. */
  datatype Part = Top | Middle | Bottom

  /** What cell `c` adds to a line of the given kind: a corner, `size` edge characters, a corner. */
  function Piece(c: bv8, part: Part, size: int): (p: string)
    ensures |p| == Pitch(size)
  {
    match part
    case Top =>
      [Mark(Has(c, LEFT) || Has(c, TOP))] + Repeat(Mark(Has(c, TOP)), size) + [Mark(Has(c, RIGHT) || Has(c, TOP))]
    case Middle =>
      [Mark(Has(c, LEFT))] + Repeat(Blank, size) + [Mark(Has(c, RIGHT))]
    case Bottom =>
      [Mark(Has(c, LEFT) || Has(c, BOTTOM))] + Repeat(Mark(Has(c, BOTTOM)), size) + [Mark(Has(c, RIGHT) || Has(c, BOTTOM))]
  }

  /** The grid has the 16 rows of 16 cells that the renderer reads. */
  predicate Fits(g: Grid)
  {
    |g| >= Side && forall i :: 0 <= i < Side ==> |g[i]| >= Side
  }

  /** One line of a grid row: the pieces of its 16 cells side by side. */
  function Line(row: seq<bv8>, part: Part, size: int): string
    requires |row| >= Side
  {
    Concat(seq(Side, j requires 0 <= j < Side => Piece(row[j], part, size)))
  }

  /** The lines drawn for one grid row: its top line, `size` middle lines, its bottom line. */
  function RowLines(row: seq<bv8>, size: int): (ls: seq<string>)
    requires |row| >= Side
    ensures |ls| == Pitch(size)
  {
    [Line(row, Top, size)] + Repeat(Line(row, Middle, size), size) + [Line(row, Bottom, size)]
  }

  /** `out`: the lines of the 16 grid rows, top to bottom. */
  function Lines(g: Grid, size: int): seq<string>
    requires Fits(g)
  {
    Concat(seq(Side, i requires 0 <= i < Side => RowLines(g[i], size)))
  }

  /** `"\n".join(lines)`. */
  function Join(lines: seq<string>): string
  {
    if |lines| == 0 then ""
    else if |lines| == 1 then lines[0]
    else lines[0] + "\n" + Join(lines[1..])
  }

  /** The position of the first line break of `s`. */
  function FirstBreak(s: string): (k: nat)
    requires '\n' in s
    ensures k < |s| && s[k] == '\n' && '\n' !in s[..k]
  {
    if s[0] == '\n' then 0
    else
      var k := FirstBreak(s[1..]);
      assert s[..k + 1] == [s[0]] + s[1..][..k];
      k + 1
  }

  /** `s.split("\n")`. */
  function Split(s: string): seq<string>
    decreases |s|
  {
    if '\n' !in s then [s]
    else
      var k := FirstBreak(s);
      [s[..k]] + Split(s[k + 1..])
  }

  /** The 0/255 matrix of a square drawing: 255 where the text has ▓. */
  function Matrix(out: seq<string>): seq<seq<int>>
    requires forall i :: 0 <= i < |out| ==> |out[i]| == |out|
  {
    seq(|out|, i requires 0 <= i < |out| => seq(|out|, j requires 0 <= j < |out| => if out[i][j] == Full then 255 else 0))
  }

  /**
    `pretty_print(grid, size)`: the text, its lines joined by line breaks,
    and the matrix. A grid without 16 rows of 16 cells raises `IndexError`.
    */
  function PrettyPrint(g: Grid, size: int): (r: Result<(string, seq<seq<int>>)>)
    ensures r.Ok? <==> Fits(g)
  {
    if !Fits(g) then Err(IndexError)
    else
      var out := Lines(g, size);
      LinesShape(g, size);
      Ok((Join(out), Matrix(out)))
  }

  /**
    The character at line `a`, column `b` of the block drawn for cell `c`:
    ▓ on the left column when `c` has LEFT, on the right column when it has
    RIGHT, on the top line when it has TOP, on the bottom line when it has
    BOTTOM; ░ everywhere else.
    */
  function CellPixel(c: bv8, size: int, a: int, b: int): char
  {
    var last := Pitch(size) - 1;
    Mark((b == 0 && Has(c, LEFT)) || (b == last && Has(c, RIGHT)) || (a == 0 && Has(c, TOP)) || (a == last && Has(c, BOTTOM)))
  }

  /** The kind of line drawn at line `a` of a block. */
  function PartAt(a: int, size: int): Part
  {
    if a == 0 then Top else if a == Pitch(size) - 1 then Bottom else Middle
  }

  lemma PieceAt(c: bv8, size: int, a: int, b: int)
    requires 0 <= a < Pitch(size) && 0 <= b < Pitch(size)
    ensures Piece(c, PartAt(a, size), size)[b] == CellPixel(c, size, a, b)
  {
    var part := PartAt(a, size);
    var p := Piece(c, part, size);
    if 0 < b < Pitch(size) - 1 {
      match part
      case Top => assert p[b] == Repeat(Mark(Has(c, TOP)), size)[b - 1];
      case Middle => assert p[b] == Repeat(Blank, size)[b - 1];
      case Bottom => assert p[b] == Repeat(Mark(Has(c, BOTTOM)), size)[b - 1];
    }
  }

  lemma RowLinesAt(row: seq<bv8>, size: int, a: int)
    requires |row| >= Side && 0 <= a < Pitch(size)
    ensures RowLines(row, size)[a] == Line(row, PartAt(a, size), size)
  {
    var ls := RowLines(row, size);
    if 0 < a < Pitch(size) - 1 {
      assert ls[a] == Repeat(Line(row, Middle, size), size)[a - 1];
    }
  }

  lemma LineAt(row: seq<bv8>, part: Part, size: int, j: int, b: int)
    requires |row| >= Side && 0 <= j < Side && 0 <= b < Pitch(size)
    ensures |Line(row, part, size)| == Side * Pitch(size)
    ensures j * Pitch(size) + b < Side * Pitch(size)
    ensures Line(row, part, size)[j * Pitch(size) + b] == Piece(row[j], part, size)[b]
  {
    var pieces := seq(Side, j requires 0 <= j < Side => Piece(row[j], part, size));
    ConcatAt(pieces, Pitch(size), j, b);
  }

  /** The drawing is square: `16 * (max(size, 0) + 2)` lines of as many characters (a negative `size` draws no wall thickness). */
  lemma LinesShape(g: Grid, size: int)
    requires Fits(g)
    ensures |Lines(g, size)| == Side * Pitch(size)
    ensures forall r :: 0 <= r < |Lines(g, size)| ==> |Lines(g, size)[r]| == Side * Pitch(size)
  {
    var rows := seq(Side, i requires 0 <= i < Side => RowLines(g[i], size));
    ConcatLength(rows, Pitch(size));
    forall r | 0 <= r < |Lines(g, size)| ensures |Lines(g, size)[r]| == Side * Pitch(size) {
      Chunk(r, Pitch(size), Side);
      var i, a := r / Pitch(size), r % Pitch(size);
      BlockAt(g, size, i, a);
      LineAt(g[i], PartAt(a, size), size, 0, 0);
    }
  }

  /** Line `a` of the blocks of grid row `i` is line `i * (size + 2) + a` of the drawing. */
  lemma BlockAt(g: Grid, size: int, i: int, a: int)
    requires Fits(g) && 0 <= i < Side && 0 <= a < Pitch(size)
    ensures i * Pitch(size) + a < |Lines(g, size)|
    ensures Lines(g, size)[i * Pitch(size) + a] == Line(g[i], PartAt(a, size), size)
  {
    var rows := seq(Side, i requires 0 <= i < Side => RowLines(g[i], size));
    ConcatAt(rows, Pitch(size), i, a);
    RowLinesAt(g[i], size, a);
  }

  /** A drawing of `16 * (size + 2)` lines of as many characters. */
  predicate Square(out: seq<string>, size: int)
  {
    |out| == Side * Pitch(size) && forall r :: 0 <= r < |out| ==> |out[r]| == Side * Pitch(size)
  }

  /** Line `a`, column `b` of the block of cell `(i, j)` in a square drawing. */
  function BlockChar(out: seq<string>, size: int, i: int, j: int, a: int, b: int): char
    requires Square(out, size) && 0 <= i < Side && 0 <= j < Side && 0 <= a < Pitch(size) && 0 <= b < Pitch(size)
  {
    InChunk(i, a, Pitch(size), Side);
    InChunk(j, b, Pitch(size), Side);
    out[i * Pitch(size) + a][j * Pitch(size) + b]
  }

  /**
    Block by block, the drawing is the picture `CellPixel` describes: the
    output is square, and line `a`, column `b` of the block of cell `(i, j)`
    (line `i * (size + 2) + a`, column `j * (size + 2) + b`) is the cell's pixel.
    */
  lemma PrettyPrintBlocks(g: Grid, size: int, i: int, j: int, a: int, b: int)
    requires Fits(g) && 0 <= i < Side && 0 <= j < Side && 0 <= a < Pitch(size) && 0 <= b < Pitch(size)
    ensures Square(Lines(g, size), size)
    ensures BlockChar(Lines(g, size), size, i, j, a, b) == CellPixel(g[i][j], size, a, b)
  {
    LinesShape(g, size);
    BlockAt(g, size, i, a);
    LineAt(g[i], PartAt(a, size), size, j, b);
    PieceAt(g[i][j], size, a, b);
  }

  /** The drawing uses only ░ and ▓. */
  lemma LinesChars(g: Grid, size: int)
    requires Fits(g)
    ensures forall r, c :: 0 <= r < |Lines(g, size)| && 0 <= c < |Lines(g, size)[r]| ==>
      Lines(g, size)[r][c] == Blank || Lines(g, size)[r][c] == Full
  {
    var out := Lines(g, size);
    LinesShape(g, size);
    forall r, c | 0 <= r < |out| && 0 <= c < |out[r]| ensures out[r][c] == Blank || out[r][c] == Full {
      Chunk(r, Pitch(size), Side);
      Chunk(c, Pitch(size), Side);
      PrettyPrintBlocks(g, size, r / Pitch(size), c / Pitch(size), r % Pitch(size), c % Pitch(size));
      assert out[r][c] == BlockChar(out, size, r / Pitch(size), c / Pitch(size), r % Pitch(size), c % Pitch(size));
    }
  }

  /** Splitting the joined lines at the line breaks gives the lines back, when none holds a break. */
  lemma {:induction false} SplitJoin(lines: seq<string>)
    requires |lines| > 0 && forall k :: 0 <= k < |lines| ==> '\n' !in lines[k]
    ensures Split(Join(lines)) == lines
    decreases |lines|
  {
    if |lines| > 1 {
      var head, rest := lines[0], Join(lines[1..]);
      var s := head + "\n" + rest;
      assert Join(lines) == s;
      assert s[|head|] == '\n';
      var k := FirstBreak(s);
      assert k == |head|;
      assert s[..k] == head && s[k + 1..] == rest;
      SplitJoin(lines[1..]);
      assert lines == [head] + lines[1..];
    }
  }

  /** The text of `pretty_print` splits back into the drawing's lines. */
  lemma PrettyPrintText(g: Grid, size: int)
    requires Fits(g)
    ensures Split(PrettyPrint(g, size).value.0) == Lines(g, size)
  {
    var out := Lines(g, size);
    LinesShape(g, size);
    LinesChars(g, size);
    assert forall k :: 0 <= k < |out| ==> '\n' !in out[k];
    SplitJoin(out);
  }

  /** The matrix is the drawing with ▓ as 255 and ░ as 0, block by block. */
  lemma PrettyPrintMatrix(g: Grid, size: int, i: int, j: int, a: int, b: int)
    requires Fits(g) && 0 <= i < Side && 0 <= j < Side && 0 <= a < Pitch(size) && 0 <= b < Pitch(size)
    ensures var mat := PrettyPrint(g, size).value.1;
      && |mat| == Side * Pitch(size)
      && (forall r :: 0 <= r < |mat| ==> |mat[r]| == |mat|)
      && i * Pitch(size) + a < |mat| && j * Pitch(size) + b < |mat|
      && mat[i * Pitch(size) + a][j * Pitch(size) + b] == if CellPixel(g[i][j], size, a, b) == Full then 255 else 0
  {
    var out, p := Lines(g, size), Pitch(size);
    PrettyPrintBlocks(g, size, i, j, a, b);
    assert PrettyPrint(g, size).value.1 == Matrix(out);
    InChunk(i, a, p, Side);
    InChunk(j, b, p, Side);
    MatrixAt(out, i * p + a, j * p + b);
    assert out[i * p + a][j * p + b] == BlockChar(out, size, i, j, a, b);
  }

  lemma MatrixAt(out: seq<string>, r: int, c: int)
    requires forall i :: 0 <= i < |out| ==> |out[i]| == |out|
    requires 0 <= r < |out| && 0 <= c < |out|
    ensures |Matrix(out)| == |out| && forall i :: 0 <= i < |out| ==> |Matrix(out)[i]| == |out|
    ensures Matrix(out)[r][c] == if out[r][c] == Full then 255 else 0
  {
  }

  /**
    Read the walls of cell `(i, j)` back from a drawing with `size >= 1`:
    LEFT and RIGHT from the ends of its first middle line, TOP and BOTTOM
    from the first edge character of its top and bottom lines.
    */
  function Decode(out: seq<string>, size: int, i: int, j: int): bv8
    requires 1 <= size && 0 <= i < Side && 0 <= j < Side && Square(out, size)
  {
    var p := Pitch(size);
    (if BlockChar(out, size, i, j, 0, 1) == Full then Mask(TOP) else 0)
    | (if BlockChar(out, size, i, j, p - 1, 1) == Full then Mask(BOTTOM) else 0)
    | (if BlockChar(out, size, i, j, 1, 0) == Full then Mask(LEFT) else 0)
    | (if BlockChar(out, size, i, j, 1, p - 1) == Full then Mask(RIGHT) else 0)
  }

  /** With `size >= 1` the drawing loses nothing: every wall flag of every cell can be read back. */
  lemma DecodeRoundTrip(g: Grid, size: int, i: int, j: int)
    requires Fits(g) && 1 <= size && 0 <= i < Side && 0 <= j < Side
    ensures Square(Lines(g, size), size) && Decode(Lines(g, size), size, i, j) == g[i][j] & 0x0F
  {
    var p := Pitch(size);
    PrettyPrintBlocks(g, size, i, j, 0, 1);
    PrettyPrintBlocks(g, size, i, j, p - 1, 1);
    PrettyPrintBlocks(g, size, i, j, 1, 0);
    PrettyPrintBlocks(g, size, i, j, 1, p - 1);
    assert Mask(TOP) | Mask(BOTTOM) | Mask(LEFT) | Mask(RIGHT) == 0x0F;
  }

  /**
    With `size <= 0` there are no middle lines and the corners merge flags:
    a cell walled TOP and BOTTOM and a cell walled LEFT and RIGHT are drawn
    alike, so the drawing cannot be read back.
    */
  lemma ThinDrawingAmbiguous(size: int)
    requires size <= 0
    ensures forall a, b :: 0 <= a < Pitch(size) && 0 <= b < Pitch(size) ==> CellPixel(12, size, a, b) == CellPixel(3, size, a, b)
  {
  }
}
